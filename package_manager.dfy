/**
 * The package manager the user picks and the shell commands the `create`
 * action hands to it once the project is written: the install command, and,
 * only when the install exits with code 0, the editor and the dev server.
 */
module PackageManager {
  import opened Wrappers
  import opened Text

  datatype Manager = Npm | Yarn | Pnpm

  /** The prompt's choice list. */
  const CHOICES: seq<string> := ["npm", "yarn", "pnpm"]

  /** The name offered in the prompt's choice list. */
  function Name(m: Manager): (r: string)
    ensures r in CHOICES
  {
    match m
    case Npm => "npm"
    case Yarn => "yarn"
    case Pnpm => "pnpm"
  }

  /** The prompt's answer read back as a manager; anything outside the list has none. */
  function FromChoice(choice: string): (r: Option<Manager>)
    ensures r.Some? ==> Name(r.value) == choice
    ensures r.None? ==> forall m :: Name(m) != choice
    ensures r.None? <==> choice !in CHOICES
  {
    if choice == "npm" then Some(Npm)
    else if choice == "yarn" then Some(Yarn)
    else if choice == "pnpm" then Some(Pnpm)
    else None
  }

  /** Every offered name is understood, as the manager it names. */
  lemma ChoiceRoundTrip(m: Manager)
    ensures FromChoice(Name(m)) == Some(m)
  {
  }

  /** The install command: the manager's name, ` install `, and the flag that quiets it. */
  function InstallCommand(m: Manager): (r: string)
    ensures StartsWith(r, Name(m) + " install ")
  {
    var flag := match m
      case Npm => "--loglevel=warn"
      case Yarn => "--silent"
      case Pnpm => "--reporter=silent";
    StartsWithJoin(Name(m) + " install ", flag);
    Name(m) + " install " + flag
  }

  function DevCommand(m: Manager): (r: string)
    ensures StartsWith(r, Name(m) + " ")
    ensures EndsWith(r, " dev")
  {
    match m
    case Npm => "npm run dev"
    case Yarn => "yarn dev"
    case Pnpm => "pnpm dev"
  }

  /** Distinct managers run distinct commands. */
  lemma CommandsDistinguishManagers(m: Manager, n: Manager)
    ensures InstallCommand(m) == InstallCommand(n) ==> m == n
    ensures DevCommand(m) == DevCommand(n) ==> m == n
  {
    if m != n {
      assert InstallCommand(m)[1] != InstallCommand(n)[1] || InstallCommand(m)[0] != InstallCommand(n)[0];
      assert DevCommand(m)[1] != DevCommand(n)[1] || DevCommand(m)[0] != DevCommand(n)[0];
    }
  }

  const OPEN_EDITOR: string := "code ."

  /** The commands executed, in order, given the exit code of the install. */
  function Handoff(m: Manager, installExit: int): (r: seq<string>)
    ensures |r| > 0 && r[0] == InstallCommand(m)
  {
    [InstallCommand(m)] + if installExit == 0 then [OPEN_EDITOR, DevCommand(m)] else []
  }

  /** The dev server is started exactly when the install succeeded, and always after it. */
  lemma DevServerOnlyAfterInstall(m: Manager, installExit: int)
    ensures DevCommand(m) in Handoff(m, installExit) <==> installExit == 0
    ensures installExit == 0 ==> Handoff(m, installExit) == [InstallCommand(m), OPEN_EDITOR, DevCommand(m)]
  {
    assert InstallCommand(m) != DevCommand(m) by {
      assert |InstallCommand(m)| > |DevCommand(m)|;
    }
  }
}
