/**
 * The `create <projectName>` action of index.mjs as one function of the world
 * it starts from: the project directory's tree, the remotes of the repository
 * `git init` sets up, and whether the scratch clone directory `temp` exists.
 * What git's transport does is an input: the template clone either failed
 * (None) or produced a template, and `git remote add` either went through or
 * threw.
 */
module CreateAction {
  import opened Wrappers
  import opened Text
  import opened FileTree
  import opened CopyDirectory
  import opened ZipOverlay
  import opened Remotes
  import opened GeneratedFiles
  import opened Rewrites
  import opened PackageManager

  const GIT: Path := [".git"]
  const ZIP: Path := ["isiTemplate.zip"]
  const ENV: Path := [".env"]
  const ENV_PRODUCTION: Path := [".env.production"]
  const INDEX_HTML: Path := ["index.html"]
  const LAYOUT: Path := ["src", "app", "base", "components", "Template", "MatxLayout", "Layout1", "Layout1.tsx"]
  const DIST_ZIP: Path := ["dist-zip"]
  const README: Path := ["README.md"]

  /** The cloned template: its files, relative to the clone directory, and the decoded entries of its isiTemplate.zip. */
  datatype Template = Template(tree: Tree, archive: seq<Entry>)

  datatype Request = Request(projectName: string, manager: Manager, answers: Answers)

  datatype World = World(files: Tree, remotes: seq<Remote>, scratch: bool)

  datatype Outcome =
    | DestinationExists  // the project directory was already there: nothing is touched
    | CloneFailed        // the template could not be cloned: the action stops after the remote step
    | Crashed            // a file-system call threw: the action stops where it was
    | Created

  datatype Warning = RemoteNotAdded | ArchiveMissing

  datatype Run = Run(outcome: Outcome, warnings: seq<Warning>, world: World)

  /** What the file-system part of a run did, beside the remote step: how it ended, its warnings, the tree it left, and whether `temp` is left behind. */
  datatype Stages = Stages(outcome: Outcome, warnings: seq<Warning>, files: Tree, scratch: bool)

  /** What a stage left behind, and whether it ran to its end. */
  datatype Written = Written(tree: Tree, ok: bool)

  /** A real directory tree; the clone is one too. */
  ghost predicate WellFormedWorld(w: World, clone: Option<Template>) {
    IsTree(w.files) && (clone.Some? ==> IsTree(clone.value.tree))
  }

  /** The overlay of isiTemplate.zip, when the clone has one; AdmZip cannot open a directory. */
  function Overlay(t: Tree, tmpl: Template): (r: Written)
    ensures ZIP !in tmpl.tree ==> r == Written(t, true)
    ensures ZIP in tmpl.tree && tmpl.tree[ZIP] == Dir ==> r == Written(t, false)
    ensures ZIP in tmpl.tree && tmpl.tree[ZIP].File? ==> r == Written(ApplyEntries(t, tmpl.archive).tree, ApplyEntries(t, tmpl.archive).ok)
    ensures IsTree(t) ==> IsTree(r.tree)
  {
    if ZIP !in tmpl.tree then Written(t, true)
    else if tmpl.tree[ZIP] == Dir then Written(t, false)
    else
      var x := ApplyEntries(t, tmpl.archive);
      Written(x.tree, x.ok)
  }

  /** index.html, when present, gets the project name as description and title; reading a directory throws. */
  function RewriteIndexFile(t: Tree, name: string): (r: Written)
    ensures INDEX_HTML !in t ==> r == Written(t, true)
    ensures INDEX_HTML in t && t[INDEX_HTML] == Dir ==> !r.ok
    ensures INDEX_HTML in t && t[INDEX_HTML].File? ==> r == Written(t[INDEX_HTML := File(RewriteIndexHtml(t[INDEX_HTML].content, name))], true)
    ensures IsTree(t) ==> IsTree(r.tree)
  {
    if INDEX_HTML !in t then Written(t, true)
    else match t[INDEX_HTML]
      case Dir => Written(t, false)
      case File(c) =>
        assert IsTree(t) ==> IsTree(t[INDEX_HTML := File(RewriteIndexHtml(c, name))]) by {
          if IsTree(t) {
            assert t[Parent(INDEX_HTML)] == Dir;
            SetFileIsTree(t, INDEX_HTML, RewriteIndexHtml(c, name));
          }
        }
        Written(t[INDEX_HTML := File(RewriteIndexHtml(c, name))], true)
  }

  /** Layout1.tsx, when present and not yet carrying the marker, gets the restriction injected. */
  function InjectLayoutFile(t: Tree): (r: Written)
    ensures LAYOUT !in t ==> r == Written(t, true)
    ensures LAYOUT in t && t[LAYOUT] == Dir ==> !r.ok
    ensures LAYOUT in t && t[LAYOUT].File? ==> r == Written(t[LAYOUT := File(InjectRestriction(t[LAYOUT].content))], true)
    ensures IsTree(t) ==> IsTree(r.tree)
  {
    if LAYOUT !in t then Written(t, true)
    else match t[LAYOUT]
      case Dir => Written(t, false)
      case File(c) =>
        if Contains(c, MARKER) then Written(t, true)
        else
          assert IsTree(t) ==> IsTree(t[LAYOUT := File(InjectRestriction(c))]) by {
            if IsTree(t) {
              assert t[Parent(LAYOUT)] == Dir;
              SetFileIsTree(t, LAYOUT, InjectRestriction(c));
            }
          }
          Written(t[LAYOUT := File(InjectRestriction(c))], true)
  }

  /** The four paths the customisation stage writes. */
  predicate Customized(p: Path) {
    p == ENV || p == ENV_PRODUCTION || p == INDEX_HTML || p == LAYOUT
  }

  /** index.html is rewritten, then Layout1.tsx gets the restriction; a directory in place of either throws. */
  function RewritePages(t: Tree, name: string): (r: Written)
    ensures IsTree(t) ==> IsTree(r.tree)
    ensures forall p :: p in t && p != INDEX_HTML && p != LAYOUT ==> p in r.tree && r.tree[p] == t[p]
    ensures forall p :: p in r.tree ==> p in t
    ensures r.ok && INDEX_HTML in t && t[INDEX_HTML].File? ==>
      INDEX_HTML in r.tree && r.tree[INDEX_HTML] == File(RewriteIndexHtml(t[INDEX_HTML].content, name))
    ensures r.ok && LAYOUT in t && t[LAYOUT].File? ==>
      LAYOUT in r.tree && r.tree[LAYOUT] == File(InjectRestriction(t[LAYOUT].content))
    ensures INDEX_HTML in t && t[INDEX_HTML] == Dir ==> !r.ok
    ensures LAYOUT in t && t[LAYOUT] == Dir ==> !r.ok
  {
    assert INDEX_HTML != LAYOUT;
    var h := RewriteIndexFile(t, name);
    if !h.ok then h else InjectLayoutFile(h.tree)
  }

  /** `.env` from the answers, then `.env.production` from the sector. */
  function WriteEnvFiles(t: Tree, a: Answers): (r: Written)
    ensures IsTree(t) ==> IsTree(r.tree)
    ensures forall p :: p in t && p != ENV && p != ENV_PRODUCTION ==> p in r.tree && r.tree[p] == t[p]
    ensures forall p :: p in r.tree ==> p in t || p == ENV || p == ENV_PRODUCTION
    ensures r.ok ==> ENV in r.tree && r.tree[ENV] == File(LocalEnv(a))
    ensures r.ok ==> ENV_PRODUCTION in r.tree && r.tree[ENV_PRODUCTION] == File(ProductionEnv(a.sector))
  {
    match WriteFile(t, ENV, LocalEnv(a))
    case None => Written(t, false)
    case Some(t1) =>
      match WriteFile(t1, ENV_PRODUCTION, ProductionEnv(a.sector))
      case None => Written(t1, false)
      case Some(t2) => assert ENV != ENV_PRODUCTION; Written(t2, true)
  }

  /** The env files are written in full, then index.html and Layout1.tsx are rewritten in place. */
  function Customize(t: Tree, req: Request): (r: Written)
    ensures IsTree(t) ==> IsTree(r.tree)
    ensures forall p :: p in t && !Customized(p) ==> p in r.tree && r.tree[p] == t[p]
    ensures forall p :: p in r.tree ==> p in t || p == ENV || p == ENV_PRODUCTION
    ensures r.ok ==> ENV in r.tree && r.tree[ENV] == File(LocalEnv(req.answers))
    ensures r.ok ==> ENV_PRODUCTION in r.tree && r.tree[ENV_PRODUCTION] == File(ProductionEnv(req.answers.sector))
    ensures r.ok && INDEX_HTML in t && t[INDEX_HTML].File? ==>
      INDEX_HTML in r.tree && r.tree[INDEX_HTML] == File(RewriteIndexHtml(t[INDEX_HTML].content, req.projectName))
    ensures r.ok && LAYOUT in t && t[LAYOUT].File? ==>
      LAYOUT in r.tree && r.tree[LAYOUT] == File(InjectRestriction(t[LAYOUT].content))
    ensures INDEX_HTML in t && t[INDEX_HTML] == Dir ==> !r.ok
    ensures LAYOUT in t && t[LAYOUT] == Dir ==> !r.ok
  {
    var e := WriteEnvFiles(t, req.answers);
    if !e.ok then e
    else
      assert ENV != INDEX_HTML && ENV != LAYOUT && ENV_PRODUCTION != INDEX_HTML && ENV_PRODUCTION != LAYOUT;
      RewritePages(e.tree, req.projectName)
  }

  /** The root-level names readdirSync lists that end in ".md". */
  function MarkdownNames(t: Tree): (r: set<string>)
    ensures forall n :: n in r <==> [n] in t && EndsWith(n, ".md")
  {
    var r := set p | p in t && |p| == 1 && EndsWith(p[0], ".md") :: p[0];
    forall n | n in r ensures [n] in t && EndsWith(n, ".md") {
      var p :| p in t && |p| == 1 && EndsWith(p[0], ".md") && p[0] == n;
      assert p == [n];
    }
    assert forall n :: [n] in t && EndsWith(n, ".md") ==> n in r by {
      forall n | [n] in t && EndsWith(n, ".md") ensures n in r {
        assert [n][0] == n;
      }
    }
    r
  }

  lemma FixedNames()
    ensures !EndsWith(DIST_ZIP[0], ".md") && EndsWith(README[0], ".md") && README != DIST_ZIP
  {
    assert DIST_ZIP[0][|DIST_ZIP[0]| - 1] == 'p';
  }

  /** `mdFiles.forEach(removeSync)`: every root-level ".md" entry goes, with everything below it; nothing else changes. */
  function RemoveMarkdown(t: Tree): (r: Tree)
    ensures forall q :: q in r ==> q in t && r[q] == t[q]
    ensures forall q :: q in t && q != [] && !EndsWith(q[0], ".md") ==> q in r
    ensures forall n :: [n] in r ==> !EndsWith(n, ".md")
    ensures IsTree(t) ==> IsTree(r)
  {
    var r := RemoveRootEntries(t, MarkdownNames(t));
    assert forall n :: [n] in r ==> !EndsWith(n, ".md") by {
      forall n | [n] in r ensures !EndsWith(n, ".md") {
        assert [n][0] == n;
      }
    }
    r
  }

  /** dist-zip is created, every root-level ".md" entry is removed, and README.md is written with `readme`. */
  function Finish(t: Tree, readme: string): (r: Written)
    ensures IsTree(t) ==> IsTree(r.tree)
    ensures r.ok ==> README in r.tree && r.tree[README] == File(readme)
    ensures r.ok ==> DIST_ZIP in r.tree && r.tree[DIST_ZIP] == Dir
  {
    match EnsureDir(t, DIST_ZIP)
    case None => Written(t, false)
    case Some(t1) =>
      var t2 := RemoveMarkdown(t1);
      FixedNames();
      match WriteFile(t2, README, readme)
      case None => Written(t2, false)
      case Some(t3) => Written(t3, true)
  }

  /** The README.md the action generates for the request. */
  function ReadmeFor(req: Request): (r: string)
    ensures StartsWith(r, "# " + req.projectName + "\n")
  {
    ReadmeText(req.projectName, Name(req.manager))
  }

  /** After a complete cleanup the only root-level ".md" entry is the generated README.md. */
  lemma FinishLeavesOnlyReadme(t: Tree, readme: string)
    requires Finish(t, readme).ok
    ensures forall n :: [n] in Finish(t, readme).tree && EndsWith(n, ".md") ==> [n] == README
  {
    var t2 := RemoveMarkdown(EnsureDir(t, DIST_ZIP).value);
    assert Finish(t, readme).tree == t2[README := File(readme)];
  }

  /** Cleanup touches only the root level: everything below a root entry whose name does not end in ".md" is kept as it was. */
  lemma FinishKeepsNested(t: Tree, readme: string)
    ensures forall p :: p in t && p != [] && !EndsWith(p[0], ".md") ==> p in Finish(t, readme).tree && Finish(t, readme).tree[p] == t[p]
  {
    FixedNames();
    if EnsureDir(t, DIST_ZIP).Some? {
      var t2 := RemoveMarkdown(EnsureDir(t, DIST_ZIP).value);
      var r := Finish(t, readme).tree;
      assert r == t2 || r == t2[README := File(readme)];
      forall p | p in t && p != [] && !EndsWith(p[0], ".md") ensures p in r && r[p] == t[p] {
        assert p != README;
      }
    }
  }

  /** What follows a successful clone: copy, overlay, scratch removal, customisation and cleanup. */
  function FromClone(t1: Tree, tmpl: Template, req: Request, readme: string): (r: Stages)
    requires IsTree(t1) && IsTree(tmpl.tree) && NoKindClash(t1, tmpl.tree)
    ensures IsTree(r.files)
    ensures r.warnings == if ZIP in tmpl.tree then [] else [ArchiveMissing]
    ensures r.outcome == Created || r.outcome == Crashed
  {
    MergeIsTree(t1, tmpl.tree);
    var t2 := Merge(t1, tmpl.tree);
    var warned := if ZIP in tmpl.tree then [] else [ArchiveMissing];
    var x := Overlay(t2, tmpl);
    if !x.ok then Stages(Crashed, warned, x.tree, true)
    else
      var c := Customize(x.tree, req);
      if !c.ok then Stages(Crashed, warned, c.tree, false)
      else
        var f := Finish(c.tree, readme);
        Stages(if f.ok then Created else Crashed, warned, f.tree, false)
  }

  /**
   * The project directory right after ensureDirSync and `git init` run in
   * it, as the action evidently intends: the directory and its `.git`.
   */
  const FRESH: Tree := map[[] := Dir, GIT := Dir]

  /** What the init step leaves: the project directory, and the remotes of the launch directory's repository. */
  datatype Launched = Launched(project: Tree, launchRemotes: seq<Remote>)

  /**
   * ensureDirSync, `git init` and the remote step as index.mjs writes them.
   * The git handle is created when the module loads, so its working
   * directory is the one the CLI was launched from, and `shell.cd` does not
   * move it: `git init` and the remote calls act on the launch directory's
   * repository, and the project directory stays as ensureDirSync made it.
   */
  function InitAsWritten(files: Tree, launchRemotes: seq<Remote>, url: string, originAdded: bool): (r: Launched)
    requires IsTree(files) && [] !in files
    ensures r.project == map[[] := Dir] && GIT !in r.project
    ensures r.launchRemotes == ConfigureOrigin(launchRemotes, url, originAdded)
  {
    InitSucceeds(files);
    Launched(EnsureDir(files, []).value, ConfigureOrigin(launchRemotes, url, originAdded))
  }

  /**
   * As written, the project never gets a repository: `git init` runs
   * elsewhere and the copy filters out the template's `.git`. As intended,
   * the project has its `.git` from the start and keeps it through the copy.
   */
  lemma ProjectGitAsWritten(files: Tree, launchRemotes: seq<Remote>, url: string, originAdded: bool, src: Tree)
    requires IsTree(files) && [] !in files
    ensures GIT !in Merge(InitAsWritten(files, launchRemotes, url, originAdded).project, src)
    ensures GIT in Merge(FRESH, src)
  {
    GitExcluded();
  }

  /** As written, the origin of whatever repository the CLI was launched in is replaced by the URL typed for the new project. */
  lemma LaunchOriginReplaced(files: Tree, url: string)
    requires IsTree(files) && [] !in files
    ensures InitAsWritten(files, [Remote(ORIGIN, "git@example.com:other.git")], url, true).launchRemotes == [Remote(ORIGIN, url)]
  {
    var launch := [Remote(ORIGIN, "git@example.com:other.git")];
    assert WithoutRemote(launch, ORIGIN) == [] by {
      assert launch[1..] == [];
    }
  }

  /** The warning the remote step leaves. */
  function RemoteWarnings(originAdded: bool): (r: seq<Warning>)
    ensures RemoteNotAdded in r <==> !originAdded
  {
    if originAdded then [] else [RemoteNotAdded]
  }

  /** The file-system part of the action once the repository is initialised: the clone either failed, leaving `temp`, or the stages run. */
  function AfterInit(t1: Tree, clone: Option<Template>, req: Request, readme: string): (r: Stages)
    requires IsTree(t1) && (clone.Some? ==> IsTree(clone.value.tree) && NoKindClash(t1, clone.value.tree))
    ensures IsTree(r.files)
    ensures RemoteNotAdded !in r.warnings
    ensures r.outcome != DestinationExists
    ensures clone.None? <==> r.outcome == CloneFailed
  {
    match clone
    case None => Stages(CloneFailed, [], t1, true)
    case Some(tmpl) => FromClone(t1, tmpl, req, readme)
  }

  /**
   * The whole action. `readme` is the README.md text the cleanup writes;
   * the action itself renders it with `ReadmeFor` (see `Workspace.Project.Create`).
   */
  function CreateResult(w: World, req: Request, clone: Option<Template>, originAdded: bool, readme: string): (r: Run)
    requires WellFormedWorld(w, clone)
    ensures IsTree(r.world.files)
  {
    if [] in w.files then Run(DestinationExists, [], w)
    else
      InitSucceeds(w.files);
      match EnsureDir(w.files, [])
      case None => assert false; Run(Crashed, [], w)
      case Some(t0) =>
        match EnsureDir(t0, GIT)
        case None => assert false; Run(Crashed, [], w)
        case Some(t1) =>
          var remotes := ConfigureOrigin(w.remotes, req.answers.repo, originAdded);
          KindsAgreeAfterInit(if clone.Some? then clone.value.tree else FRESH);
          var s := AfterInit(t1, clone, req, readme);
          Run(s.outcome, RemoteWarnings(originAdded) + s.warnings, World(s.files, remotes, s.scratch))
  }

  /** On a project directory that does not exist yet, ensureDirSync and `git init` cannot fail. */
  lemma InitSucceeds(files: Tree)
    requires IsTree(files) && [] !in files
    ensures EnsureDir(files, []) == Some(map[[] := Dir])
    ensures EnsureDir(map[[] := Dir], GIT) == Some(FRESH)
  {
    RootlessTreeIsEmpty(files);
    assert !FileOnPath(files, [], 0);
    var t0 := EnsureDir(files, []).value;
    assert forall q :: q in t0 <==> q == [];
    assert t0 == map[[] := Dir];
    assert GIT[..0] == [] && GIT[..1] == GIT;
    assert !FileOnPath(t0, GIT, 1) by {
      forall k | 0 <= k <= 1 ensures !(GIT[..k] in t0 && t0[GIT[..k]].File?) {
        if k == 1 {
          assert GIT[..k] == GIT;
        }
      }
    }
    var t1 := EnsureDir(t0, GIT).value;
    forall q | q in t1 ensures q == [] || q == GIT {
      if q !in t0 {
        assert q == GIT[..|q|];
      }
    }
    assert t1 == FRESH;
  }

  /** The fresh repository is a tree of two directories: the project and `.git`. */
  lemma FreshEntries()
    ensures forall p :: p in FRESH ==> (p == [] || p == GIT) && FRESH[p] == Dir
    ensures IsTree(FRESH)
  {
    assert Parent(GIT) == [];
  }

  /** A fresh project directory holds only itself and `.git`, so the copy cannot meet a file where it brings a directory. */
  lemma KindsAgreeAfterInit(src: Tree)
    requires IsTree(src)
    ensures IsTree(FRESH) && NoKindClash(FRESH, src)
  {
    GitExcluded();
    FreshEntries();
    forall p | p in src && p in FRESH && !Excluded(p) ensures src[p] == Dir {
      assert p == [];
    }
  }

  /** Copying the template into the fresh repository brings every path the filter lets through. */
  lemma CopyIntoFresh(src: Tree, p: Path)
    requires p in src && !Excluded(p) && p != []
    ensures p in Merge(FRESH, src) && Merge(FRESH, src)[p] == src[p]
  {
    GitExcluded();
    assert p !in FRESH;
  }

  /** `.git` itself is filtered out of the copy. */
  lemma GitExcluded()
    ensures Excluded(GIT)
  {
    assert RelativePath(GIT) == ".git";
    assert StartsWith(".git", ".git");
  }

  /** An existing project directory stops the action before anything changes. */
  lemma DestinationExistsUntouched(w: World, req: Request, clone: Option<Template>, originAdded: bool, readme: string)
    requires WellFormedWorld(w, clone) && [] in w.files
    ensures CreateResult(w, req, clone, originAdded, readme) == Run(DestinationExists, [], w)
  {
  }

  /** Past the existence check the repository is initialised, the remote step runs, and the file-system part continues from the fresh repository. */
  lemma InitContinues(w: World, req: Request, clone: Option<Template>, originAdded: bool, readme: string)
    requires WellFormedWorld(w, clone) && [] !in w.files
    ensures IsTree(FRESH) && (clone.Some? ==> NoKindClash(FRESH, clone.value.tree))
    ensures var s := AfterInit(FRESH, clone, req, readme);
      CreateResult(w, req, clone, originAdded, readme)
      == Run(s.outcome, RemoteWarnings(originAdded) + s.warnings, World(s.files, ConfigureOrigin(w.remotes, req.answers.repo, originAdded), s.scratch))
  {
    InitSucceeds(w.files);
    KindsAgreeAfterInit(if clone.Some? then clone.value.tree else FRESH);
  }

  /** When the clone fails, the project holds only its directory and `.git`, the remote step has run, and `temp` is left behind. */
  lemma CloneFailureStops(w: World, req: Request, originAdded: bool, readme: string)
    requires WellFormedWorld(w, None) && [] !in w.files
    ensures CreateResult(w, req, None, originAdded, readme)
         == Run(CloneFailed, RemoteWarnings(originAdded), World(FRESH, ConfigureOrigin(w.remotes, req.answers.repo, originAdded), true))
  {
    InitContinues(w, req, None, originAdded, readme);
    assert RemoteWarnings(originAdded) + [] == RemoteWarnings(originAdded);
  }

  /** Past the existence check, origin is configured exactly once with the typed URL, or is missing with a warning. */
  lemma RemoteStepResult(w: World, req: Request, clone: Option<Template>, originAdded: bool, readme: string)
    requires WellFormedWorld(w, clone) && [] !in w.files
    ensures CreateResult(w, req, clone, originAdded, readme).world.remotes == ConfigureOrigin(w.remotes, req.answers.repo, originAdded)
    ensures CountNamed(CreateResult(w, req, clone, originAdded, readme).world.remotes, ORIGIN) == if originAdded then 1 else 0
    ensures originAdded ==> Remote(ORIGIN, req.answers.repo) in CreateResult(w, req, clone, originAdded, readme).world.remotes
    ensures RemoteNotAdded in CreateResult(w, req, clone, originAdded, readme).warnings <==> !originAdded
  {
    InitContinues(w, req, clone, originAdded, readme);
    OriginCount(w.remotes, req.answers.repo, originAdded);
  }

  /** A run that got as far as the end: every stage succeeded, and the tree is what cleanup left. */
  lemma FromCloneCreated(t1: Tree, tmpl: Template, req: Request, readme: string)
    requires IsTree(t1) && IsTree(tmpl.tree) && NoKindClash(t1, tmpl.tree)
    requires FromClone(t1, tmpl, req, readme).outcome == Created
    ensures Overlay(Merge(t1, tmpl.tree), tmpl).ok
    ensures Customize(Overlay(Merge(t1, tmpl.tree), tmpl).tree, req).ok
    ensures Finish(Customize(Overlay(Merge(t1, tmpl.tree), tmpl).tree, req).tree, readme).ok
    ensures FromClone(t1, tmpl, req, readme).files == Finish(Customize(Overlay(Merge(t1, tmpl.tree), tmpl).tree, req).tree, readme).tree
    ensures !FromClone(t1, tmpl, req, readme).scratch
  {
  }

  /** Only a run that found no project directory and cloned the template can create the project. */
  lemma CreatedNeedsClone(w: World, req: Request, clone: Option<Template>, originAdded: bool, readme: string)
    requires WellFormedWorld(w, clone)
    requires CreateResult(w, req, clone, originAdded, readme).outcome == Created
    ensures [] !in w.files && clone.Some?
  {
    if [] !in w.files && clone.None? {
      CloneFailureStops(w, req, originAdded, readme);
    }
  }

  /** ".env" and ".env.production" do not end in ".md", so cleanup keeps them. */
  lemma EnvNamesAreNotMarkdown()
    ensures !EndsWith(ENV[0], ".md") && !EndsWith(ENV_PRODUCTION[0], ".md")
  {
    assert ENV[0][|ENV[0]| - 1] == 'v';
    assert ENV_PRODUCTION[0][|ENV_PRODUCTION[0]| - 1] == 'n';
  }

  /** "index.html" and "src" do not end in ".md", so cleanup keeps index.html and Layout1.tsx. */
  lemma PageNamesAreNotMarkdown()
    ensures !EndsWith(INDEX_HTML[0], ".md") && !EndsWith(LAYOUT[0], ".md")
  {
    assert INDEX_HTML[0][|INDEX_HTML[0]| - 1] == 'l';
    assert LAYOUT[0][|LAYOUT[0]| - 1] == 'c';
  }

  /**
   * A created project carries the two env files rendered from the answers,
   * the generated README.md as its only root-level ".md" entry, a dist-zip
   * directory, and no scratch clone. The index.html and Layout1.tsx that the
   * copy and the overlay brought in are files, and the project holds them
   * rewritten with the project name and with the restriction injected.
   */
  lemma CreatedProject(w: World, req: Request, clone: Option<Template>, originAdded: bool, readme: string)
    requires WellFormedWorld(w, clone)
    requires CreateResult(w, req, clone, originAdded, readme).outcome == Created
    ensures var files := CreateResult(w, req, clone, originAdded, readme).world.files;
      && ENV in files && files[ENV] == File(LocalEnv(req.answers))
      && ENV_PRODUCTION in files && files[ENV_PRODUCTION] == File(ProductionEnv(req.answers.sector))
      && README in files && files[README] == File(readme)
      && DIST_ZIP in files && files[DIST_ZIP] == Dir
      && (forall n :: [n] in files && EndsWith(n, ".md") ==> [n] == README)
    ensures !CreateResult(w, req, clone, originAdded, readme).world.scratch
    ensures clone.Some?
    ensures var x := Overlay(Merge(FRESH, clone.value.tree), clone.value).tree;
      var files := CreateResult(w, req, clone, originAdded, readme).world.files;
      && (INDEX_HTML in x ==>
            x[INDEX_HTML].File? && INDEX_HTML in files
            && files[INDEX_HTML] == File(RewriteIndexHtml(x[INDEX_HTML].content, req.projectName)))
      && (LAYOUT in x ==>
            x[LAYOUT].File? && LAYOUT in files
            && files[LAYOUT] == File(InjectRestriction(x[LAYOUT].content)))
  {
    CreatedNeedsClone(w, req, clone, originAdded, readme);
    var tmpl := clone.value;
    InitContinues(w, req, clone, originAdded, readme);
    FromCloneCreated(FRESH, tmpl, req, readme);
    var c := Customize(Overlay(Merge(FRESH, tmpl.tree), tmpl).tree, req);
    EnvNamesAreNotMarkdown();
    PageNamesAreNotMarkdown();
    FinishKeepsNested(c.tree, readme);
    FinishLeavesOnlyReadme(c.tree, readme);
  }

  /**
   * With the README.md text the action renders for the request, a created
   * project's README.md is titled with the project name and names the
   * commands that start the dev server and build the project.
   */
  lemma CreatedReadme(w: World, req: Request, clone: Option<Template>, originAdded: bool)
    requires WellFormedWorld(w, clone)
    requires CreateResult(w, req, clone, originAdded, ReadmeFor(req)).outcome == Created
    ensures var files := CreateResult(w, req, clone, originAdded, ReadmeFor(req)).world.files;
      && README in files && files[README].File?
      && StartsWith(files[README].content, "# " + req.projectName + "\n")
      && Contains(files[README].content, Name(req.manager) + " run dev")
      && Contains(files[README].content, Name(req.manager) + " run build")
  {
    CreatedProject(w, req, clone, originAdded, ReadmeFor(req));
    ReadmeMentions(req.projectName, Name(req.manager));
  }

  /**
   * Merge, then overlay: a file entry of the archive that no later entry
   * names ends up in the project with the archive's bytes, whatever the
   * template held there, unless a later stage writes that path.
   */
  lemma ArchiveOverridesTemplate(w: World, req: Request, tmpl: Template, originAdded: bool, k: nat, readme: string)
    requires WellFormedWorld(w, Some(tmpl))
    requires CreateResult(w, req, Some(tmpl), originAdded, readme).outcome == Created
    requires ZIP in tmpl.tree && tmpl.tree[ZIP].File?
    requires k < |tmpl.archive| && !tmpl.archive[k].isDirectory
    requires forall m :: k < m < |tmpl.archive| ==> tmpl.archive[m].name != tmpl.archive[k].name
    requires !Customized(tmpl.archive[k].name)
    requires tmpl.archive[k].name != [] && !EndsWith(tmpl.archive[k].name[0], ".md")
    ensures tmpl.archive[k].name in CreateResult(w, req, Some(tmpl), originAdded, readme).world.files
    ensures CreateResult(w, req, Some(tmpl), originAdded, readme).world.files[tmpl.archive[k].name] == File(tmpl.archive[k].data)
  {
    CreatedNeedsClone(w, req, Some(tmpl), originAdded, readme);
    InitContinues(w, req, Some(tmpl), originAdded, readme);
    FromCloneCreated(FRESH, tmpl, req, readme);
    var t2 := Merge(FRESH, tmpl.tree);
    LastFileEntryWins(t2, tmpl.archive, k);
    FinishKeepsNested(Customize(Overlay(t2, tmpl).tree, req).tree, readme);
  }

  /**
   * A template path the copy filter lets through, that no archive entry names
   * and no later stage writes, reaches the project with the template's content.
   */
  lemma TemplateFilesKept(w: World, req: Request, tmpl: Template, originAdded: bool, p: Path, readme: string)
    requires WellFormedWorld(w, Some(tmpl))
    requires CreateResult(w, req, Some(tmpl), originAdded, readme).outcome == Created
    requires p in tmpl.tree && !Excluded(p) && p != []
    requires forall m :: 0 <= m < |tmpl.archive| ==> tmpl.archive[m].name != p
    requires !Customized(p) && !EndsWith(p[0], ".md")
    ensures p in CreateResult(w, req, Some(tmpl), originAdded, readme).world.files
    ensures CreateResult(w, req, Some(tmpl), originAdded, readme).world.files[p] == tmpl.tree[p]
  {
    CreatedNeedsClone(w, req, Some(tmpl), originAdded, readme);
    InitContinues(w, req, Some(tmpl), originAdded, readme);
    FromCloneCreated(FRESH, tmpl, req, readme);
    CopyIntoFresh(tmpl.tree, p);
    StagesKeep(Merge(FRESH, tmpl.tree), tmpl, req, p, readme);
  }

  /** A path the archive does not name, no customisation writes and cleanup spares passes the three later stages unchanged. */
  lemma StagesKeep(t: Tree, tmpl: Template, req: Request, p: Path, readme: string)
    requires Overlay(t, tmpl).ok && Customize(Overlay(t, tmpl).tree, req).ok
    requires p in t && p != [] && !Customized(p) && !EndsWith(p[0], ".md")
    requires forall m :: 0 <= m < |tmpl.archive| ==> tmpl.archive[m].name != p
    ensures var f := Finish(Customize(Overlay(t, tmpl).tree, req).tree, readme).tree;
      p in f && f[p] == t[p]
  {
    var x := Overlay(t, tmpl).tree;
    assert p in x && x[p] == t[p];
    var c := Customize(x, req).tree;
    assert p in c && c[p] == t[p];
    FinishKeepsNested(c, readme);
  }
}
