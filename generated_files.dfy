/**
 * Files the `create` action writes in full: `.env`, `.env.production` and the
 * summary README.md. Each is a fixed template in which only the user's answers
 * vary. `ParseEnv` reads an environment file back by splitting it into lines
 * and each line at its first `=`, with no quoting, comments, `export` or
 * trimming; it serves as the independent account of what the files say.
 */
module GeneratedFiles {
  import opened Wrappers
  import opened Text

  /** The answers collected by the prompts, passed in as they were typed. */
  datatype Answers = Answers(repo: string, sector: string, apiUrl: string, appEnv: string)

  type EnvEntry = (string, string)

  // The keys both environment files define.
  const APP_ENV: string := "APP_ENV"
  const ISI_BASE_URL: string := "ISI_BASE_URL"
  const ISI_API_URL: string := "ISI_API_URL"
  const ISI_DOCUMENTO_SECTOR: string := "ISI_DOCUMENTO_SECTOR"
  const ISI_CAPTCHA_KEY: string := "ISI_CAPTCHA_KEY"
  const ISI_ASSETS_URL: string := "ISI_ASSETS_URL"
  const ISI_FONDO: string := "ISI_FONDO"
  const ISI_LOGO_FULL: string := "ISI_LOGO_FULL"
  const ISI_LOGO_MINI: string := "ISI_LOGO_MINI"
  const ISI_NOMBRE_COMERCIAL: string := "ISI_NOMBRE_COMERCIAL"
  const ISI_URL: string := "ISI_URL"
  const ISI_FAVICON: string := "ISI_FAVICON"
  const ISI_THEME: string := "ISI_THEME"

  // Values common to both files.
  const CAPTCHA_KEY: string := "0x4AAAAAAAIR3qJWMFMaFVXX"
  const COMMERCIAL_NAME: string := "ISI.INVOICE"
  const COMPANY_URL: string := "https://integrate.com.bo"

  // Fixed values of `.env`.
  const LOCAL_BASE_URL: string := "http://localhost:3002"
  const LOCAL_ASSETS: string := "/assets/images/integrate"
  const LOCAL_FONDO: string := "/assets/images/integrate/fondo-login.jpg"
  const LOCAL_LOGO_FULL: string := "/assets/images/integrate/logo.png"
  const LOCAL_LOGO_MINI: string := "/assets/images/integrate/logo-mini.png"
  const LOCAL_FAVICON: string := "/assets/images/integrate/favicon.ico"
  const LOCAL_THEME: string := "blue"

  // Fixed values of `.env.production`.
  const PRODUCTION: string := "production"
  const PRODUCTION_BASE_URL: string := "dev.adm.isipass.com.bo"
  const PRODUCTION_API_URL: string := "https://sandbox.isipass.net/api"
  const PRODUCTION_ASSETS: string := "/assets/integrate"
  const PRODUCTION_FONDO: string := "/assets/integrate/fondo-login.jpg"
  const PRODUCTION_LOGO_FULL: string := "/assets/integrate/logo.png"
  const PRODUCTION_LOGO_MINI: string := "/assets/integrate/logo-mini.png"
  const PRODUCTION_FAVICON: string := "/assets/integrate/favicon.ico"
  const PRODUCTION_THEME: string := "blue1"

  /** `.env`: the local key list, with the three answered values. */
  function LocalEnvEntries(a: Answers): (r: seq<EnvEntry>)
    ensures |r| == 13
    ensures Lookup(r, APP_ENV) == Some(a.appEnv)
    ensures Lookup(r, ISI_API_URL) == Some(a.apiUrl)
    ensures Lookup(r, ISI_DOCUMENTO_SECTOR) == Some(a.sector)
    ensures Lookup(r, ISI_THEME) == Some(LOCAL_THEME)
  {
    var r :=
    [ (APP_ENV, a.appEnv),
      (ISI_BASE_URL, LOCAL_BASE_URL),
      (ISI_API_URL, a.apiUrl),
      (ISI_DOCUMENTO_SECTOR, a.sector),
      (ISI_CAPTCHA_KEY, CAPTCHA_KEY),
      (ISI_ASSETS_URL, LOCAL_ASSETS),
      (ISI_FONDO, LOCAL_FONDO),
      (ISI_LOGO_FULL, LOCAL_LOGO_FULL),
      (ISI_LOGO_MINI, LOCAL_LOGO_MINI),
      (ISI_NOMBRE_COMERCIAL, COMMERCIAL_NAME),
      (ISI_URL, COMPANY_URL),
      (ISI_FAVICON, LOCAL_FAVICON),
      (ISI_THEME, LOCAL_THEME) ];
    LookupAt(r, APP_ENV, 0);
    LookupAt(r, ISI_API_URL, 2);
    LookupAt(r, ISI_DOCUMENTO_SECTOR, 3);
    LookupAt(r, ISI_THEME, 12);
    r
  }

  /** `.env.production`: fixed production values; only the sector comes from the answers. */
  function ProductionEnvEntries(sector: string): (r: seq<EnvEntry>)
    ensures |r| == 13
    ensures Lookup(r, APP_ENV) == Some(PRODUCTION)
    ensures Lookup(r, ISI_API_URL) == Some(PRODUCTION_API_URL)
    ensures Lookup(r, ISI_DOCUMENTO_SECTOR) == Some(sector)
    ensures Lookup(r, ISI_THEME) == Some(PRODUCTION_THEME)
  {
    var r :=
    [ (APP_ENV, PRODUCTION),
      (ISI_BASE_URL, PRODUCTION_BASE_URL),
      (ISI_API_URL, PRODUCTION_API_URL),
      (ISI_ASSETS_URL, PRODUCTION_ASSETS),
      (ISI_FONDO, PRODUCTION_FONDO),
      (ISI_LOGO_FULL, PRODUCTION_LOGO_FULL),
      (ISI_LOGO_MINI, PRODUCTION_LOGO_MINI),
      (ISI_NOMBRE_COMERCIAL, COMMERCIAL_NAME),
      (ISI_URL, COMPANY_URL),
      (ISI_FAVICON, PRODUCTION_FAVICON),
      (ISI_THEME, PRODUCTION_THEME),
      (ISI_DOCUMENTO_SECTOR, sector),
      (ISI_CAPTCHA_KEY, CAPTCHA_KEY) ];
    LookupAt(r, APP_ENV, 0);
    LookupAt(r, ISI_API_URL, 2);
    LookupAt(r, ISI_DOCUMENTO_SECTOR, 11);
    LookupAt(r, ISI_THEME, 10);
    r
  }

  /** One `KEY=value` line per entry, each ending in a newline: the text opens with the first key and ends with a newline. */
  function EnvText(entries: seq<EnvEntry>): (r: string)
    ensures r == [] <==> entries == []
    ensures entries != [] ==> StartsWith(r, entries[0].0 + "=") && r[|r| - 1] == '\n'
  {
    if entries == [] then ""
    else
      LineOpensText(entries[0].0, entries[0].1, EnvText(entries[1..]));
      entries[0].0 + "=" + entries[0].1 + "\n" + EnvText(entries[1..])
  }

  /** A line `key=value` followed by more text opens that text with `key=`. */
  lemma LineOpensText(key: string, value: string, rest: string)
    ensures StartsWith(key + "=" + value + "\n" + rest, key + "=")
  {
    assert (key + "=" + value + "\n" + rest)[..|key| + 1] == key + "=";
  }

  /** The text of `.env`; with single-line answers it reads back as its key list. */
  function LocalEnv(a: Answers): (r: string)
    ensures SingleLine(a.appEnv) && SingleLine(a.apiUrl) && SingleLine(a.sector) ==> ParseEnv(r) == LocalEnvEntries(a)
    ensures StartsWith(r, APP_ENV + "=") && r[|r| - 1] == '\n'
  {
    assert SingleLine(a.appEnv) && SingleLine(a.apiUrl) && SingleLine(a.sector) ==> ParseEnv(EnvText(LocalEnvEntries(a))) == LocalEnvEntries(a) by {
      if SingleLine(a.appEnv) && SingleLine(a.apiUrl) && SingleLine(a.sector) {
        LocalEntriesWritable(a);
        ParseEnvText(LocalEnvEntries(a));
      }
    }
    EnvText(LocalEnvEntries(a))
  }

  /** The text of `.env.production`; with a single-line sector it reads back as its key list. */
  function ProductionEnv(sector: string): (r: string)
    ensures SingleLine(sector) ==> ParseEnv(r) == ProductionEnvEntries(sector)
    ensures StartsWith(r, APP_ENV + "=") && r[|r| - 1] == '\n'
  {
    assert SingleLine(sector) ==> ParseEnv(EnvText(ProductionEnvEntries(sector))) == ProductionEnvEntries(sector) by {
      if SingleLine(sector) {
        ProductionEntriesWritable(sector);
        ParseEnvText(ProductionEnvEntries(sector));
      }
    }
    EnvText(ProductionEnvEntries(sector))
  }

  /** A line split at its first `=`. */
  function SplitAssignment(line: string): (e: EnvEntry)
    ensures '=' !in e.0
  {
    var k := IndexOf(line, '=');
    (line[..k], if k < |line| then line[k + 1..] else "")
  }

  /** The entries of an environment file, line by line. */
  function ParseEnv(s: string): (r: seq<EnvEntry>)
    decreases |s|
  {
    if s == [] then []
    else
      var n := IndexOf(s, '\n');
      [SplitAssignment(s[..n])] + ParseEnv(if n < |s| then s[n + 1..] else [])
  }

  /** The first value given to `key`. */
  function Lookup(entries: seq<EnvEntry>, key: string): (r: Option<string>) {
    if entries == [] then None
    else if entries[0].0 == key then Some(entries[0].1)
    else Lookup(entries[1..], key)
  }

  predicate SingleLine(s: string) {
    '\n' !in s
  }

  /** A key an env line of the generated files can carry: no `=` and no newline. */
  predicate KeyLike(k: string) {
    '=' !in k && SingleLine(k)
  }

  /** Entries that survive a write and a read: keys without `=` or newlines, values without newlines. */
  predicate Writable(entries: seq<EnvEntry>) {
    forall e :: e in entries ==> KeyLike(e.0) && SingleLine(e.1)
  }

  /** Writing entries and reading the file back gives the same entries. */
  lemma {:induction false} ParseEnvText(entries: seq<EnvEntry>)
    requires Writable(entries)
    ensures ParseEnv(EnvText(entries)) == entries
  {
    if entries != [] {
      var (k, v) := entries[0];
      ParseEnvLine(k + "=" + v, EnvText(entries[1..]));
      SplitLine(k, v);
      ParseEnvText(entries[1..]);
      assert entries == [entries[0]] + entries[1..];
    }
  }

  /** A single line followed by a newline is read as one entry, and the reading goes on after it. */
  lemma ParseEnvLine(line: string, rest: string)
    requires SingleLine(line)
    ensures ParseEnv(line + "\n" + rest) == [SplitAssignment(line)] + ParseEnv(rest)
  {
    var s := line + "\n" + rest;
    assert IndexOf(s, '\n') == |line| by {
      assert s[|line|] == '\n';
      forall m | 0 <= m < |line| ensures s[m] != '\n' {
        assert s[m] == line[m];
      }
    }
    assert s[..|line|] == line;
    assert s[|line| + 1..] == rest;
  }

  /** `key=value` splits back into the key and the value when the key holds no `=`. */
  lemma SplitLine(key: string, value: string)
    requires '=' !in key
    ensures SplitAssignment(key + "=" + value) == (key, value)
  {
    var line := key + "=" + value;
    assert IndexOf(line, '=') == |key| by {
      assert line[|key|] == '=';
      forall m | 0 <= m < |key| ensures line[m] != '=' {
        assert line[m] == key[m];
      }
    }
    assert line[..|key|] == key && line[|key| + 1..] == value;
  }

  /** The value of `key` is the one on its first line. */
  lemma {:induction false} LookupAt(entries: seq<EnvEntry>, key: string, n: nat)
    requires n < |entries| && entries[n].0 == key
    requires forall m :: 0 <= m < n ==> entries[m].0 != key
    ensures Lookup(entries, key) == Some(entries[n].1)
  {
    if n > 0 {
      LookupAt(entries[1..], key, n - 1);
    }
  }

  lemma KeysAreKeyLike()
    ensures KeyLike(APP_ENV) && KeyLike(ISI_BASE_URL) && KeyLike(ISI_API_URL)
  {
  }

  lemma SectorKeysAreKeyLike()
    ensures KeyLike(ISI_DOCUMENTO_SECTOR) && KeyLike(ISI_CAPTCHA_KEY) && KeyLike(ISI_ASSETS_URL)
  {
  }

  lemma MoreKeysAreKeyLike()
    ensures KeyLike(ISI_FONDO) && KeyLike(ISI_LOGO_FULL) && KeyLike(ISI_LOGO_MINI)
    ensures KeyLike(ISI_NOMBRE_COMERCIAL) && KeyLike(ISI_URL) && KeyLike(ISI_FAVICON) && KeyLike(ISI_THEME)
  {
  }

  lemma SharedValuesSingleLine()
    ensures SingleLine(CAPTCHA_KEY) && SingleLine(COMMERCIAL_NAME) && SingleLine(COMPANY_URL)
  {
  }

  lemma LocalValuesSingleLine()
    ensures SingleLine(LOCAL_BASE_URL) && SingleLine(LOCAL_ASSETS) && SingleLine(LOCAL_FONDO)
  {
  }

  lemma MoreLocalValuesSingleLine()
    ensures SingleLine(LOCAL_LOGO_FULL) && SingleLine(LOCAL_LOGO_MINI) && SingleLine(LOCAL_FAVICON) && SingleLine(LOCAL_THEME)
  {
  }

  lemma ProductionValuesSingleLine()
    ensures SingleLine(PRODUCTION) && SingleLine(PRODUCTION_BASE_URL) && SingleLine(PRODUCTION_API_URL)
    ensures SingleLine(PRODUCTION_ASSETS)
  {
  }

  lemma MoreProductionValuesSingleLine()
    ensures SingleLine(PRODUCTION_FONDO) && SingleLine(PRODUCTION_LOGO_FULL) && SingleLine(PRODUCTION_LOGO_MINI)
    ensures SingleLine(PRODUCTION_FAVICON) && SingleLine(PRODUCTION_THEME)
  {
  }

  /** Entries are writable when each of three consecutive parts of the list is. */
  lemma WritableSplit(entries: seq<EnvEntry>, j: nat, k: nat)
    requires j <= k <= |entries|
    requires Writable(entries[..j]) && Writable(entries[j..k]) && Writable(entries[k..])
    ensures Writable(entries)
  {
    forall e | e in entries ensures KeyLike(e.0) && SingleLine(e.1) {
      var n :| 0 <= n < |entries| && entries[n] == e;
      if n < j {
        assert entries[..j][n] == e;
      } else if n < k {
        assert entries[j..k][n - j] == e;
      } else {
        assert entries[k..][n - k] == e;
      }
    }
  }

  lemma LocalHeadWritable(a: Answers)
    requires SingleLine(a.appEnv) && SingleLine(a.apiUrl) && SingleLine(a.sector)
    ensures Writable(LocalEnvEntries(a)[..4])
  {
    KeysAreKeyLike();
    SectorKeysAreKeyLike();
    LocalValuesSingleLine();
  }

  lemma LocalMiddleWritable(a: Answers)
    ensures Writable(LocalEnvEntries(a)[4..8])
  {
    SectorKeysAreKeyLike();
    MoreKeysAreKeyLike();
    SharedValuesSingleLine();
    LocalValuesSingleLine();
    MoreLocalValuesSingleLine();
  }

  lemma LocalTailWritable(a: Answers)
    ensures Writable(LocalEnvEntries(a)[8..])
  {
    MoreKeysAreKeyLike();
    SharedValuesSingleLine();
    MoreLocalValuesSingleLine();
  }

  /** With single-line answers, `.env` reads back as written. */
  lemma LocalEntriesWritable(a: Answers)
    requires SingleLine(a.appEnv) && SingleLine(a.apiUrl) && SingleLine(a.sector)
    ensures Writable(LocalEnvEntries(a))
  {
    LocalHeadWritable(a);
    LocalMiddleWritable(a);
    LocalTailWritable(a);
    WritableSplit(LocalEnvEntries(a), 4, 8);
  }

  /** The answers the local file carries, read back. */
  lemma LocalEnvValues(a: Answers)
    requires SingleLine(a.appEnv) && SingleLine(a.apiUrl) && SingleLine(a.sector)
    ensures Lookup(ParseEnv(LocalEnv(a)), APP_ENV) == Some(a.appEnv)
    ensures Lookup(ParseEnv(LocalEnv(a)), ISI_API_URL) == Some(a.apiUrl)
    ensures Lookup(ParseEnv(LocalEnv(a)), ISI_DOCUMENTO_SECTOR) == Some(a.sector)
    ensures Lookup(ParseEnv(LocalEnv(a)), ISI_THEME) == Some(LOCAL_THEME)
  {
  }

  lemma ProductionHeadWritable(sector: string)
    ensures Writable(ProductionEnvEntries(sector)[..4])
  {
    KeysAreKeyLike();
    SectorKeysAreKeyLike();
    ProductionValuesSingleLine();
  }

  lemma ProductionMiddleWritable(sector: string)
    ensures Writable(ProductionEnvEntries(sector)[4..8])
  {
    MoreKeysAreKeyLike();
    SharedValuesSingleLine();
    MoreProductionValuesSingleLine();
  }

  lemma ProductionTailWritable(sector: string)
    requires SingleLine(sector)
    ensures Writable(ProductionEnvEntries(sector)[8..])
  {
    SectorKeysAreKeyLike();
    MoreKeysAreKeyLike();
    SharedValuesSingleLine();
    MoreProductionValuesSingleLine();
  }

  /** With a single-line sector, `.env.production` reads back as written. */
  lemma ProductionEntriesWritable(sector: string)
    requires SingleLine(sector)
    ensures Writable(ProductionEnvEntries(sector))
  {
    ProductionHeadWritable(sector);
    ProductionMiddleWritable(sector);
    ProductionTailWritable(sector);
    WritableSplit(ProductionEnvEntries(sector), 4, 8);
  }

  /** The production file always says production, carries the sector, and points at the fixed production API and theme. */
  lemma ProductionEnvValues(sector: string)
    requires SingleLine(sector)
    ensures Lookup(ParseEnv(ProductionEnv(sector)), APP_ENV) == Some(PRODUCTION)
    ensures Lookup(ParseEnv(ProductionEnv(sector)), ISI_API_URL) == Some(PRODUCTION_API_URL)
    ensures Lookup(ParseEnv(ProductionEnv(sector)), ISI_DOCUMENTO_SECTOR) == Some(sector)
    ensures Lookup(ParseEnv(ProductionEnv(sector)), ISI_THEME) == Some(PRODUCTION_THEME)
  {
  }

  const ANSWERED_KEYS: set<string> := {APP_ENV, ISI_API_URL, ISI_DOCUMENTO_SECTOR}

  /** The local key list is fixed and only the three answered keys take their value from the answers. */
  lemma LocalEnvVariesOnlyInAnswers(a: Answers, b: Answers)
    ensures |LocalEnvEntries(a)| == |LocalEnvEntries(b)| == 13
    ensures forall n :: 0 <= n < 13 ==> LocalEnvEntries(a)[n].0 == LocalEnvEntries(b)[n].0
    ensures forall n :: 0 <= n < 13 && LocalEnvEntries(a)[n].0 !in ANSWERED_KEYS ==> LocalEnvEntries(a)[n] == LocalEnvEntries(b)[n]
  {
  }

  /** The fixed text of README.md between the title line and the dev command. */
  const README_INTRO: string :=
    "\nEste proyecto ha sido generado utilizando la plantilla ISI.INVOICE.\n\n"
    + "## Configuración\n\n"
    + "Asegúrese de actualizar los siguientes archivos con la configuración correcta:\n\n"
    + "- .env\n- .env.production\n\n"
    + "## Scripts disponibles\n\n"
    + "### Desarrollo\n\n"
    + "```\n"

  /** Between the dev command and the build command. */
  const README_BETWEEN: string := "\n```\n\n### Producción\n\n```\n"

  /** After the build command. */
  const README_OUTRO: string :=
    "\n```\n\n### Otros comandos\n\n"
    + "Asegúrese de revisar los scripts adicionales en el archivo `package.json`.\n"

  /** A text made of six parts starts with the first and contains the third and the fifth. */
  lemma ReadmeShape(head: string, intro: string, dev: string, between: string, build: string, outro: string)
    ensures StartsWith(head + intro + dev + between + build + outro, head)
    ensures Contains(head + intro + dev + between + build + outro, dev)
    ensures Contains(head + intro + dev + between + build + outro, build)
  {
    var r := head + intro + dev + between + build + outro;
    assert r[..|head|] == head;
    assert r == (head + intro) + dev + (between + build + outro);
    ContainsInfix(head + intro, dev, between + build + outro);
    assert r == (head + intro + dev + between) + build + outro;
    ContainsInfix(head + intro + dev + between, build, outro);
  }

  /** README.md as generated for the project; `manager` is the package manager the user chose. It opens with the project name as its title. */
  function ReadmeText(projectName: string, manager: string): (r: string)
    ensures StartsWith(r, "# " + projectName + "\n")
  {
    var head := "# " + projectName + "\n";
    var r := head + README_INTRO + (manager + " run dev") + README_BETWEEN + (manager + " run build") + README_OUTRO;
    assert r[..|head|] == head;
    r
  }

  /** The README shows the dev and build commands of the chosen manager. */
  lemma ReadmeMentions(projectName: string, manager: string)
    ensures Contains(ReadmeText(projectName, manager), manager + " run dev")
    ensures Contains(ReadmeText(projectName, manager), manager + " run build")
  {
    ReadmeShape("# " + projectName + "\n", README_INTRO, manager + " run dev", README_BETWEEN, manager + " run build", README_OUTRO);
  }
}
