# invoice-cli `create`: a Dafny model of the project scaffolding

invoice-cli is a Node.js command line tool whose `create <projectName>` action
scaffolds an ISI.INVOICE front-end project:

- it refuses an existing project directory;
- it creates the directory, then runs `git init` and points the `origin`
  remote at the URL the user typed. Both git steps act on the directory the
  tool was launched from, not on the project (see Findings);
- it clones the template repository into a scratch directory `temp`;
- it copies the clone into the project without overwriting and without
  `node_modules` or `.git`;
- it extracts the template's `isiTemplate.zip` over the result;
- it writes `.env` and `.env.production` from the answers;
- it rewrites the description and title of `index.html`;
- it injects `<LayoutRestriccion />` into `Layout1.tsx`;
- it creates `dist-zip`, deletes the root-level Markdown files and writes a
  fresh `README.md`;
- finally, it hands over to the chosen package manager.

This project models that pipeline. The project directory is a file tree
`map<Path, Node>`, where a path is the list of segments below the project
directory and a node is a directory or a file with its contents. Modules:

- `FileTree`: the tree and the fs-extra / fs calls the action makes, each as
  a function returning the new tree, or `None` where the call throws.
- `CopyDirectory`: `copyDirectory`, that is, `fs.copySync` with its filter.
- `ZipOverlay`: `handleZipEntry` and the `forEach` over the archive entries.
- `Remotes`: the remote list and the `origin` step.
- `Patterns`, `Rewrites`: the three regular expressions, as leftmost-match
  search over strings, and the `index.html` and `Layout1.tsx` rewrites.
- `GeneratedFiles`: the two env files, a reader for them (`ParseEnv`), and
  the generated `README.md`.
- `PackageManager`: the install and dev commands and the order they run in.
- `CreateAction`: the whole action as one function `CreateResult` of the
  starting world, plus the lemmas about what a run leaves behind.
- `Workspace`: the class `Project`, with the fields `files`, `remotes` and
  `scratch`, whose methods perform the action step by step, as index.mjs
  does. Each method is proved to leave exactly the state the matching
  `CreateAction` function describes. `Project.Create` is proved equal to
  `CreateResult`.

`CreateResult` takes the README.md text that the cleanup writes as a
parameter, `readme`. `Project.Create` renders that text with `ReadmeFor` from
the request and passes it in, and `CreatedReadme` states what that text holds.
The main line of the model runs `git init` and the remote step in the project
directory, as the action evidently intends. `CreateAction.InitAsWritten`
models what index.mjs actually does, and the Findings section relates the two.

What the outside world decides is given as input:

- whether the template clone succeeded, and the cloned tree with the decoded
  entries of its archive;
- whether `git remote add` went through;
- the exit code of the install.

## Model

| member | source | states |
|---|---|---|
| FileTree.EnsureDir | index.mjs:113 | ensureDirSync fails exactly when a prefix of the path is a file; otherwise the path and every missing ancestor become directories, every existing entry is kept, only ancestors of the path are added, and a tree stays a tree |
| FileTree.WriteFile | index.mjs:207 | writeFileSync succeeds exactly when the parent is a directory and the path is not a directory; the result is the old tree with that one file set to the new contents, still a tree |
| FileTree.CreateAndWrite | index.mjs:42-43 | ensureFileSync then writeFileSync fails exactly for the root, for a path below a file, or for a directory at the path; otherwise the file holds the new bytes whatever it held before, every other entry is kept, and only ancestor directories are added |
| FileTree.RemoveRootEntries | index.mjs:265 | removeSync of root-level names removes exactly the entries whose first segment is one of the names, with everything below them; every other entry keeps its node; a tree stays a tree |
| FileTree.RemoveRootEntriesCompose | index.mjs:265 | removing root-level names one after another is the same as removing them all at once, so the forEach order does not matter |
| FileTree.RemoveNoRootEntries | index.mjs:265 | an empty list of Markdown names leaves the tree unchanged |
| CopyDirectory.Excluded | index.mjs:55-60 | the filter never rejects the project root; it rejects a root-level entry exactly when its name starts with `node_modules` or `.git` |
| CopyDirectory.RelativePath | index.mjs:56 | path.relative from the clone root gives the empty string for the root and the bare name for a root-level entry |
| CopyDirectory.ExcludedSubtree | index.mjs:55-60 | once the filter rejects a path, it rejects everything below it |
| CopyDirectory.IncludedHasIncludedParent | index.mjs:55-60 | an accepted path has an accepted parent, so testing each path on its own copies the same paths as a copy that does not descend into rejected directories |
| CopyDirectory.Merge | index.mjs:51-63 | copySync with overwrite false never overwrites: every destination entry is kept as it was; every accepted template path missing from the destination is copied with its node; nothing else appears |
| CopyDirectory.MergeIsTree | index.mjs:52-54 | merging a template that has no file/directory clash with the destination gives a tree |
| CopyDirectory.ExclusionExamples | index.mjs:57-59 | the prefix test rejects `.git/...`, `.gitignore`, `.github/...`, `node_modules/...` and `node_modules_backup` |
| CopyDirectory.NestedNamesCopied | index.mjs:57-59 | `src/node_modules` and `src/.git` are copied: only the start of the whole relative path is tested |
| ZipOverlay.ApplyEntry | index.mjs:35-49 | a file entry leaves its bytes at its path whatever was there; a directory entry leaves a directory and changes no existing entry; other paths are kept, and anything new is a directory; a tree stays a tree |
| ZipOverlay.ApplyEntries | index.mjs:172-174 | the forEach over the entries keeps a tree a tree, and every path that no entry names keeps its node |
| ZipOverlay.FailureStops | index.mjs:172-174 | the first entry that throws ends the forEach: the entries after it change nothing |
| ZipOverlay.LastFileEntryWins | index.mjs:172-174 | after a complete overlay, a file entry that no later entry names leaves its own bytes at its path (last write wins) |
| ZipOverlay.DirectoryEntriesKeepContent | index.mjs:37-38 | an overlay made only of directory entries changes no existing entry |
| Remotes.HasRemote | index.mjs:121 | true exactly when some remote carries the name, that is, when the count of remotes with that name is positive |
| Remotes.WithoutRemote | index.mjs:121-122 | removing a remote keeps exactly the remotes with other names, and none named origin is left |
| Remotes.WithoutAbsent | index.mjs:121 | when no remote is named origin, skipping removeRemote is the same as removing it |
| Remotes.ConfigureOrigin | index.mjs:119-134 | after the step, origin with the typed URL is present when `git remote add` went through; any origin present has that URL; remotes with other names are exactly those before |
| Remotes.OriginCount | index.mjs:120-124 | after the step there is exactly one origin when `git remote add` went through, and none when it threw |
| Remotes.ConfigureOriginIdempotent | index.mjs:120-124 | running the step again with the same URL changes nothing |
| Remotes.ConfigureOriginKeepsUnique | index.mjs:120-124 | remote names stay unique through the step |
| PackageManager.Name | index.mjs:76 | every manager's name is one of the prompt's choices |
| PackageManager.FromChoice | index.mjs:71-77 | a prompt answer names the manager it is read as; an answer reads as no manager exactly when it is outside the choice list |
| PackageManager.ChoiceRoundTrip | index.mjs:76 | each offered choice is read back as the manager it names |
| PackageManager.InstallCommand | index.mjs:312-319 | the install command starts with the manager's name followed by ` install ` |
| PackageManager.DevCommand | index.mjs:340-346 | the dev command starts with the manager's name and ends with ` dev` |
| PackageManager.CommandsDistinguishManagers | index.mjs:312-346 | distinct managers get distinct install commands and distinct dev commands |
| PackageManager.Handoff | index.mjs:321-346 | the install command always runs first |
| PackageManager.DevServerOnlyAfterInstall | index.mjs:323-346 | the dev server starts exactly when the install exits with 0, and then the commands run as install, editor, dev server |
| GeneratedFiles.LocalEnvEntries | index.mjs:193-205 | the `.env` key list has 13 entries; APP_ENV, ISI_API_URL and ISI_DOCUMENTO_SECTOR carry the answers and ISI_THEME is `blue` |
| GeneratedFiles.ProductionEnvEntries | index.mjs:209-221 | the `.env.production` key list has 13 entries; APP_ENV is `production`, ISI_API_URL the sandbox API URL, ISI_DOCUMENTO_SECTOR the answer and ISI_THEME `blue1` |
| GeneratedFiles.EnvText | index.mjs:193-222 | one `KEY=value` line per entry: empty exactly when there are no entries, otherwise it opens with the first key and `=` and ends with a newline; ParseEnvText is its inverse |
| GeneratedFiles.LocalEnv | index.mjs:193-207 | starts with `APP_ENV=` and ends with a newline; with single-line answers, the written `.env` reads back as exactly the `.env` key list |
| GeneratedFiles.ProductionEnv | index.mjs:209-226 | starts with `APP_ENV=` and ends with a newline; with a single-line sector, the written `.env.production` reads back as exactly the production key list |
| GeneratedFiles.ParseEnvText | index.mjs:193-206 | reading an env file written from single-line keys and values gives back exactly the entries, in order |
| GeneratedFiles.LookupAt | index.mjs:193-206 | a key's value is the one at its first occurrence |
| GeneratedFiles.LocalEntriesWritable | index.mjs:193-206 | with single-line answers, every `.env` key and value survives writing and reading back |
| GeneratedFiles.LocalEnvValues | index.mjs:193-206 | reading the written `.env` back gives the answered APP_ENV, ISI_API_URL and ISI_DOCUMENTO_SECTOR, and ISI_THEME `blue` |
| GeneratedFiles.ProductionEntriesWritable | index.mjs:209-222 | with a single-line sector, every `.env.production` key and value survives writing and reading back |
| GeneratedFiles.ProductionEnvValues | index.mjs:209-226 | reading the written `.env.production` back gives APP_ENV `production`, the sandbox ISI_API_URL, the answered sector and ISI_THEME `blue1` |
| GeneratedFiles.LocalEnvVariesOnlyInAnswers | index.mjs:193-206 | every `.env` has the same 13 keys in the same order, and an entry whose key is not answered is identical for all answers |
| GeneratedFiles.ReadmeText | index.mjs:267-295 | the generated README starts with `# `, the project name and a line break |
| GeneratedFiles.ReadmeMentions | index.mjs:267-297 | the generated README contains `<manager> run dev` and `<manager> run build` |
| Patterns.MatchEnd | index.mjs:232-254 | for the three patterns a match starting at an index has exactly one end, which the greedy run finds |
| Patterns.FindFrom | index.mjs:232-254 | the search returns a match at or after the start with no match starting earlier, or none when no match starts there |
| Patterns.ReplaceFirst | index.mjs:232-254 | replace with a non-global regex rewrites exactly the leftmost match; text without a match is unchanged |
| Patterns.FirstMatchText | index.mjs:232-239 | the leftmost match's text, or none exactly when nothing matches |
| Patterns.ReplacementIsFirst | index.mjs:232-239 | after replace, the replacement is the new leftmost match when it is a match and no earlier match reaches into it |
| Patterns.ReplacedReadsBack | index.mjs:232-239 | once the replacement is the leftmost match, it is what a search finds and replacing it again changes nothing |
| Rewrites.RewriteDescription | index.mjs:232-235 | the first description tag becomes the one carrying the project name, everything around it kept; a page without one is unchanged |
| Rewrites.RewriteTitle | index.mjs:236-239 | the first title element becomes the one holding the project name, everything around it kept; a page without one is unchanged |
| Rewrites.DescriptionReplacedFirst | index.mjs:232-235 | with a name free of `"`, the new tag is the leftmost description match of the rewritten page |
| Rewrites.TitleReplacedFirst | index.mjs:236-239 | with a name free of `<`, the new title is the leftmost title match of the rewritten page |
| Rewrites.DescriptionReadBack | index.mjs:232-235 | with a name free of `"`, the rewritten page's description tag reads back as the one written, and rewriting again changes nothing |
| Rewrites.TitleReadBack | index.mjs:236-239 | with a name free of `<`, the rewritten page's title reads back as the one written, and rewriting again changes nothing |
| Rewrites.RewriteIndexHtml | index.mjs:231-239 | a page with neither a description tag nor a title is unchanged; with a name free of `"` and `<`, a page that had a description tag ends with the tag carrying the name as its first description match, after both rewrites; with a name free of `<`, when a title is left after the description rewrite, the page's first title reads back as the one holding the name |
| Rewrites.DescriptionSurvivesTitle | index.mjs:231-239 | the title rewrite that follows leaves the rewritten description tag as the page's first description match |
| Rewrites.InjectRestriction | index.mjs:249-256 | content holding the marker is unchanged; otherwise the first `return (` + white space + `<div` becomes the injection, and content without one is unchanged |
| Rewrites.InjectionAddsMarker | index.mjs:250-254 | when the anchor matches, the result holds `<LayoutRestriccion />` |
| Rewrites.InjectIdempotent | index.mjs:249-256 | injecting twice is the same as injecting once |
| CreateAction.Overlay | index.mjs:166-185 | no archive in the clone: nothing changes; an archive that is a directory makes AdmZip throw; an archive file is the forEach over its entries; a tree stays a tree |
| CreateAction.RewriteIndexFile | index.mjs:228-241 | an absent index.html is skipped; a directory there throws; a file gets the description and title rewrites written back |
| CreateAction.InjectLayoutFile | index.mjs:243-257 | an absent Layout1.tsx is skipped; a directory there throws; a file gets the injection written back |
| CreateAction.WriteEnvFiles | index.mjs:193-226 | `.env` and `.env.production` hold the files generated from the answers on success; every other path keeps its node, and only those two can be new |
| CreateAction.RewritePages | index.mjs:228-257 | every other path keeps its node and nothing appears; on success an index.html file holds its rewritten text and a Layout1.tsx file its injected text; a directory at either path throws |
| CreateAction.Customize | index.mjs:193-257 | every path other than the four written ones keeps its node; only `.env` and `.env.production` can be new; on success they hold the files generated from the answers, index.html (when a file) holds its rewritten text and Layout1.tsx (when a file) its injected text; a directory at either page throws; a tree stays a tree |
| CreateAction.MarkdownNames | index.mjs:262-264 | exactly the root-level names that end in `.md` |
| CreateAction.RemoveMarkdown | index.mjs:262-265 | the removal keeps every remaining entry's node, keeps every entry whose first segment does not end in `.md`, leaves no root-level `.md` entry, and keeps a tree a tree |
| CreateAction.PageNamesAreNotMarkdown | index.mjs:262-264 | cleanup spares index.html and `src` |
| CreateAction.Finish | index.mjs:259-297 | on success, `dist-zip` is a directory and README.md holds the given text; a tree stays a tree |
| CreateAction.FinishLeavesOnlyReadme | index.mjs:259-297 | after a complete cleanup, the only root-level `.md` entry is README.md |
| CreateAction.FinishKeepsNested | index.mjs:262-265 | cleanup keeps every entry below a root entry whose name does not end in `.md`, including `.md` files in subdirectories |
| CreateAction.FromClone | index.mjs:163-297 | after a clone, the run ends Created or Crashed, warns about a missing archive exactly when there is none, and leaves a tree |
| CreateAction.ReadmeFor | index.mjs:267-297 | the README text for a request starts with its title line, `# ` and the project name |
| CreateAction.RemoteWarnings | index.mjs:125-134 | the remote warning is given exactly when `git remote add` threw |
| CreateAction.AfterInit | index.mjs:140-161 | a failed clone, and only a failed clone, ends the run as CloneFailed; the remote warning is never among the later warnings |
| CreateAction.CreateResult | index.mjs:104-297 | the action always leaves a tree |
| CreateAction.InitAsWritten | index.mjs:113-124 | as index.mjs runs it, init leaves the project directory alone, with no `.git`, and the remote step changes the launch directory's remotes |
| CreateAction.ProjectGitAsWritten | index.mjs:113-164 | as written, the project has no `.git` even after the template copy; with git run in the project it has one |
| CreateAction.LaunchOriginReplaced | index.mjs:120-124 | as written, a launch directory whose origin is another URL gets that origin replaced by the typed URL |
| CreateAction.InitSucceeds | index.mjs:113-117 | on a project directory that does not exist yet, ensureDirSync and `git init` cannot fail and leave exactly the directory and `.git` |
| CreateAction.KindsAgreeAfterInit | index.mjs:113-164 | the fresh repository cannot clash with the template copy: its only entries are the root and the filtered-out `.git` |
| CreateAction.CopyIntoFresh | index.mjs:163-164 | every template path the filter accepts reaches the fresh project with its node |
| CreateAction.GitExcluded | index.mjs:59 | `.git` is filtered out of the copy |
| CreateAction.DestinationExistsUntouched | index.mjs:105-112 | an existing project directory ends the run before anything changes: tree, remotes and scratch are as they were |
| CreateAction.InitContinues | index.mjs:113-161 | past the existence check, the run is the fresh repository, the remote step and the file-system stages put together |
| CreateAction.CloneFailureStops | index.mjs:140-161 | a failed clone leaves only the project directory and `.git`, the configured remotes, and `temp` behind |
| CreateAction.RemoteStepResult | index.mjs:119-134 | past the existence check, the run leaves one origin with the typed URL, or none together with a warning when `git remote add` threw |
| CreateAction.FromCloneCreated | index.mjs:163-297 | a created project went through every stage, and its tree is what cleanup left |
| CreateAction.CreatedNeedsClone | index.mjs:104-161 | only a run that found no project directory and cloned the template creates the project |
| CreateAction.EnvNamesAreNotMarkdown | index.mjs:262-264 | cleanup spares `.env` and `.env.production` |
| CreateAction.CreatedProject | index.mjs:187-297 | a created project holds the two generated env files, README.md with the given text as its only root-level `.md` entry, a `dist-zip` directory, and no `temp`; its index.html and Layout1.tsx are the rewritten and the injected versions of the ones the archive step left |
| CreateAction.CreatedReadme | index.mjs:267-297 | a created project's README.md starts with the project's title line and names the manager's `run dev` and `run build` commands |
| CreateAction.ArchiveOverridesTemplate | index.mjs:163-174 | in a created project, an archive file entry that no later entry names holds the archive's bytes, whatever the template held there |
| CreateAction.TemplateFilesKept | index.mjs:163-297 | in a created project, an accepted template path that no archive entry names and no later stage writes holds the template's node |
| CreateAction.StagesKeep | index.mjs:166-297 | a path that the archive does not name, that no customisation writes and that cleanup spares passes the overlay, customisation and cleanup unchanged |
| Workspace.Project.constructor | index.mjs:104 | the workspace starts as the given world |
| Workspace.Project.EnsureDirectory | index.mjs:113 | the tree becomes EnsureDir of the old tree, or is unchanged when the call throws; remotes and scratch are unchanged |
| Workspace.Project.WriteText | index.mjs:207 | the tree becomes WriteFile of the old tree, or is unchanged when the call throws |
| Workspace.Project.HandleZipEntry | index.mjs:35-49 | the tree becomes ApplyEntry of the old tree, or is unchanged when the entry throws |
| Workspace.Project.ExtractAll | index.mjs:172-174 | the loop over the entries leaves exactly what ApplyEntries describes, stopping at the first entry that throws |
| Workspace.Project.ExtractArchive | index.mjs:166-185 | the archive step leaves exactly what Overlay describes |
| Workspace.Project.CopyTemplate | index.mjs:163-164 | the tree becomes the Merge of the old tree and the template |
| Workspace.Project.RewriteIndex | index.mjs:228-241 | reading, rewriting twice and writing back leaves exactly what RewriteIndexFile describes |
| Workspace.Project.InjectLayout | index.mjs:243-257 | reading, injecting and writing back leaves exactly what InjectLayoutFile describes |
| Workspace.Project.CustomizeFiles | index.mjs:193-257 | the env writes and the two rewrites leave exactly what Customize describes |
| Workspace.Project.RemoveRootMarkdown | index.mjs:262-265 | the removal loop deletes exactly the root-level `.md` entries, with their subtrees |
| Workspace.Project.CleanUp | index.mjs:259-297 | dist-zip, the removal and the write of the given README text leave exactly what Finish describes |
| Workspace.Project.FindRemote | index.mjs:121 | the loop finds a remote exactly when one carries the name |
| Workspace.Project.ConfigureRemote | index.mjs:119-134 | the remotes become ConfigureOrigin of the old remotes, and the warning is printed exactly when `git remote add` threw |
| Workspace.Project.Populate | index.mjs:163-297 | everything after a successful clone, with the given README text, leaves exactly what FromClone describes, with the remotes unchanged |
| Workspace.Project.Initialize | index.mjs:113-141 | the project directory, `git init`, the remote step and `temp` leave the fresh repository, the configured remotes and the scratch directory |
| Workspace.Project.CreateFresh | index.mjs:113-297 | on a project directory that does not exist, the steps from ensureDirSync on end with the outcome, the warnings and the world that CreateResult gives |
| Workspace.Project.Create | index.mjs:104-297 | the step-by-step action, writing the README text ReadmeFor renders, ends with the outcome, the warnings and the world that CreateResult gives for that text |

## Left out

- The banner, colours, spinner and console messages are left out. They are presentation only.
- The interactive prompts and argument parsing are left out. The project name, the package manager and the answers are parameters.
- Git's transport is not modelled: the clone's result and whether `git remote add` throws are inputs, and `git init` on a fresh directory only creates `.git`.
- CreateAction.InitSucceeds: models `git init` in the project directory, as intended. index.mjs runs it in the launch directory; see Findings and `InitAsWritten`.
- CreateAction.KindsAgreeAfterInit: starts from the intended fresh repository, the project directory and `.git`. As written, the project holds only its directory; see Findings.
- CreateAction.CloneFailureStops: states the intended leftovers, `.git` in the project and the remotes changed there. As written, `.git` and the remote change are in the launch directory; see Findings.
- CreateAction.RemoteStepResult: states the remote step on the project's remotes, as intended. As written, it changes the launch directory's remotes; see Findings.
- Workspace.Project.Initialize: performs the intended init, with `.git` and the remotes in the project. As written, they are in the launch directory; see Findings.
- CreateAction.InitContinues: starts from the intended fresh repository in the project; as written the project holds only its directory; see Findings.
- CreateAction.CopyIntoFresh: copies into the intended fresh repository, so its result holds the project's `.git`; as written it does not; see Findings.
- CreateAction.CreateResult: is built on the intended fresh repository, so a created project holds `.git`; as written it does not; see Findings.
- Workspace.Project.CreateFresh: runs on the intended fresh repository in the project; see Findings.
- Workspace.Project.Create: its result is stated through CreateResult, on the intended fresh repository; see Findings.
- A failure of `getRemotes` or `removeRemote` is not modelled separately. It lands in the same catch block as a failed `git remote add`, so the single `added` flag covers the warning. It does not cover a removal that did not happen.
- Zip decoding is left out (AdmZip). The archive is given as its entry list, in enumeration order. An AdmZip failure other than a directory in place of the archive is not modelled.
- Entry names are taken as paths below the project. An entry name with `..` or an absolute path, which `path.join` would resolve outside the project, is not modelled.
- Text is modelled as sequences of characters. UTF-8 encoding and decoding of the files is left out.
- Patterns.ReplaceFirst: `$&`, `$1` and the other replacement patterns of `String.prototype.replace` are not interpreted. A project name containing `$` is inserted literally.
- CopyDirectory.MergeIsTree and Workspace.Project.CopyTemplate: require, through `NoKindClash`, that no copied path is a file on one side and a directory on the other. fs-extra would throw there, and that throw is not modelled. The action always copies into a fresh repository, and `KindsAgreeAfterInit` discharges the requirement there.
- The scratch directory `temp` stays behind only when the clone fails or the archive step throws. index.mjs returns or throws before `removeSync` in those cases. A throw during customisation or cleanup comes after `removeSync`, so `temp` is already gone.
- A `temp` left by a run whose archive step threw still holds the clone, so every later clone into it fails (index.mjs:141-147). After a failed clone `temp` is empty and does not block the next run. The clone's result is an input, so the model does not derive either case, and each run starts from the scratch state it is given.
- A stage that throws ends the run as `Crashed`, with the tree as the failing call left it. What the process does with the uncaught rejection is not modelled.
- PackageManager.Handoff: lists the commands; the shell processes, their output and the editor are not modelled. A manager outside npm, yarn and pnpm cannot come from the prompt's list, so the undefined install command that index.mjs would then run is not modelled.
- Project names are taken as a single path segment. A name containing `/` is not modelled.
- The working directory changes made by `shell.cd` are left out. Every path is taken relative to the project directory.

## Findings

| source | as written | input that shows it | evidently intended | confidence | as-written member | corrected member |
|---|---|---|---|---|---|---|
| index.mjs:16-124 | `simpleGit()` is created when the module loads, and `shell.cd` does not move it, so `git init` and the `origin` step act on the launch directory; the copy filter also drops the template's `.git`, so the project never gets a repository | a run launched in the top-level directory of a repository whose `origin` is another URL: that origin is replaced by the typed URL and the project has no `.git`; launched outside any repository, the launch directory itself becomes a repository; launched in a subdirectory of one, `git init` makes a nested repository there without remotes and the outer `origin` is untouched | the project directory gets `.git`, and its `origin` is the typed URL | not executed | CreateAction.ProjectGitAsWritten | CreateAction.InitSucceeds |
