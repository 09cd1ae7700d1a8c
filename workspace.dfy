/**
 * The `create` action as index.mjs runs it: step by step on a mutable
 * project directory. Each method changes the tree, the remote list or the
 * scratch flag the way one call of the action does, and is proved to leave
 * exactly what the matching function of CreateAction describes; `Create`
 * runs the whole action and is proved equal to CreateAction.CreateResult.
 */
module Workspace {
  import opened Wrappers
  import opened Text
  import opened FileTree
  import opened CopyDirectory
  import opened ZipOverlay
  import opened Remotes
  import opened GeneratedFiles
  import opened Rewrites
  import opened PackageManager
  import opened CreateAction

  /**
   * The project directory, its repository's remotes and the scratch flag.
   * `Valid` says the files form a tree. The low-level steps
   * (EnsureDirectory, WriteText, HandleZipEntry, ExtractAll,
   * ConfigureRemote) neither require nor ensure it. Each of the first four
   * states its new files through a function of the model (EnsureDir,
   * WriteFile, ApplyEntry, ApplyEntries) whose own contract keeps a tree a
   * tree, and ConfigureRemote leaves the files alone; carrying `Valid`
   * through the ExtractAll loop made that proof far costlier. The steps of
   * the action itself require and keep `Valid`.
   */
  class Project {
    /** The project directory and everything below it. */
    var files: Tree
    /** The remotes of the repository in the project directory. */
    var remotes: seq<Remote>
    /** Whether the scratch clone directory `temp` exists. */
    var scratch: bool

    ghost predicate Valid()
      reads this
    {
      IsTree(files)
    }

    function State(): (w: World)
      reads this
    {
      World(files, remotes, scratch)
    }

    constructor (w: World)
      requires IsTree(w.files)
      ensures Valid() && State() == w
    {
      files := w.files;
      remotes := w.remotes;
      scratch := w.scratch;
    }

    /** fs.ensureDirSync(p); false where it throws, leaving everything as it was. */
    method EnsureDirectory(p: Path) returns (ok: bool)
      modifies this
      ensures ok == EnsureDir(old(files), p).Some?
      ensures files == if ok then EnsureDir(old(files), p).value else old(files)
      ensures remotes == old(remotes) && scratch == old(scratch)
    {
      match EnsureDir(files, p)
      case None => ok := false;
      case Some(t) => files := t; ok := true;
    }

    /** fs.writeFileSync(p, c). */
    method WriteText(p: Path, c: string) returns (ok: bool)
      requires p != []
      modifies this
      ensures ok == WriteFile(old(files), p, c).Some?
      ensures files == if ok then old(files)[p := File(c)] else old(files)
      ensures remotes == old(remotes) && scratch == old(scratch)
    {
      match WriteFile(files, p, c)
      case None => ok := false;
      case Some(t) => files := t; ok := true;
    }

    /** handleZipEntry: ensureDirSync for a directory entry, ensureFileSync and writeFileSync for a file entry. */
    method HandleZipEntry(e: Entry) returns (ok: bool)
      modifies this
      ensures ok == ApplyEntry(old(files), e).Some?
      ensures files == if ok then ApplyEntry(old(files), e).value else old(files)
      ensures remotes == old(remotes) && scratch == old(scratch)
    {
      if e.isDirectory {
        ok := EnsureDirectory(e.name);
      } else {
        match CreateAndWrite(files, e.name, e.data)
        case None => ok := false;
        case Some(t) => files := t; ok := true;
      }
    }

    /** `zipEntries.forEach(handleZipEntry)`: the entries in order, stopping at the first one that throws. */
    method ExtractAll(es: seq<Entry>) returns (ok: bool)
      modifies this
      ensures Extracted(files, ok) == ApplyEntries(old(files), es)
      ensures remotes == old(remotes) && scratch == old(scratch)
    {
      ghost var t0 := files;
      var k := 0;
      ok := true;
      while k < |es| && ok
        invariant 0 <= k <= |es|
        invariant ApplyEntries(t0, es[..k]).tree == files
        invariant ApplyEntries(t0, es[..k]).ok == ok
        invariant remotes == old(remotes) && scratch == old(scratch)
      {
        ApplyNext(t0, es, k);
        ok := HandleZipEntry(es[k]);
        k := k + 1;
      }
      if ok {
        assert es[..k] == es;
      } else {
        FailureStops(t0, es, k);
      }
    }

    /** The archive step: extract isiTemplate.zip when the clone has one; AdmZip throws on a directory. */
    method ExtractArchive(tmpl: Template) returns (ok: bool)
      requires Valid()
      modifies this
      ensures Valid()
      ensures Written(files, ok) == Overlay(old(files), tmpl)
      ensures remotes == old(remotes) && scratch == old(scratch)
    {
      if ZIP !in tmpl.tree {
        ok := true;
      } else if tmpl.tree[ZIP] == Dir {
        ok := false;
      } else {
        ok := ExtractAll(tmpl.archive);
      }
    }

    /** copyDirectory(tempPath, projectPath). */
    method CopyTemplate(src: Tree)
      requires Valid() && IsTree(src) && NoKindClash(files, src)
      modifies this
      ensures Valid()
      ensures files == Merge(old(files), src)
      ensures remotes == old(remotes) && scratch == old(scratch)
    {
      MergeIsTree(files, src);
      files := Merge(files, src);
    }

    /** index.html: read, replace the description, replace the title, write back. */
    method RewriteIndex(name: string) returns (ok: bool)
      requires Valid()
      modifies this
      ensures Valid()
      ensures Written(files, ok) == RewriteIndexFile(old(files), name)
      ensures remotes == old(remotes) && scratch == old(scratch)
    {
      if INDEX_HTML !in files {
        ok := true;
        return;
      }
      match files[INDEX_HTML]
      case Dir =>
        ok := false;
      case File(c) =>
        var content := c;
        content := RewriteDescription(content, name);
        content := RewriteTitle(content, name);
        files := files[INDEX_HTML := File(content)];
        ok := true;
    }

    /** Layout1.tsx: read, and unless it already holds the marker, inject it and write back. */
    method InjectLayout() returns (ok: bool)
      requires Valid()
      modifies this
      ensures Valid()
      ensures Written(files, ok) == InjectLayoutFile(old(files))
      ensures remotes == old(remotes) && scratch == old(scratch)
    {
      if LAYOUT !in files {
        ok := true;
        return;
      }
      match files[LAYOUT]
      case Dir =>
        ok := false;
      case File(c) =>
        var content := c;
        if !Contains(content, MARKER) {
          content := InjectRestriction(content);
          files := files[LAYOUT := File(content)];
        }
        ok := true;
    }

    /** The two env files, then index.html, then Layout1.tsx; the first call that throws ends the stage. */
    method CustomizeFiles(req: Request) returns (ok: bool)
      requires Valid()
      modifies this
      ensures Valid()
      ensures Written(files, ok) == Customize(old(files), req)
      ensures remotes == old(remotes) && scratch == old(scratch)
    {
      ok := WriteText(ENV, LocalEnv(req.answers));
      if !ok {
        return;
      }
      ok := WriteText(ENV_PRODUCTION, ProductionEnv(req.answers.sector));
      if !ok {
        return;
      }
      ok := RewriteIndex(req.projectName);
      if !ok {
        return;
      }
      ok := InjectLayout();
    }

    /** `mdFiles.forEach(removeSync)` over the root-level names ending in ".md"; the order does not matter. */
    method RemoveRootMarkdown()
      requires Valid()
      modifies this
      ensures Valid()
      ensures files == RemoveRootEntries(old(files), MarkdownNames(old(files)))
      ensures remotes == old(remotes) && scratch == old(scratch)
    {
      ghost var t0 := files;
      var left := MarkdownNames(files);
      ghost var done: set<string> := {};
      RemoveNoRootEntries(t0);
      while left != {}
        invariant Valid()
        invariant left + done == MarkdownNames(t0) && left !! done
        invariant files == RemoveRootEntries(t0, done)
        invariant remotes == old(remotes) && scratch == old(scratch)
        decreases left
      {
        var n :| n in left;
        RemoveRootEntriesCompose(t0, done, {n});
        files := RemoveRootEntries(files, {n});
        done := done + {n};
        left := left - {n};
      }
    }

    /** dist-zip, the markdown cleanup and README.md written with `readme`. */
    method CleanUp(readme: string) returns (ok: bool)
      requires Valid()
      modifies this
      ensures Valid()
      ensures Written(files, ok) == Finish(old(files), readme)
      ensures remotes == old(remotes) && scratch == old(scratch)
    {
      ok := EnsureDirectory(DIST_ZIP);
      if !ok {
        return;
      }
      RemoveRootMarkdown();
      ok := WriteText(README, readme);
    }

    /** `remotes.find((remote) => remote.name === name)`. */
    method FindRemote(name: string) returns (found: bool)
      ensures found == HasRemote(remotes, name)
    {
      var k := 0;
      found := false;
      while k < |remotes| && !found
        invariant 0 <= k <= |remotes|
        invariant found ==> HasRemote(remotes, name)
        invariant !found ==> forall m :: 0 <= m < k ==> remotes[m].name != name
      {
        found := remotes[k].name == name;
        k := k + 1;
      }
    }

    /**
     * The remote step: remove origin if there is one, then add it with `url`.
     * `added` says whether `git remote add` went through; the result says
     * whether the warning was printed.
     */
    method ConfigureRemote(url: string, added: bool) returns (warned: bool)
      modifies this
      ensures remotes == ConfigureOrigin(old(remotes), url, added)
      ensures warned == !added
      ensures files == old(files) && scratch == old(scratch)
    {
      var found := FindRemote(ORIGIN);
      if found {
        remotes := WithoutRemote(remotes, ORIGIN);
      } else {
        WithoutAbsent(remotes, ORIGIN);
      }
      if added {
        remotes := remotes + [Remote(ORIGIN, url)];
      }
      warned := !added;
    }

    /** Everything after a successful clone: copy, overlay, removal of `temp`, customisation, cleanup. */
    method Populate(tmpl: Template, req: Request, readme: string) returns (outcome: Outcome, later: seq<Warning>)
      requires Valid() && IsTree(tmpl.tree) && NoKindClash(files, tmpl.tree) && scratch
      modifies this
      ensures Valid()
      ensures Stages(outcome, later, files, scratch) == FromClone(old(files), tmpl, req, readme)
      ensures remotes == old(remotes)
    {
      CopyTemplate(tmpl.tree);
      later := if ZIP in tmpl.tree then [] else [ArchiveMissing];
      var ok := ExtractArchive(tmpl);
      if !ok {
        outcome := Crashed;
        return;
      }
      scratch := false;
      ok := CustomizeFiles(req);
      if !ok {
        outcome := Crashed;
        return;
      }
      ok := CleanUp(readme);
      outcome := if ok then Created else Crashed;
    }

    /** ensureDirSync(projectPath), `git init`, the remote step, and ensureDirSync(tempPath) before the clone. */
    method Initialize(url: string, originAdded: bool) returns (warnings: seq<Warning>)
      requires Valid() && [] !in files
      modifies this
      ensures Valid()
      ensures State() == World(FRESH, ConfigureOrigin(old(remotes), url, originAdded), true)
      ensures warnings == RemoteWarnings(originAdded)
    {
      InitSucceeds(files);
      var made := EnsureDirectory([]);
      made := EnsureDirectory(GIT);
      var warned := ConfigureRemote(url, originAdded);
      warnings := if warned then [RemoteNotAdded] else [];
      scratch := true;
    }

    /** The whole action, with the clone's result and whether `git remote add` goes through given. */
    method Create(req: Request, clone: Option<Template>, originAdded: bool) returns (outcome: Outcome, warnings: seq<Warning>)
      requires Valid() && WellFormedWorld(State(), clone)
      modifies this
      ensures Valid()
      ensures Run(outcome, warnings, State()) == CreateResult(old(State()), req, clone, originAdded, ReadmeFor(req))
    {
      if [] in files {
        outcome := DestinationExists;
        warnings := [];
        return;
      }
      var readme := ReadmeFor(req);
      outcome, warnings := CreateFresh(req, clone, originAdded, readme);
    }

    /** The action once the project directory is known not to exist; `readme` is the README.md text it writes at the end. */
    method CreateFresh(req: Request, clone: Option<Template>, originAdded: bool, readme: string) returns (outcome: Outcome, warnings: seq<Warning>)
      requires Valid() && WellFormedWorld(State(), clone) && [] !in files
      modifies this
      ensures Valid()
      ensures Run(outcome, warnings, State()) == CreateResult(old(State()), req, clone, originAdded, readme)
    {
      InitContinues(State(), req, clone, originAdded, readme);
      warnings := Initialize(req.answers.repo, originAdded);
      var s: Stages;
      match clone
      case None =>
        outcome := CloneFailed;
        s := Stages(CloneFailed, [], files, scratch);
      case Some(tmpl) =>
        var later;
        outcome, later := Populate(tmpl, req, readme);
        s := Stages(outcome, later, files, scratch);
      assert s == AfterInit(FRESH, clone, req, readme);
      warnings := warnings + s.warnings;
    }
  }
}
