/**
 * The overlay of isiTemplate.zip (handleZipEntry, applied by
 * `zipEntries.forEach` in index.mjs). The archive is given already decoded, as
 * its entry list in AdmZip's enumeration order.
 */
module ZipOverlay {
  import opened Wrappers
  import opened FileTree

  /** One archive entry: its name split into path segments, whether it is a directory, and its bytes. */
  datatype Entry = Entry(name: Path, isDirectory: bool, data: string)

  /**
   * handleZipEntry: a directory entry is fs.ensureDirSync; a file entry is
   * fs.ensureFileSync then fs.writeFileSync, which always replaces the file.
   * None where those calls throw.
   */
  function ApplyEntry(t: Tree, e: Entry): (r: Option<Tree>)
    ensures r.Some? && !e.isDirectory ==> e.name in r.value && r.value[e.name] == File(e.data)
    ensures r.Some? && e.isDirectory ==> e.name in r.value && r.value[e.name] == Dir
    ensures r.Some? && e.isDirectory ==> forall p :: p in t ==> p in r.value && r.value[p] == t[p]
    ensures r.Some? ==> forall p :: p in t && p != e.name ==> p in r.value && r.value[p] == t[p]
    ensures r.Some? ==> forall p :: p in r.value && p !in t && p != e.name ==> r.value[p] == Dir
    ensures IsTree(t) && r.Some? ==> IsTree(r.value)
  {
    if e.isDirectory then EnsureDir(t, e.name) else CreateAndWrite(t, e.name, e.data)
  }

  /** How far the forEach got: the tree it left, and whether every entry was applied. */
  datatype Extracted = Extracted(tree: Tree, ok: bool)

  /** The entries applied in order; the first one that throws stops the loop and leaves the tree as it was then. */
  function ApplyEntries(t: Tree, es: seq<Entry>): (r: Extracted)
    ensures IsTree(t) ==> IsTree(r.tree)
    ensures forall p :: p in t && (forall m :: 0 <= m < |es| ==> es[m].name != p) ==> p in r.tree && r.tree[p] == t[p]
  {
    if es == [] then Extracted(t, true)
    else
      var prev := ApplyEntries(t, es[..|es| - 1]);
      if !prev.ok then prev
      else match ApplyEntry(prev.tree, es[|es| - 1])
        case None => Extracted(prev.tree, false)
        case Some(next) => Extracted(next, true)
  }

  /** One more step of the forEach after a prefix that ran through. */
  lemma ApplyNext(t: Tree, es: seq<Entry>, k: nat)
    requires k < |es| && ApplyEntries(t, es[..k]).ok
    ensures var prev := ApplyEntries(t, es[..k]).tree;
      ApplyEntries(t, es[..k + 1])
      == if ApplyEntry(prev, es[k]).Some? then Extracted(ApplyEntry(prev, es[k]).value, true) else Extracted(prev, false)
  {
    assert es[..k + 1][..k] == es[..k];
  }

  /** The first entry that throws ends the forEach: the entries after it change nothing. */
  lemma {:induction false} FailureStops(t: Tree, es: seq<Entry>, k: nat)
    requires k <= |es| && !ApplyEntries(t, es[..k]).ok
    ensures ApplyEntries(t, es) == ApplyEntries(t, es[..k])
  {
    if k < |es| {
      var prefix := es[..|es| - 1];
      assert prefix[..k] == es[..k];
      FailureStops(t, prefix, k);
    } else {
      assert es[..k] == es;
    }
  }

  /** Last write wins: a file entry that no later entry names leaves its bytes at its path. */
  lemma {:induction false} LastFileEntryWins(t: Tree, es: seq<Entry>, k: nat)
    requires ApplyEntries(t, es).ok
    requires k < |es| && !es[k].isDirectory
    requires forall m :: k < m < |es| ==> es[m].name != es[k].name
    ensures es[k].name in ApplyEntries(t, es).tree
    ensures ApplyEntries(t, es).tree[es[k].name] == File(es[k].data)
  {
    var prefix := es[..|es| - 1];
    if k < |es| - 1 {
      LastFileEntryWins(t, prefix, k);
    }
  }

  /** A successful overlay of entries that all name directories changes no existing entry. */
  lemma {:induction false} DirectoryEntriesKeepContent(t: Tree, es: seq<Entry>)
    requires ApplyEntries(t, es).ok
    requires forall m :: 0 <= m < |es| ==> es[m].isDirectory
    ensures forall p :: p in t ==> p in ApplyEntries(t, es).tree && ApplyEntries(t, es).tree[p] == t[p]
  {
    if es != [] {
      DirectoryEntriesKeepContent(t, es[..|es| - 1]);
    }
  }
}
