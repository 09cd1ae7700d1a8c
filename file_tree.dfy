/**
 * The destination directory as an abstract file tree. A path is the list of
 * segments relative to the project directory; the empty path is the project
 * directory itself. Each fs-extra / fs call the pipeline makes becomes a
 * function that returns the new tree, or None where the call would throw.
 */
module FileTree {
  import opened Wrappers

  type Path = seq<string>

  datatype Node = Dir | File(content: string)

  type Tree = map<Path, Node>

  function Parent(p: Path): (r: Path)
    requires p != []
  {
    p[..|p| - 1]
  }

  /** Closed under parents, every parent is a directory, and the root, when present, is a directory. */
  ghost predicate IsTree(t: Tree) {
    && ([] in t ==> t[[]] == Dir)
    && forall p :: p in t && p != [] ==> Parent(p) in t && t[Parent(p)] == Dir
  }

  /** Some prefix of `p` no longer than `upto` segments is a file. */
  predicate FileOnPath(t: Tree, p: Path, upto: nat)
    requires upto <= |p|
  {
    exists k | 0 <= k <= upto :: p[..k] in t && t[p[..k]].File?
  }

  /** `t` with every missing prefix of `p` (including `p`) added as a directory. */
  function AddDirs(t: Tree, p: Path): (r: Tree)
    ensures forall q :: q in t ==> q in r && r[q] == t[q]
    ensures forall k :: 0 <= k <= |p| ==> p[..k] in r
    ensures forall q :: q in r && q !in t ==> r[q] == Dir && |q| <= |p| && q == p[..|q|]
  {
    var added := map k | 0 <= k <= |p| && p[..k] !in t :: p[..k] := Dir;
    assert forall k :: 0 <= k <= |p| && p[..k] !in t ==> p[..k] in added;
    t + added
  }

  lemma {:induction false} AddDirsIsTree(t: Tree, p: Path)
    requires IsTree(t)
    requires !FileOnPath(t, p, |p|)
    ensures IsTree(AddDirs(t, p))
    ensures forall k :: 0 <= k <= |p| ==> AddDirs(t, p)[p[..k]] == Dir
  {
    var r := AddDirs(t, p);
    forall k | 0 <= k <= |p|
      ensures r[p[..k]] == Dir
    {
      if p[..k] in t {
        assert !t[p[..k]].File?;
      }
    }
    forall q | q in r && q != []
      ensures Parent(q) in r && r[Parent(q)] == Dir
    {
      if q !in t {
        assert q == p[..|q|];
        assert Parent(q) == p[..|q| - 1];
      }
    }
  }

  /** fs.ensureDirSync(p): creates `p` and its ancestors; throws when one of them is a file. */
  function EnsureDir(t: Tree, p: Path): (r: Option<Tree>)
    ensures r.None? <==> FileOnPath(t, p, |p|)
    ensures r.Some? ==> p in r.value && r.value[p] == Dir
    ensures r.Some? ==> forall q :: q in t ==> q in r.value && r.value[q] == t[q]
    ensures r.Some? ==> forall q :: q in r.value && q !in t ==> r.value[q] == Dir && |q| <= |p| && q == p[..|q|]
    ensures IsTree(t) && r.Some? ==> IsTree(r.value)
  {
    if FileOnPath(t, p, |p|) then None
    else
      assert IsTree(t) ==> IsTree(AddDirs(t, p)) by {
        if IsTree(t) {
          AddDirsIsTree(t, p);
        }
      }
      assert p[..|p|] == p;
      Some(AddDirs(t, p))
  }

  /** Placing a file under an existing directory, where no directory stands, keeps a tree a tree. */
  lemma SetFileIsTree(t: Tree, p: Path, c: string)
    requires IsTree(t) && p != []
    requires Parent(p) in t && t[Parent(p)] == Dir && !(p in t && t[p] == Dir)
    ensures IsTree(t[p := File(c)])
  {
    var r := t[p := File(c)];
    forall q | q in r && q != [] ensures Parent(q) in r && r[Parent(q)] == Dir {
      if q in t {
        // a file has no children, so nothing in `t` lies below `p`
        assert Parent(q) != p;
      }
    }
  }

  /** fs.writeFileSync(p, c): the parent must be an existing directory and `p` must not be one. */
  function WriteFile(t: Tree, p: Path, c: string): (r: Option<Tree>)
    requires p != []
    ensures r.Some? <==> Parent(p) in t && t[Parent(p)] == Dir && !(p in t && t[p] == Dir)
    ensures r.Some? ==> r.value == t[p := File(c)]
    ensures IsTree(t) && r.Some? ==> IsTree(r.value)
  {
    if Parent(p) in t && t[Parent(p)] == Dir && !(p in t && t[p] == Dir) then
      assert IsTree(t) ==> IsTree(t[p := File(c)]) by {
        if IsTree(t) {
          SetFileIsTree(t, p, c);
        }
      }
      Some(t[p := File(c)])
    else None
  }

  lemma {:induction false} CreateAndWriteIsTree(t: Tree, p: Path, c: string)
    requires IsTree(t) && p != []
    requires !FileOnPath(t, p, |p| - 1) && !(p in t && t[p] == Dir)
    ensures IsTree(AddDirs(t, Parent(p))[p := File(c)])
  {
    var parent := Parent(p);
    assert !FileOnPath(t, parent, |parent|) by {
      forall k | 0 <= k <= |parent| ensures parent[..k] == p[..k] { }
    }
    AddDirsIsTree(t, parent);
    var d := AddDirs(t, parent);
    assert parent[..|parent|] == parent;
    assert !(p in d && d[p] == Dir) by {
      if p !in t {
        assert p !in d;
      }
    }
    SetFileIsTree(d, p, c);
  }

  lemma AddedAreAncestors(t: Tree, p: Path)
    requires p != []
    ensures forall q :: q in AddDirs(t, Parent(p)) && q !in t ==> |q| < |p| && q == p[..|q|]
  {
    forall q | q in AddDirs(t, Parent(p)) && q !in t ensures |q| < |p| && q == p[..|q|] {
      assert q == Parent(p)[..|q|];
    }
  }

  /**
   * fs.ensureFileSync(p) followed by fs.writeFileSync(p, c): creates the
   * missing ancestors and overwrites whatever file was at `p`; throws when an
   * ancestor is a file or `p` is a directory (including the project root).
   */
  function CreateAndWrite(t: Tree, p: Path, c: string): (r: Option<Tree>)
    ensures r.None? <==> p == [] || FileOnPath(t, p, |p| - 1) || (p in t && t[p] == Dir)
    ensures r.Some? ==> p in r.value && r.value[p] == File(c)
    ensures r.Some? ==> forall q :: q in t && q != p ==> q in r.value && r.value[q] == t[q]
    ensures r.Some? ==> forall q :: q in r.value && q !in t && q != p ==> r.value[q] == Dir && |q| < |p| && q == p[..|q|]
    ensures IsTree(t) && r.Some? ==> IsTree(r.value)
  {
    if p == [] || FileOnPath(t, p, |p| - 1) || (p in t && t[p] == Dir) then None
    else
      assert IsTree(t) ==> IsTree(AddDirs(t, Parent(p))[p := File(c)]) by {
        if IsTree(t) {
          CreateAndWriteIsTree(t, p, c);
        }
      }
      AddedAreAncestors(t, p);
      Some(AddDirs(t, Parent(p))[p := File(c)])
  }

  /** The tree without the root-level entries named in `names`, each with everything below it (fs.removeSync). */
  function RemoveRootEntries(t: Tree, names: set<string>): (r: Tree)
    ensures forall q :: q in r <==> q in t && !(q != [] && q[0] in names)
    ensures forall q :: q in r ==> r[q] == t[q]
    ensures IsTree(t) ==> IsTree(r)
  {
    var r := map q | q in t && !(q != [] && q[0] in names) :: t[q];
    assert IsTree(t) ==> IsTree(r) by {
      if IsTree(t) {
        forall q | q in r && q != [] ensures Parent(q) in r && r[Parent(q)] == Dir {
          assert Parent(q) != [] ==> Parent(q)[0] == q[0];
        }
      }
    }
    r
  }

  /** Removing root entries name by name is removing them all at once, in any order. */
  lemma RemoveRootEntriesCompose(t: Tree, a: set<string>, b: set<string>)
    ensures RemoveRootEntries(RemoveRootEntries(t, a), b) == RemoveRootEntries(t, a + b)
  {
    var l := RemoveRootEntries(RemoveRootEntries(t, a), b);
    var r := RemoveRootEntries(t, a + b);
    assert forall q :: q in l <==> q in r;
  }

  /** Removing no names changes nothing. */
  lemma RemoveNoRootEntries(t: Tree)
    ensures RemoveRootEntries(t, {}) == t
  {
    assert forall q :: q in RemoveRootEntries(t, {}) <==> q in t;
  }

  /** Every prefix of a path in a tree is a directory of the tree. */
  lemma {:induction false} AncestorsAreDirs(t: Tree, p: Path, k: nat)
    requires IsTree(t) && p in t && k < |p|
    ensures p[..k] in t && t[p[..k]] == Dir
    decreases |p| - k
  {
    if k + 1 < |p| {
      AncestorsAreDirs(t, p, k + 1);
    } else {
      assert p[..k + 1] == p;
    }
    assert Parent(p[..k + 1]) == p[..k];
  }

  /** A tree without its root is empty: the project directory does not exist, so nothing under it does. */
  lemma RootlessTreeIsEmpty(t: Tree)
    requires IsTree(t) && [] !in t
    ensures t == map[]
  {
    if t != map[] {
      var p :| p in t;
      if p != [] {
        AncestorsAreDirs(t, p, 0);
      }
      assert false;
    }
  }
}
