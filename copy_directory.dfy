/**
 * copyDirectory (index.mjs): fs.copySync from the cloned template into the
 * project with `overwrite: false`, `errorOnExist: false`, and a filter that
 * drops every path whose relative path string starts with "node_modules" or
 * ".git".
 */
module CopyDirectory {
  import opened Text
  import opened FileTree

  /** path.relative(source, src) on a POSIX system: the segments joined by "/". */
  function RelativePath(p: Path): (r: string)
    ensures p == [] ==> r == []
    ensures |p| == 1 ==> r == p[0]
  {
    if p == [] then ""
    else if |p| == 1 then p[0]
    else RelativePath(Parent(p)) + "/" + p[|p| - 1]
  }

  /**
   * The copy filter rejects this path: a plain string-prefix test, so
   * ".gitignore" and ".github" are rejected too. The clone root itself is
   * always copied, and a root-level entry is judged by its name alone.
   */
  predicate Excluded(p: Path)
    ensures Excluded(p) ==> p != []
    ensures |p| == 1 ==> (Excluded(p) <==> StartsWith(p[0], "node_modules") || StartsWith(p[0], ".git"))
  {
    StartsWith(RelativePath(p), "node_modules") || StartsWith(RelativePath(p), ".git")
  }

  /**
   * The relative path of a directory is a prefix of the relative path of
   * everything below it, so a rejected directory takes its whole subtree
   * with it.
   */
  lemma {:induction false} ExcludedSubtree(p: Path, q: Path)
    requires Excluded(p)
    ensures Excluded(p + q)
    decreases |q|
  {
    if q != [] {
      var pq := p + q;
      ExcludedSubtree(p, Parent(q));
      assert Parent(pq) == p + Parent(q);
      assert p != [];
      assert RelativePath(pq) == RelativePath(p + Parent(q)) + "/" + pq[|pq| - 1];
      if StartsWith(RelativePath(p + Parent(q)), "node_modules") {
        StartsWithAppend(RelativePath(p + Parent(q)), "node_modules", "/" + pq[|pq| - 1]);
      } else {
        StartsWithAppend(RelativePath(p + Parent(q)), ".git", "/" + pq[|pq| - 1]);
      }
    } else {
      assert p + q == p;
    }
  }

  /**
   * fs-extra does not descend into a directory its filter rejected; since
   * rejection is inherited by every descendant, filtering each path on its own
   * gives the same set of copied paths.
   */
  lemma IncludedHasIncludedParent(p: Path)
    requires p != [] && !Excluded(p)
    ensures !Excluded(Parent(p))
  {
    assert Parent(p) + [p[|p| - 1]] == p;
    if Excluded(Parent(p)) {
      ExcludedSubtree(Parent(p), [p[|p| - 1]]);
    }
  }

  /** No copied path is a file on one side and a directory on the other (fs-extra throws on that). */
  ghost predicate NoKindClash(dst: Tree, src: Tree) {
    forall p :: p in src && p in dst && !Excluded(p) ==> (src[p] == Dir <==> dst[p] == Dir)
  }

  /** copyDirectory(src, dst): the union in which the destination keeps every entry it already had. */
  function Merge(dst: Tree, src: Tree): (r: Tree)
    ensures forall p :: p in dst ==> p in r && r[p] == dst[p]
    ensures forall p :: p in src && !Excluded(p) && p !in dst ==> p in r && r[p] == src[p]
    ensures forall p :: p in r ==> p in dst || (p in src && !Excluded(p))
  {
    dst + map p | p in src && !Excluded(p) && p !in dst :: src[p]
  }

  /** Merging two trees that do not clash gives a tree. */
  lemma MergeIsTree(dst: Tree, src: Tree)
    requires IsTree(dst) && IsTree(src) && NoKindClash(dst, src)
    ensures IsTree(Merge(dst, src))
  {
    var r := Merge(dst, src);
    forall p | p in r && p != [] ensures Parent(p) in r && r[Parent(p)] == Dir {
      if p !in dst {
        IncludedHasIncludedParent(p);
      }
    }
  }

  /** Examples of the prefix test: dotfiles next to ".git" and names starting "node_modules" are dropped with their subtrees. */
  lemma ExclusionExamples(rest: Path)
    ensures Excluded([".git"] + rest)
    ensures Excluded([".gitignore"])
    ensures Excluded([".github"] + rest)
    ensures Excluded(["node_modules"] + rest)
    ensures Excluded(["node_modules_backup"])
  {
    ExcludedSubtree([".git"], rest);
    ExcludedSubtree([".github"], rest);
    ExcludedSubtree(["node_modules"], rest);
  }

  /** The test looks only at the start of the whole relative path, so a nested "node_modules" or ".git" is copied. */
  lemma NestedNamesCopied(name: string)
    requires name == "node_modules" || name == ".git"
    ensures !Excluded(["src", name])
  {
    assert RelativePath(["src", name]) == "src/" + name by {
      assert Parent(["src", name]) == ["src"];
    }
    assert RelativePath(["src", name])[0] == 's';
  }
}
