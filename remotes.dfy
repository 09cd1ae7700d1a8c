/**
 * The remote step of the `create` action: after `git init`, a remote named
 * "origin", if there is one, is removed, and "origin" is added with the URL
 * the user typed. Any failure is reported as a warning and the pipeline goes
 * on, so the remote list may be left with the old origin removed and none added.
 */
module Remotes {
  datatype Remote = Remote(name: string, url: string)

  const ORIGIN: string := "origin"

  /** `remotes.find((remote) => remote.name === name)` found something: the search goes through the list from the front. */
  predicate HasRemote(rs: seq<Remote>, name: string)
    ensures HasRemote(rs, name) <==> exists k :: 0 <= k < |rs| && rs[k].name == name
    ensures HasRemote(rs, name) <==> CountNamed(rs, name) > 0
  {
    if rs == [] then false
    else
      assert (exists k :: 0 <= k < |rs| && rs[k].name == name)
        <==> rs[0].name == name || exists k :: 0 <= k < |rs[1..]| && rs[1..][k].name == name by {
        if exists k :: 0 <= k < |rs| && rs[k].name == name {
          var k :| 0 <= k < |rs| && rs[k].name == name;
          if k > 0 {
            assert rs[1..][k - 1] == rs[k];
          }
        }
      }
      rs[0].name == name || HasRemote(rs[1..], name)
  }

  /** How many remotes carry `name`. */
  function CountNamed(rs: seq<Remote>, name: string): (r: nat) {
    if rs == [] then 0 else (if rs[0].name == name then 1 else 0) + CountNamed(rs[1..], name)
  }

  /** git keeps remote names unique. */
  ghost predicate UniqueNames(rs: seq<Remote>) {
    forall a, b :: 0 <= a < b < |rs| ==> rs[a].name != rs[b].name
  }

  /** `git remote remove name`: the list without the remotes called `name`, in the same order. */
  function WithoutRemote(rs: seq<Remote>, name: string): (r: seq<Remote>)
    ensures forall x :: x in r <==> x in rs && x.name != name
    ensures !HasRemote(r, name)
    ensures |r| <= |rs|
  {
    if rs == [] then []
    else (if rs[0].name == name then [] else [rs[0]]) + WithoutRemote(rs[1..], name)
  }

  /**
   * The remote step. `added` says whether `git remote add` went through; when
   * it threw, the old origin has already been removed.
   */
  function ConfigureOrigin(rs: seq<Remote>, url: string, added: bool): (r: seq<Remote>)
    ensures added ==> Remote(ORIGIN, url) in r
    ensures forall x :: x in r && x.name == ORIGIN ==> added && x == Remote(ORIGIN, url)
    ensures forall x: Remote :: x.name != ORIGIN ==> (x in r <==> x in rs)
  {
    WithoutRemote(rs, ORIGIN) + (if added then [Remote(ORIGIN, url)] else [])
  }

  lemma {:induction false} CountAppend(a: seq<Remote>, b: seq<Remote>, name: string)
    ensures CountNamed(a + b, name) == CountNamed(a, name) + CountNamed(b, name)
  {
    if a != [] {
      assert (a + b)[1..] == a[1..] + b;
      CountAppend(a[1..], b, name);
    } else {
      assert a + b == b;
    }
  }

  lemma {:induction false} CountWithout(rs: seq<Remote>, name: string)
    ensures CountNamed(WithoutRemote(rs, name), name) == 0
  {
    if rs != [] {
      var head := if rs[0].name == name then [] else [rs[0]];
      CountAppend(head, WithoutRemote(rs[1..], name), name);
      CountWithout(rs[1..], name);
    }
  }

  /** After the step there is exactly one origin when `git remote add` went through, and none when it threw. */
  lemma OriginCount(rs: seq<Remote>, url: string, added: bool)
    ensures CountNamed(ConfigureOrigin(rs, url, added), ORIGIN) == if added then 1 else 0
  {
    CountWithout(rs, ORIGIN);
    CountAppend(WithoutRemote(rs, ORIGIN), if added then [Remote(ORIGIN, url)] else [], ORIGIN);
  }

  /** Removing a name no remote carries changes nothing. */
  lemma {:induction false} WithoutAbsent(rs: seq<Remote>, name: string)
    requires !HasRemote(rs, name)
    ensures WithoutRemote(rs, name) == rs
  {
    if rs != [] {
      assert rs[0].name != name;
      assert !HasRemote(rs[1..], name) by {
        forall k | 0 <= k < |rs| - 1 ensures rs[1..][k].name != name {
          assert rs[1..][k] == rs[k + 1];
        }
      }
      WithoutAbsent(rs[1..], name);
    }
  }

  lemma {:induction false} WithoutAppend(a: seq<Remote>, b: seq<Remote>, name: string)
    ensures WithoutRemote(a + b, name) == WithoutRemote(a, name) + WithoutRemote(b, name)
  {
    if a != [] {
      assert (a + b)[1..] == a[1..] + b;
      WithoutAppend(a[1..], b, name);
    } else {
      assert a + b == b;
    }
  }

  /** Running the remote step again with the same URL leaves the remotes as they are. */
  lemma ConfigureOriginIdempotent(rs: seq<Remote>, url: string)
    ensures ConfigureOrigin(ConfigureOrigin(rs, url, true), url, true) == ConfigureOrigin(rs, url, true)
  {
    var w := WithoutRemote(rs, ORIGIN);
    WithoutAppend(w, [Remote(ORIGIN, url)], ORIGIN);
    WithoutAbsent(w, ORIGIN);
    assert WithoutRemote([Remote(ORIGIN, url)], ORIGIN) == [];
  }

  /** With unique names, no later remote shares the first one's name. */
  lemma HeadNameUnique(rs: seq<Remote>, x: Remote)
    requires UniqueNames(rs) && rs != [] && x in rs[1..]
    ensures x.name != rs[0].name
  {
    var m :| 0 <= m < |rs[1..]| && rs[1..][m] == x;
    assert rs[m + 1] == x;
  }

  lemma {:induction false} WithoutKeepsUnique(rs: seq<Remote>, name: string)
    requires UniqueNames(rs)
    ensures UniqueNames(WithoutRemote(rs, name))
  {
    if rs != [] {
      var rest := WithoutRemote(rs[1..], name);
      WithoutKeepsUnique(rs[1..], name);
      if rs[0].name != name {
        var r := [rs[0]] + rest;
        forall a, b | 0 <= a < b < |r| ensures r[a].name != r[b].name {
          assert r[b] == rest[b - 1];
          if a == 0 {
            assert rest[b - 1] in rs[1..];
            HeadNameUnique(rs, rest[b - 1]);
          } else {
            assert r[a] == rest[a - 1];
          }
        }
      }
    }
  }

  /** Remote names stay unique through the step. */
  lemma ConfigureOriginKeepsUnique(rs: seq<Remote>, url: string, added: bool)
    requires UniqueNames(rs)
    ensures UniqueNames(ConfigureOrigin(rs, url, added))
  {
    WithoutKeepsUnique(rs, ORIGIN);
    var w := WithoutRemote(rs, ORIGIN);
    var r := ConfigureOrigin(rs, url, added);
    assert forall k :: 0 <= k < |w| ==> r[k] == w[k];
    assert forall k :: 0 <= k < |w| ==> w[k].name != ORIGIN;
  }
}
