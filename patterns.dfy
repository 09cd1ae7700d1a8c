/**
 * The three regular expressions of index.mjs all have the shape
 *   open  c*  close
 * where `c` is a character class and the first character of `close` lies
 * outside it: /<meta name="description" content="[^"]*"/, /<title>[^<]*<\/title>/
 * and /return \(\s*<div/. For such a pattern the greedy run cannot usefully
 * backtrack, so a match starting at a given index has exactly one end.
 * `MatchesAt` is what the regex accepts; `FindFrom` is the left-to-right search
 * JavaScript's String.prototype.replace performs for a non-global regex.
 */
module Patterns {
  import opened Wrappers

  datatype Pattern = Pattern(open: string, inRun: char -> bool, close: string)

  predicate WellFormed(pat: Pattern) {
    |pat.close| > 0 && !pat.inRun(pat.close[0])
  }

  /** The pattern matches exactly s[i..j]. */
  predicate MatchesAt(s: string, pat: Pattern, i: int, j: int) {
    && 0 <= i && i + |pat.open| + |pat.close| <= j <= |s|
    && s[i..i + |pat.open|] == pat.open
    && (forall m :: i + |pat.open| <= m < j - |pat.close| ==> pat.inRun(s[m]))
    && s[j - |pat.close|..j] == pat.close
  }

  /** s[i..j] is the leftmost match, the one `replace` rewrites. */
  ghost predicate FirstMatch(s: string, pat: Pattern, i: int, j: int) {
    MatchesAt(s, pat, i, j) && forall a, b :: 0 <= a < i ==> !MatchesAt(s, pat, a, b)
  }

  ghost predicate NoMatch(s: string, pat: Pattern) {
    forall a, b :: !MatchesAt(s, pat, a, b)
  }

  /** End of the longest run of `inRun` characters starting at `k`. */
  function RunEnd(s: string, k: nat, inRun: char -> bool): (r: nat)
    requires k <= |s|
    ensures k <= r <= |s|
    ensures forall m :: k <= m < r ==> inRun(s[m])
    ensures r < |s| ==> !inRun(s[r])
    decreases |s| - k
  {
    if k == |s| || !inRun(s[k]) then k else RunEnd(s, k + 1, inRun)
  }

  /** The end of the match starting at `i`, if there is one; it is unique. */
  function MatchEnd(s: string, pat: Pattern, i: nat): (r: Option<nat>)
    requires WellFormed(pat)
    ensures r.Some? ==> MatchesAt(s, pat, i, r.value)
    ensures forall j :: MatchesAt(s, pat, i, j) ==> r == Some(j)
  {
    if i + |pat.open| <= |s| && s[i..i + |pat.open|] == pat.open then
      var k := RunEnd(s, i + |pat.open|, pat.inRun);
      assert forall j :: MatchesAt(s, pat, i, j) ==> k == j - |pat.close| by {
        forall j | MatchesAt(s, pat, i, j) ensures k == j - |pat.close| {
          RunStopsAtClose(s, pat, i, j);
        }
      }
      if k + |pat.close| <= |s| && s[k..k + |pat.close|] == pat.close then Some(k + |pat.close|) else None
    else None
  }

  /** In a match, the greedy run after the opening text stops exactly where the closing text begins. */
  lemma RunStopsAtClose(s: string, pat: Pattern, i: nat, j: int)
    requires WellFormed(pat) && MatchesAt(s, pat, i, j)
    ensures RunEnd(s, i + |pat.open|, pat.inRun) == j - |pat.close|
  {
    assert s[j - |pat.close|] == pat.close[0];
  }

  /** The leftmost match starting at or after `i`. */
  function FindFrom(s: string, pat: Pattern, i: nat): (r: Option<(nat, nat)>)
    requires WellFormed(pat)
    ensures r.Some? ==> i <= r.value.0 && MatchesAt(s, pat, r.value.0, r.value.1)
    ensures r.Some? ==> forall a, b :: i <= a < r.value.0 ==> !MatchesAt(s, pat, a, b)
    ensures r.None? ==> forall a, b :: i <= a ==> !MatchesAt(s, pat, a, b)
    decreases |s| + 1 - i
  {
    if i > |s| then None
    else match MatchEnd(s, pat, i)
      case Some(j) => Some((i, j))
      case None => FindFrom(s, pat, i + 1)
  }

  lemma MatchUnique(s: string, pat: Pattern, i: nat, j1: int, j2: int)
    requires WellFormed(pat) && MatchesAt(s, pat, i, j1) && MatchesAt(s, pat, i, j2)
    ensures j1 == j2
  {
    var _ := MatchEnd(s, pat, i);
  }

  /** `s.replace(regex, repl)` for a non-global regex and a replacement without `$` patterns. */
  function ReplaceFirst(s: string, pat: Pattern, repl: string): (r: string)
    requires WellFormed(pat)
    ensures NoMatch(s, pat) ==> r == s
    ensures forall i, j :: FirstMatch(s, pat, i, j) ==> r == s[..i] + repl + s[j..]
  {
    match FindFrom(s, pat, 0)
    case None => s
    case Some((i, j)) =>
      assert forall a, b :: FirstMatch(s, pat, a, b) ==> a == i && b == j by {
        forall a, b | FirstMatch(s, pat, a, b) ensures a == i && b == j {
          MatchUnique(s, pat, i, j, b);
        }
      }
      s[..i] + repl + s[j..]
  }

  /** Whether the pattern matches depends only on the characters it spans. */
  lemma MatchesAtPrefix(s: string, t: string, pat: Pattern, a: int, b: int)
    requires MatchesAt(t, pat, a, b) && b <= |s| && t[..b] == s[..b]
    ensures MatchesAt(s, pat, a, b)
  {
    forall m | 0 <= m < b ensures s[m] == t[m] {
      assert s[m] == s[..b][m] && t[m] == t[..b][m];
    }
    assert s[a..a + |pat.open|] == t[a..a + |pat.open|];
    assert s[b - |pat.close|..b] == t[b - |pat.close|..b];
  }

  /** A match moved along with the characters it spans is still a match. */
  lemma MatchesAtMoved(s: string, t: string, pat: Pattern, a: int, b: int, c: int)
    requires MatchesAt(s, pat, a, b) && 0 <= c && c + (b - a) <= |t| && t[c..c + (b - a)] == s[a..b]
    ensures MatchesAt(t, pat, c, c + (b - a))
  {
    forall m | a <= m < b ensures t[c + m - a] == s[m] {
      assert t[c + m - a] == t[c..c + (b - a)][m - a] && s[m] == s[a..b][m - a];
    }
    forall m | c + |pat.open| <= m < c + (b - a) - |pat.close| ensures pat.inRun(t[m]) {
      assert t[m] == s[m - c + a];
    }
    assert t[c..c + |pat.open|] == s[a..a + |pat.open|];
    assert t[c + (b - a) - |pat.close|..c + (b - a)] == s[b - |pat.close|..b];
  }

  /** What the leftmost match spans, if there is one. */
  function FirstMatchText(s: string, pat: Pattern): (r: Option<string>)
    requires WellFormed(pat)
    ensures NoMatch(s, pat) <==> r.None?
    ensures forall i, j :: FirstMatch(s, pat, i, j) ==> r == Some(s[i..j])
  {
    match FindFrom(s, pat, 0)
    case None => None
    case Some((i, j)) =>
      assert forall a, b :: FirstMatch(s, pat, a, b) ==> a == i && b == j by {
        forall a, b | FirstMatch(s, pat, a, b) ensures a == i && b == j {
          MatchUnique(s, pat, i, j, b);
        }
      }
      Some(s[i..j])
  }

  /** The replacement text `open + body + close` is itself a match when `body` stays inside the run class. */
  lemma ReplacementMatches(pat: Pattern, body: string)
    requires forall m :: 0 <= m < |body| ==> pat.inRun(body[m])
    ensures MatchesAt(pat.open + body + pat.close, pat, 0, |pat.open + body + pat.close|)
  {
    var t := pat.open + body + pat.close;
    assert t[0..|pat.open|] == pat.open;
    forall m | |pat.open| <= m < |t| - |pat.close| ensures pat.inRun(t[m]) {
      assert t[m] == body[m - |pat.open|];
    }
    assert t[|t| - |pat.close|..|t|] == pat.close;
  }

  /** A match of the middle part of a concatenation is a match of the whole. */
  lemma MatchesAtShift(x: string, y: string, z: string, pat: Pattern)
    requires MatchesAt(y, pat, 0, |y|)
    ensures MatchesAt(x + y + z, pat, |x|, |x| + |y|)
  {
    var s := x + y + z;
    forall m | 0 <= m < |y| ensures s[|x| + m] == y[m] { }
    assert s[|x|..|x| + |pat.open|] == y[0..|pat.open|];
    assert s[|x| + |y| - |pat.close|..|x| + |y|] == y[|y| - |pat.close|..|y|];
  }

  /**
   * After `replace`, the replacement is the new leftmost match, provided it
   * is a match and no match starting earlier reaches past `k`, the length of
   * the prefix the replacement left alone.
   */
  lemma ReplacementIsFirst(s: string, pat: Pattern, repl: string, i: nat, j: nat, k: nat)
    requires FirstMatch(s, pat, i, j)
    requires MatchesAt(repl, pat, 0, |repl|)
    requires k <= |s| && k <= |s[..i] + repl + s[j..]|
    requires (s[..i] + repl + s[j..])[..k] == s[..k]
    requires forall a, b :: 0 <= a < i && MatchesAt(s[..i] + repl + s[j..], pat, a, b) ==> b <= k
    ensures FirstMatch(s[..i] + repl + s[j..], pat, i, i + |repl|)
  {
    var r := s[..i] + repl + s[j..];
    MatchesAtShift(s[..i], repl, s[j..], pat);
    assert forall a, b :: 0 <= a < i && MatchesAt(r, pat, a, b) ==> MatchesAt(s, pat, a, b) by {
      forall a, b | 0 <= a < i && MatchesAt(r, pat, a, b) ensures MatchesAt(s, pat, a, b) {
        assert r[..b] == r[..k][..b] && s[..b] == s[..k][..b];
        MatchesAtPrefix(s, r, pat, a, b);
      }
    }
  }

  /** The first `n` characters of the replacement, when the match began with them too, leave the text up to there unchanged. */
  lemma ReplacementKeepsPrefix(s: string, repl: string, i: nat, j: nat, n: nat)
    requires i + n <= j <= |s| && n <= |repl| && s[i..i + n] == repl[..n]
    ensures i + n <= |s[..i] + repl + s[j..]|
    ensures (s[..i] + repl + s[j..])[i..i + n] == repl[..n]
    ensures (s[..i] + repl + s[j..])[..i + n] == s[..i + n]
  {
    var r := s[..i] + repl + s[j..];
    assert r[i..i + n] == repl[..n];
    assert r[..i + n] == r[..i] + r[i..i + n];
    assert s[..i + n] == s[..i] + s[i..i + n];
  }

  /** Once the replacement is the leftmost match, it is what a search finds and replacing it again changes nothing. */
  lemma ReplacedReadsBack(r: string, pat: Pattern, repl: string, i: nat)
    requires WellFormed(pat) && FirstMatch(r, pat, i, i + |repl|) && r[i..i + |repl|] == repl
    ensures FirstMatchText(r, pat) == Some(repl)
    ensures ReplaceFirst(r, pat, repl) == r
  {
    assert r[..i] + repl + r[i + |repl|..] == r;
  }

  /**
   * A pattern whose run is every character but its one-character close, as
   * /<meta name="description" content="[^"]*"/ is: the run stops at the
   * first close character.
   */
  predicate StopsAtClose(pat: Pattern) {
    |pat.close| == 1 && forall c :: pat.inRun(c) <==> c != pat.close[0]
  }

  /** The pattern's opening text occurs at `a`. */
  predicate OpensAt(s: string, pat: Pattern, a: int) {
    0 <= a && a + |pat.open| <= |s| && s[a..a + |pat.open|] == pat.open
  }

  /** For such a pattern, opening text followed anywhere by the close character starts a match. */
  lemma CloseAfterOpenMatches(s: string, pat: Pattern, a: nat, q: nat)
    requires StopsAtClose(pat) && OpensAt(s, pat, a)
    requires a + |pat.open| <= q < |s| && s[q] == pat.close[0]
    ensures exists b :: MatchesAt(s, pat, a, b)
  {
    var k := RunEnd(s, a + |pat.open|, pat.inRun);
    assert k <= q;
    assert s[k..k + 1] == pat.close;
    assert MatchesAt(s, pat, a, k + 1);
  }

  /** Before the first match, the opening text does not occur: the match's close would end a match there. */
  lemma NoOpenBeforeFirst(d: string, pat: Pattern, i: nat, e: nat, a: nat)
    requires StopsAtClose(pat) && FirstMatch(d, pat, i, e) && a < i
    ensures !OpensAt(d, pat, a)
  {
    if OpensAt(d, pat, a) {
      assert d[e - 1] == d[e - 1..e][0];
      CloseAfterOpenMatches(d, pat, a, e - 1);
    }
  }

  /** Splicing `x` over `d[ti..tj]` keeps the text before `ti`. */
  lemma SpliceFront(d: string, x: string, ti: nat, tj: nat, a: nat, n: nat)
    requires ti <= tj <= |d| && a + n <= ti
    ensures (d[..ti] + x + d[tj..])[a..a + n] == d[a..a + n]
  {
    var r := d[..ti] + x + d[tj..];
    assert forall k :: 0 <= k < ti ==> r[k] == d[k];
    assert r[a..a + n] == d[a..a + n];
  }

  /** Splicing `x` over `d[ti..tj]` shifts the text after `tj` by the change in length. */
  lemma SpliceBack(d: string, x: string, ti: nat, tj: nat, a: nat, n: nat)
    requires ti <= tj <= |d| && ti + |x| <= a && a + n <= |d[..ti] + x + d[tj..]|
    ensures (d[..ti] + x + d[tj..])[a..a + n] == d[a - ti - |x| + tj..a - ti - |x| + tj + n]
  {
    var r := d[..ti] + x + d[tj..];
    var l := ti + |x|;
    assert forall k :: l <= k < |r| ==> r[k] == d[k - l + tj];
    assert r[a..a + n] == d[a - l + tj..a - l + tj + n];
  }

  /** Splicing `x` over `d[ti..tj]` puts `x` at `ti`. */
  lemma SpliceMiddle(d: string, x: string, ti: int, tj: int, m: int)
    ensures 0 <= ti <= tj <= |d| && ti <= m < ti + |x| ==> (d[..ti] + x + d[tj..])[m] == x[m - ti]
  {
  }

  /** Indexing a slice is indexing the text. */
  lemma SliceIndex(s: string, a: int, b: int, k: int)
    ensures 0 <= a <= k < b <= |s| ==> s[a..b][k - a] == s[k]
  {
  }

  /** A splice after the first match leaves it where it was, still the first. */
  lemma FirstMatchSpliceAfter(d: string, x: string, pat: Pattern, i: nat, e: nat, ti: nat, tj: nat)
    requires StopsAtClose(pat) && FirstMatch(d, pat, i, e) && e <= ti <= tj <= |d|
    ensures FirstMatch(d[..ti] + x + d[tj..], pat, i, e)
    ensures (d[..ti] + x + d[tj..])[i..e] == d[i..e]
    ensures FirstMatchText(d[..ti] + x + d[tj..], pat) == Some(d[i..e])
  {
    var r := d[..ti] + x + d[tj..];
    SpliceFront(d, x, ti, tj, i, e - i);
    MatchesAtMoved(d, r, pat, i, e, i);
    forall a, b | 0 <= a < i && MatchesAt(r, pat, a, b) ensures false {
      SpliceFront(d, x, ti, tj, a, |pat.open|);
      NoOpenBeforeFirst(d, pat, i, e, a);
    }
    assert WellFormed(pat);
  }

  /**
   * The conditions under which splicing `x` in cannot start the opening
   * text: the open's first character occurs nowhere else in it, `x` starts
   * with that character, and wherever `x` has it, the open's second
   * character does not follow.
   */
  predicate CannotOpenIn(pat: Pattern, x: string) {
    && |pat.open| >= 2 && (forall m :: 0 < m < |pat.open| ==> pat.open[m] != pat.open[0])
    && |x| > 0 && x[0] == pat.open[0]
    && forall m :: 0 <= m < |x| && x[m] == pat.open[0] ==> m + 1 < |x| && x[m + 1] != pat.open[1]
  }

  /** No opening text starts before the shifted first match after such a splice before it. */
  lemma NoOpenBeforeShifted(d: string, x: string, pat: Pattern, i: nat, e: nat, ti: nat, tj: nat, a: nat)
    requires StopsAtClose(pat) && FirstMatch(d, pat, i, e) && ti <= tj <= i && CannotOpenIn(pat, x)
    requires a < i + |x| - (tj - ti)
    ensures !OpensAt(d[..ti] + x + d[tj..], pat, a)
  {
    if a + |pat.open| <= ti {
      NoOpenInFront(d, x, pat, i, e, ti, tj, a);
    } else if a < ti + |x| {
      NoOpenInSplice(d, x, pat, ti, tj, a);
    } else {
      NoOpenBehind(d, x, pat, i, e, ti, tj, a);
    }
  }

  /** Opening text wholly before the splice would already open in `d`, before its first match. */
  lemma NoOpenInFront(d: string, x: string, pat: Pattern, i: nat, e: nat, ti: nat, tj: nat, a: nat)
    requires StopsAtClose(pat) && FirstMatch(d, pat, i, e) && ti <= tj <= i && 0 < |pat.open| && a + |pat.open| <= ti
    ensures !OpensAt(d[..ti] + x + d[tj..], pat, a)
  {
    if OpensAt(d[..ti] + x + d[tj..], pat, a) {
      SpliceFront(d, x, ti, tj, a, |pat.open|);
      NoOpenBeforeFirst(d, pat, i, e, a);
    }
  }

  /** Opening text reaching into the spliced `x` would need its first two characters there, which `x` lacks. */
  lemma NoOpenInSplice(d: string, x: string, pat: Pattern, ti: nat, tj: nat, a: nat)
    requires CannotOpenIn(pat, x) && ti <= tj <= |d| && ti < a + |pat.open| && a < ti + |x|
    ensures !OpensAt(d[..ti] + x + d[tj..], pat, a)
  {
    var r := d[..ti] + x + d[tj..];
    var n := |pat.open|;
    if OpensAt(r, pat, a) {
      assert r[a] == r[a..a + n][0] && r[a + 1] == r[a..a + n][1];
      if a < ti {
        SpliceMiddle(d, x, ti, tj, ti);
        SliceIndex(r, a, a + n, ti);
      } else {
        SpliceMiddle(d, x, ti, tj, a);
        SpliceMiddle(d, x, ti, tj, a + 1);
      }
    }
  }

  /** Opening text wholly after the splice would open in `d` before its first match. */
  lemma NoOpenBehind(d: string, x: string, pat: Pattern, i: nat, e: nat, ti: nat, tj: nat, a: nat)
    requires StopsAtClose(pat) && FirstMatch(d, pat, i, e) && ti <= tj <= i
    requires ti + |x| <= a < i + |x| - (tj - ti)
    ensures !OpensAt(d[..ti] + x + d[tj..], pat, a)
  {
    if OpensAt(d[..ti] + x + d[tj..], pat, a) {
      SpliceBack(d, x, ti, tj, a, |pat.open|);
      NoOpenBeforeFirst(d, pat, i, e, a - ti - |x| + tj);
    }
  }

  /** A splice before a match shifts it by the change in length. */
  lemma MatchShifted(d: string, x: string, pat: Pattern, i: nat, e: nat, ti: nat, tj: nat)
    requires MatchesAt(d, pat, i, e) && ti <= tj <= i
    ensures var k := i + |x| - (tj - ti);
      MatchesAt(d[..ti] + x + d[tj..], pat, k, k + (e - i)) && (d[..ti] + x + d[tj..])[k..k + (e - i)] == d[i..e]
  {
    var r := d[..ti] + x + d[tj..];
    var k := i + |x| - (tj - ti);
    SpliceBack(d, x, ti, tj, k, e - i);
    assert k - ti - |x| + tj == i;
    MatchesAtMoved(d, r, pat, i, e, k);
  }

  /** A splice before the first match shifts it by the change in length, and it stays the first. */
  lemma FirstMatchSpliceBefore(d: string, x: string, pat: Pattern, i: nat, e: nat, ti: nat, tj: nat)
    requires StopsAtClose(pat) && FirstMatch(d, pat, i, e) && ti <= tj <= i && CannotOpenIn(pat, x)
    ensures var k := i + |x| - (tj - ti);
      FirstMatch(d[..ti] + x + d[tj..], pat, k, k + (e - i)) && (d[..ti] + x + d[tj..])[k..k + (e - i)] == d[i..e]
    ensures FirstMatchText(d[..ti] + x + d[tj..], pat) == Some(d[i..e])
  {
    var r := d[..ti] + x + d[tj..];
    var k := i + |x| - (tj - ti);
    MatchShifted(d, x, pat, i, e, ti, tj);
    forall a, b | 0 <= a < k && MatchesAt(r, pat, a, b) ensures false {
      NoOpenBeforeShifted(d, x, pat, i, e, ti, tj, a);
    }
    assert WellFormed(pat);
  }
}
