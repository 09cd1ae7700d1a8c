/**
 * The in-place text rewrites of the `create` action: the description and the
 * title of index.html become the project name, and Layout1.tsx gets the
 * `<LayoutRestriccion />` element injected before the first `return (` that
 * is followed, across white space, by `<div`.
 */
module Rewrites {
  import opened Wrappers
  import opened Text
  import opened Patterns

  /** `\s` of JavaScript regular expressions: the ECMAScript white-space and line-terminator characters. */
  predicate IsRegexSpace(c: char) {
    || c == '\t' || c == '\n' || c == '\U{000B}' || c == '\U{000C}' || c == '\r' || c == ' '
    || c == '\U{00A0}' || c == '\U{1680}' || ('\U{2000}' <= c <= '\U{200A}')
    || c == '\U{2028}' || c == '\U{2029}' || c == '\U{202F}' || c == '\U{205F}'
    || c == '\U{3000}' || c == '\U{FEFF}'
  }

  /** /<meta name="description" content="[^"]*"/ */
  const META_DESCRIPTION: Pattern := Pattern("<meta name=\"description\" content=\"", c => c != '"', "\"")

  /** /<title>[^<]*<\/title>/ */
  const TITLE: Pattern := Pattern("<title>", c => c != '<', "</title>")

  /** /(return \(\s*<div)/ */
  const RETURN_DIV: Pattern := Pattern("return (", IsRegexSpace, "<div")

  const MARKER: string := "<LayoutRestriccion />"
  const INJECTION_HEAD: string := "return (\n"
  const INJECTION_TAIL: string := "\n<div"
  const INJECTION: string := INJECTION_HEAD + MARKER + INJECTION_TAIL

  /** What every description tag, matched or written, starts with. */
  const META_PREFIX: string := "<meta name=\""

  lemma MetaPrefix()
    ensures 12 <= |META_DESCRIPTION.open| && META_DESCRIPTION.open[..12] == META_PREFIX
  {
  }

  lemma PatternsWellFormed()
    ensures WellFormed(META_DESCRIPTION) && WellFormed(TITLE) && WellFormed(RETURN_DIV)
  {
  }

  /** The description tag the page gets for `name`. */
  function DescriptionTag(name: string): (r: string) {
    META_DESCRIPTION.open + name + META_DESCRIPTION.close
  }

  /** The title element the page gets for `name`. */
  function TitleTag(name: string): (r: string) {
    TITLE.open + name + TITLE.close
  }

  /** The first description meta tag now carries `name`; a page without one is unchanged. */
  function RewriteDescription(html: string, name: string): (r: string)
    ensures NoMatch(html, META_DESCRIPTION) ==> r == html
    ensures forall i, j :: FirstMatch(html, META_DESCRIPTION, i, j) ==> r == html[..i] + DescriptionTag(name) + html[j..]
  {
    PatternsWellFormed();
    ReplaceFirst(html, META_DESCRIPTION, DescriptionTag(name))
  }

  /** The first title element now holds `name`; a page without one is unchanged. */
  function RewriteTitle(html: string, name: string): (r: string)
    ensures NoMatch(html, TITLE) ==> r == html
    ensures forall i, j :: FirstMatch(html, TITLE, i, j) ==> r == html[..i] + TitleTag(name) + html[j..]
  {
    PatternsWellFormed();
    ReplaceFirst(html, TITLE, TitleTag(name))
  }

  /**
   * index.html as rewritten: the description first, then the title. A page
   * with neither tag is unchanged. With a name free of `"` and `<`, a page
   * that had a description tag ends with the one carrying the name as its
   * first; and when the page still has a title after the description
   * rewrite and the name holds no `<`, the title reads back as the one
   * carrying the name.
   */
  function RewriteIndexHtml(html: string, name: string): (r: string)
    ensures NoMatch(html, META_DESCRIPTION) && NoMatch(html, TITLE) ==> r == html
    ensures '"' !in name && '<' !in name && !NoMatch(html, META_DESCRIPTION) ==>
      FirstMatchText(r, META_DESCRIPTION) == Some(DescriptionTag(name))
    ensures '<' !in name && !NoMatch(RewriteDescription(html, name), TITLE) ==> FirstMatchText(r, TITLE) == Some(TitleTag(name))
  {
    var d := RewriteDescription(html, name);
    assert '<' !in name && !NoMatch(d, TITLE) ==> FirstMatchText(RewriteTitle(d, name), TITLE) == Some(TitleTag(name)) by {
      if '<' !in name && !NoMatch(d, TITLE) {
        TitleReadBack(d, name);
      }
    }
    assert '"' !in name && '<' !in name && !NoMatch(html, META_DESCRIPTION) ==>
      FirstMatchText(RewriteTitle(d, name), META_DESCRIPTION) == Some(DescriptionTag(name)) by {
      if '"' !in name && '<' !in name && !NoMatch(html, META_DESCRIPTION) {
        DescriptionSurvivesTitle(html, name);
      }
    }
    RewriteTitle(d, name)
  }

  /** After both rewrites, with a name free of `"` and `<`, the first description tag is still the one carrying the name. */
  lemma DescriptionSurvivesTitle(html: string, name: string)
    requires '"' !in name && '<' !in name && !NoMatch(html, META_DESCRIPTION)
    ensures FirstMatchText(RewriteTitle(RewriteDescription(html, name), name), META_DESCRIPTION) == Some(DescriptionTag(name))
  {
    PatternsWellFormed();
    var (i, j) := FindFrom(html, META_DESCRIPTION, 0).value;
    assert FirstMatch(html, META_DESCRIPTION, i, j);
    DescriptionRewrittenAt(html, name, i, j);
    TitleRewriteKeepsDescription(RewriteDescription(html, name), name, i);
  }

  /** The title rewrite, before or after the description tag, leaves that tag the page's first description match. */
  lemma TitleRewriteKeepsDescription(d: string, name: string, i: nat)
    requires '<' !in name
    requires FirstMatch(d, META_DESCRIPTION, i, i + |DescriptionTag(name)|)
    requires d[i..i + |DescriptionTag(name)|] == DescriptionTag(name)
    ensures FirstMatchText(RewriteTitle(d, name), META_DESCRIPTION) == Some(DescriptionTag(name))
  {
    PatternsWellFormed();
    if NoMatch(d, TITLE) {
      ReplacedReadsBack(d, META_DESCRIPTION, DescriptionTag(name), i);
    } else {
      var (ti, tj) := FindFrom(d, TITLE, 0).value;
      assert FirstMatch(d, TITLE, ti, tj);
      assert RewriteTitle(d, name) == d[..ti] + TitleTag(name) + d[tj..];
      TitleDescriptionApart(d, name, i, ti, tj);
      if i + |DescriptionTag(name)| <= ti {
        TitleAfterTag(d, name, i, ti, tj);
      } else {
        TitleBeforeTag(d, name, i, ti, tj);
      }
    }
  }

  /** A title element after the description tag is rewritten without moving the tag. */
  lemma TitleAfterTag(d: string, name: string, i: nat, ti: nat, tj: nat)
    requires FirstMatch(d, META_DESCRIPTION, i, i + |DescriptionTag(name)|)
    requires d[i..i + |DescriptionTag(name)|] == DescriptionTag(name)
    requires i + |DescriptionTag(name)| <= ti <= tj <= |d|
    ensures FirstMatchText(d[..ti] + TitleTag(name) + d[tj..], META_DESCRIPTION) == Some(DescriptionTag(name))
  {
    var tag := DescriptionTag(name);
    var x := TitleTag(name);
    DescriptionStopsAtClose();
    FirstMatchSpliceAfter(d, x, META_DESCRIPTION, i, i + |tag|, ti, tj);
    assert FirstMatchText(d[..ti] + x + d[tj..], META_DESCRIPTION) == Some(d[i..i + |tag|]);
  }

  /** A title element before the description tag is rewritten; the tag moves by the change in length and stays first. */
  lemma TitleBeforeTag(d: string, name: string, i: nat, ti: nat, tj: nat)
    requires '<' !in name
    requires FirstMatch(d, META_DESCRIPTION, i, i + |DescriptionTag(name)|)
    requires d[i..i + |DescriptionTag(name)|] == DescriptionTag(name)
    requires ti <= tj <= i
    ensures FirstMatchText(d[..ti] + TitleTag(name) + d[tj..], META_DESCRIPTION) == Some(DescriptionTag(name))
  {
    var tag := DescriptionTag(name);
    var x := TitleTag(name);
    DescriptionStopsAtClose();
    TitleCannotOpenDescription(name);
    FirstMatchSpliceBefore(d, x, META_DESCRIPTION, i, i + |tag|, ti, tj);
    assert FirstMatchText(d[..ti] + x + d[tj..], META_DESCRIPTION) == Some(d[i..i + |tag|]);
  }

  /** A title element for a name free of `<` cannot hold the start of a description tag. */
  lemma TitleCannotOpenDescription(name: string)
    requires '<' !in name
    ensures CannotOpenIn(META_DESCRIPTION, TitleTag(name))
  {
    DescriptionStopsAtClose();
    TitleTagNoMeta(name);
  }

  /** The description pattern's run stops at its closing `"`, and its opening text holds `<` only at its start, before `m`. */
  lemma DescriptionStopsAtClose()
    ensures StopsAtClose(META_DESCRIPTION)
    ensures |META_DESCRIPTION.open| >= 2 && META_DESCRIPTION.open[0] == '<' && META_DESCRIPTION.open[1] == 'm'
    ensures forall m :: 0 < m < |META_DESCRIPTION.open| ==> META_DESCRIPTION.open[m] != META_DESCRIPTION.open[0]
  {
  }

  /** The description rewrite leaves the new tag where the old first one began, as the leftmost match. */
  lemma DescriptionRewrittenAt(html: string, name: string, i: nat, j: nat)
    requires '"' !in name && FirstMatch(html, META_DESCRIPTION, i, j)
    ensures var d := RewriteDescription(html, name);
      FirstMatch(d, META_DESCRIPTION, i, i + |DescriptionTag(name)|) && d[i..i + |DescriptionTag(name)|] == DescriptionTag(name)
  {
    var d := html[..i] + DescriptionTag(name) + html[j..];
    assert RewriteDescription(html, name) == d;
    DescriptionReplacedFirst(html, name, i, j);
    assert d[i..i + |DescriptionTag(name)|] == DescriptionTag(name);
  }

  /** Inside a description tag written for a name free of `<`, `<` occurs only at its start. */
  lemma DescriptionTagLess(name: string, m: int)
    requires '<' !in name && 0 < m < |DescriptionTag(name)|
    ensures DescriptionTag(name)[m] != '<'
  {
    var n := |META_DESCRIPTION.open|;
    assert forall k :: 0 < k < n ==> META_DESCRIPTION.open[k] != '<';
    if m < n {
      assert DescriptionTag(name)[m] == META_DESCRIPTION.open[m];
    } else if m < n + |name| {
      assert DescriptionTag(name)[m] == name[m - n];
    }
  }

  /** The first title match and the description tag written for a name free of `<` do not overlap. */
  lemma TitleDescriptionApart(d: string, name: string, i: nat, ti: nat, tj: nat)
    requires '<' !in name
    requires i + |DescriptionTag(name)| <= |d| && d[i..i + |DescriptionTag(name)|] == DescriptionTag(name)
    requires MatchesAt(d, TITLE, ti, tj)
    ensures tj <= i || i + |DescriptionTag(name)| <= ti
  {
    var tag := DescriptionTag(name);
    DescriptionTagStart(name);
    TitleMatchStart(d, ti, tj);
    assert d[i] == tag[0] && d[i + 1] == tag[1];
    if ti < i {
      TitleMatchEndsBefore(d, i, ti, tj);
    } else if ti < i + |tag| {
      assert d[ti] == tag[ti - i];
      DescriptionTagLess(name, ti - i);
    }
  }

  /** A description tag opens with `<m`. */
  lemma DescriptionTagStart(name: string)
    ensures |DescriptionTag(name)| >= 2 && DescriptionTag(name)[0] == '<' && DescriptionTag(name)[1] == 'm'
  {
    DescriptionStopsAtClose();
    assert DescriptionTag(name)[0] == META_DESCRIPTION.open[0] && DescriptionTag(name)[1] == META_DESCRIPTION.open[1];
  }

  /** A title match opens with `<t`. */
  lemma TitleMatchStart(d: string, ti: int, tj: int)
    requires MatchesAt(d, TITLE, ti, tj)
    ensures ti + 1 < |d| && d[ti] == '<' && d[ti + 1] == 't'
  {
    assert d[ti] == d[ti..ti + 7][0] && d[ti + 1] == d[ti..ti + 7][1];
  }

  /**
   * A title match starting before a `<` that does not open `</` ends at or
   * before it: `<` occurs in a title match only where its `<title>` or
   * `</title>` starts.
   */
  lemma TitleMatchEndsBefore(r: string, i: nat, a: int, b: int)
    requires i + 1 < |r| && r[i] == '<' && r[i + 1] != '/'
    requires 0 <= a < i && MatchesAt(r, TITLE, a, b)
    ensures b <= i
  {
    assert forall m :: 0 < m < 7 ==> TITLE.open[m] != '<';
    assert forall m :: 0 < m < 8 ==> TITLE.close[m] != '<';
    forall m | a < m < b && m != b - 8 ensures r[m] != '<' {
      if m < a + 7 {
        assert r[m] == r[a..a + 7][m - a];
      } else if m > b - 8 {
        assert r[m] == r[b - 8..b][m - (b - 8)];
      }
    }
    assert r[b - 7] == r[b - 8..b][1];
  }

  /**
   * A description match starting before a `<meta name="` ends at most one
   * character after that prefix: its run stops at the first `"`.
   */
  lemma DescriptionMatchEndsBefore(r: string, i: nat, a: int, b: int)
    requires i + 12 <= |r| && r[i..i + 12] == META_PREFIX
    requires 0 <= a < i && MatchesAt(r, META_DESCRIPTION, a, b)
    ensures b <= i + 12
  {
    var n := |META_DESCRIPTION.open|;
    assert forall m :: 0 < m < n ==> META_DESCRIPTION.open[m] != '<';
    assert r[i] == '<' by {
      assert r[i] == r[i..i + 12][0];
    }
    assert i >= a + n by {
      forall m | a < m < a + n ensures r[m] != '<' {
        assert r[m] == r[a..a + n][m - a];
      }
    }
    assert r[i + 11] == '"' by {
      assert r[i + 11] == r[i..i + 12][11];
    }
  }

  /** Inside a title element written for a name free of `<`, `<` occurs only where `<title>` and `</title>` start. */
  lemma TitleTagLess(name: string, m: int)
    requires '<' !in name && 0 < m < |TitleTag(name)| && m != |TitleTag(name)| - 8
    ensures TitleTag(name)[m] != '<'
  {
    var t := TitleTag(name);
    if m < 7 {
      assert t[m] == TITLE.open[m];
    } else if m < 7 + |name| {
      assert t[m] == name[m - 7];
    } else {
      assert t[m] == TITLE.close[m - 7 - |name|];
    }
  }

  /** A title element for a name free of `<` holds `<` only where `<t` or `</` starts, never `<m`. */
  lemma TitleTagNoMeta(name: string)
    requires '<' !in name
    ensures |TitleTag(name)| > 1 && TitleTag(name)[0] == '<'
    ensures forall m :: 0 <= m < |TitleTag(name)| && TitleTag(name)[m] == '<' ==> m + 1 < |TitleTag(name)| && TitleTag(name)[m + 1] != 'm'
  {
    var t := TitleTag(name);
    forall m | 0 <= m < |t| && t[m] == '<' ensures m + 1 < |t| && t[m + 1] != 'm' {
      if m == 0 {
        assert t[1] == TITLE.open[1];
      } else if m == |t| - 8 {
        assert t[m + 1] == TITLE.close[1];
      } else {
        TitleTagLess(name, m);
      }
    }
  }

  /** With a name free of `<`, the replaced title is the leftmost title match of the new page. */
  lemma TitleReplacedFirst(html: string, name: string, i: nat, j: nat)
    requires '<' !in name && FirstMatch(html, TITLE, i, j)
    ensures FirstMatch(html[..i] + TitleTag(name) + html[j..], TITLE, i, i + |TitleTag(name)|)
  {
    var repl := TitleTag(name);
    var r := html[..i] + repl + html[j..];
    ReplacementMatches(TITLE, name);
    assert r[i] == '<' && r[i + 1] == 't';
    forall a, b | 0 <= a < i && MatchesAt(r, TITLE, a, b) ensures b <= i {
      TitleMatchEndsBefore(r, i, a, b);
    }
    assert r[..i] == html[..i];
    ReplacementIsFirst(html, TITLE, repl, i, j, i);
  }

  /**
   * After the title rewrite, with a name free of `<`, the page's first title
   * element is exactly the new one, so a second rewrite changes nothing.
   */
  lemma TitleReadBack(html: string, name: string)
    requires '<' !in name && !NoMatch(html, TITLE)
    ensures FirstMatchText(RewriteTitle(html, name), TITLE) == Some(TitleTag(name))
    ensures RewriteTitle(RewriteTitle(html, name), name) == RewriteTitle(html, name)
  {
    PatternsWellFormed();
    var (i, j) := FindFrom(html, TITLE, 0).value;
    assert FirstMatch(html, TITLE, i, j);
    TitleRewrittenAt(html, name, i, j);
    ReplacedReadsBack(RewriteTitle(html, name), TITLE, TitleTag(name), i);
  }

  /** The rewritten page holds the new title element where the old first one began, and it is the leftmost match. */
  lemma TitleRewrittenAt(html: string, name: string, i: nat, j: nat)
    requires '<' !in name && FirstMatch(html, TITLE, i, j)
    ensures var r := RewriteTitle(html, name);
      FirstMatch(r, TITLE, i, i + |TitleTag(name)|) && r[i..i + |TitleTag(name)|] == TitleTag(name)
  {
    var r := html[..i] + TitleTag(name) + html[j..];
    assert RewriteTitle(html, name) == r;
    TitleReplacedFirst(html, name, i, j);
    assert r[i..i + |TitleTag(name)|] == TitleTag(name);
  }

  /** `<meta name="` opens both the matched tag and its replacement. */
  lemma DescriptionPrefixKept(html: string, name: string, i: nat, j: nat)
    requires MatchesAt(html, META_DESCRIPTION, i, j)
    ensures i + 12 <= |html[..i] + DescriptionTag(name) + html[j..]|
    ensures (html[..i] + DescriptionTag(name) + html[j..])[i..i + 12] == META_PREFIX
    ensures (html[..i] + DescriptionTag(name) + html[j..])[..i + 12] == html[..i + 12]
  {
    var open := META_DESCRIPTION.open;
    MetaPrefix();
    assert html[i..i + 12] == html[i..i + |open|][..12];
    assert DescriptionTag(name)[..12] == open[..12];
    ReplacementKeepsPrefix(html, DescriptionTag(name), i, j, 12);
  }

  /** With a name free of `"`, the replaced tag is the leftmost description match of the new page. */
  lemma DescriptionReplacedFirst(html: string, name: string, i: nat, j: nat)
    requires '"' !in name && FirstMatch(html, META_DESCRIPTION, i, j)
    ensures FirstMatch(html[..i] + DescriptionTag(name) + html[j..], META_DESCRIPTION, i, i + |DescriptionTag(name)|)
  {
    var repl := DescriptionTag(name);
    var r := html[..i] + repl + html[j..];
    ReplacementMatches(META_DESCRIPTION, name);
    DescriptionPrefixKept(html, name, i, j);
    forall a, b | 0 <= a < i && MatchesAt(r, META_DESCRIPTION, a, b) ensures b <= i + 12 {
      DescriptionMatchEndsBefore(r, i, a, b);
    }
    ReplacementIsFirst(html, META_DESCRIPTION, repl, i, j, i + 12);
  }

  /**
   * After the description rewrite, with a name free of `"`, the page's first
   * description tag is exactly the new one, so a second rewrite changes nothing.
   */
  lemma DescriptionReadBack(html: string, name: string)
    requires '"' !in name && !NoMatch(html, META_DESCRIPTION)
    ensures FirstMatchText(RewriteDescription(html, name), META_DESCRIPTION) == Some(DescriptionTag(name))
    ensures RewriteDescription(RewriteDescription(html, name), name) == RewriteDescription(html, name)
  {
    PatternsWellFormed();
    var (i, j) := FindFrom(html, META_DESCRIPTION, 0).value;
    var r := html[..i] + DescriptionTag(name) + html[j..];
    assert FirstMatch(html, META_DESCRIPTION, i, j);
    assert RewriteDescription(html, name) == r;
    DescriptionReplacedFirst(html, name, i, j);
    assert r[i..i + |DescriptionTag(name)|] == DescriptionTag(name);
    ReplacedReadsBack(r, META_DESCRIPTION, DescriptionTag(name), i);
  }

  /**
   * Layout1.tsx: content that already holds the marker is left as it is;
   * otherwise the first `return (` followed, across white space, by `<div`
   * becomes the injection, and content without one is left as it is.
   */
  function InjectRestriction(layout: string): (r: string)
    ensures Contains(layout, MARKER) ==> r == layout
    ensures !Contains(layout, MARKER) && NoMatch(layout, RETURN_DIV) ==> r == layout
    ensures forall i, j :: !Contains(layout, MARKER) && FirstMatch(layout, RETURN_DIV, i, j) ==> r == layout[..i] + INJECTION + layout[j..]
  {
    PatternsWellFormed();
    if Contains(layout, MARKER) then layout else ReplaceFirst(layout, RETURN_DIV, INJECTION)
  }

  /** When the anchor matched, the injected layout holds the marker. */
  lemma InjectionAddsMarker(layout: string)
    requires !NoMatch(layout, RETURN_DIV)
    ensures Contains(InjectRestriction(layout), MARKER)
  {
    PatternsWellFormed();
    if !Contains(layout, MARKER) {
      var (i, j) := FindFrom(layout, RETURN_DIV, 0).value;
      ContainsSpliced(layout[..i], INJECTION_HEAD, MARKER, INJECTION_TAIL, layout[j..]);
    }
  }

  /** Injecting twice is injecting once: the guard sees the marker the first pass added, or the anchor is still missing. */
  lemma InjectIdempotent(layout: string)
    ensures InjectRestriction(InjectRestriction(layout)) == InjectRestriction(layout)
  {
    PatternsWellFormed();
    if !Contains(layout, MARKER) && !NoMatch(layout, RETURN_DIV) {
      InjectionAddsMarker(layout);
    }
  }
}
