/**
 * The bot's documentation-link pattern
 *
 *   (?P<version>[32]/)(?P<topic>\w+/)(?P<page>[\w\.]+\.html)(?P<syntax>[\?#\w=\.]+)
 *
 * compiled with `re.I | re.X`, and `re.search` over it. Rather than a regex engine, the
 * matcher is written out for this one grammar; its results are proved to be exactly those of
 * Python's backtracking search: the leftmost start position, and at that position the longest
 * page (greedy `[\w\.]+`), then the longest anchor.
 */
module UrlPattern {
  import opened Wrappers
  import opened Text

  /** The class `[\w\.]` of the page group. */
  predicate IsPageChar(c: char) {
    IsWordChar(c) || c == '.'
  }

  /** The class `[\?#\w=\.]` of the anchor (`syntax`) group. */
  predicate IsAnchorChar(c: char) {
    IsWordChar(c) || c == '?' || c == '#' || c == '=' || c == '.'
  }

  /** The literal `\.html` under `re.I`: the dot, then h, t, m, l in either case. */
  predicate IsDotHtml(w: string) {
    && |w| == 5
    && w[0] == '.'
    && (w[1] == 'h' || w[1] == 'H')
    && (w[2] == 't' || w[2] == 'T')
    && (w[3] == 'm' || w[3] == 'M')
    && (w[4] == 'l' || w[4] == 'L')
  }

  /** `[32]/` */
  predicate IsVersion(v: string) {
    |v| == 2 && (v[0] == '3' || v[0] == '2') && v[1] == '/'
  }

  /** `\w+/` */
  predicate IsTopic(t: string) {
    |t| >= 2 && t[|t| - 1] == '/' && forall k :: 0 <= k < |t| - 1 ==> IsWordChar(t[k])
  }

  /** `[\w\.]+\.html`: at least one page character before the extension. */
  predicate IsPage(p: string) {
    |p| >= 6 && (forall k :: 0 <= k < |p| ==> IsPageChar(p[k])) && IsDotHtml(p[|p| - 5..])
  }

  /** `[\?#\w=\.]+` */
  predicate IsAnchor(a: string) {
    |a| >= 1 && forall k :: 0 <= k < |a| ==> IsAnchorChar(a[k])
  }

  /** The part of a Python match object the bot uses: where it starts and its four groups. */
  datatype UrlMatch = UrlMatch(start: nat, version: string, topic: string, page: string, anchor: string)
  {
    /** `group(0)`, the whole matched text. */
    function Whole(): string {
      version + topic + page + anchor
    }

    /** Index just past the match. */
    function End(): nat {
      start + |version| + |topic| + |page| + |anchor|
    }
  }

  /**
   * `text[i..d]` matches the pattern with the four groups `text[i..a]`, `text[a..b]`,
   * `text[b..c]` and `text[c..d]`.
   */
  predicate SplitAt(text: string, i: nat, a: nat, b: nat, c: nat, d: nat) {
    && i <= a <= b <= c <= d <= |text|
    && IsVersion(text[i..a])
    && IsTopic(text[a..b])
    && IsPage(text[b..c])
    && IsAnchor(text[c..d])
  }

  /** Some way of matching the pattern starts at `i`. */
  ghost predicate MatchableAt(text: string, i: nat) {
    exists a: nat, b: nat, c: nat, d: nat :: SplitAt(text, i, a, b, c, d)
  }

  /** The groups of `m` satisfy their classes and are the text at `m.start`, in order. */
  predicate FoundIn(text: string, m: UrlMatch) {
    var a := m.start + |m.version|;
    var b := a + |m.topic|;
    var c := b + |m.page|;
    var d := c + |m.anchor|;
    && SplitAt(text, m.start, a, b, c, d)
    && text[m.start..a] == m.version
    && text[a..b] == m.topic
    && text[b..c] == m.page
    && text[c..d] == m.anchor
  }

  /**
   * A page may end at `e`: `text[e-5..e]` is `.html` in any case, and an anchor character
   * follows, so the one-or-more anchor group can still match.
   */
  predicate PageEndOk(text: string, e: nat) {
    5 <= e < |text| && IsDotHtml(text[e - 5..e]) && IsAnchorChar(text[e])
  }

  /**
   * The backtracking of the greedy `[\w\.]+`: starting from the end of the page-character run
   * and giving back one character at a time, the first end (at least one page character plus
   * `.html` after `p`) where the rest of the pattern can match.
   */
  function PageEnd(text: string, p: nat, e: nat): (r: Option<nat>)
    requires e <= |text|
    ensures r.Some? ==> p + 6 <= r.value <= e && PageEndOk(text, r.value)
    ensures r.Some? ==> forall x :: r.value < x <= e ==> !PageEndOk(text, x)
    ensures r.None? ==> forall x :: p + 6 <= x <= e ==> !PageEndOk(text, x)
    decreases e
  {
    if e < p + 6 then None
    else if PageEndOk(text, e) then Some(e)
    else PageEnd(text, p, e - 1)
  }

  /** `\w+/` from index `j`: the index just past its `/`. The word run is greedy and only `/` may end it. */
  function TopicEnd(text: string, j: nat): (r: Option<nat>)
    requires j <= |text|
    ensures r.Some? ==> j + 2 <= r.value <= |text| && IsTopic(text[j..r.value])
  {
    var te := RunEnd(text, j, IsWordChar);
    if te == j || te == |text| || text[te] != '/' then None
    else
      Some(te + 1)
  }

  /** A topic group at `a` is the one `TopicEnd` finds. */
  lemma TopicEndFinds(text: string, a: nat, b: nat)
    requires a <= b <= |text| && IsTopic(text[a..b])
    ensures TopicEnd(text, a) == Some(b)
  {
    forall k | a <= k < b - 1 ensures IsWordChar(text[k]) {
      assert text[a..b][k - a] == text[k];
    }
    assert text[b - 1] == text[a..b][b - 1 - a];
    assert RunEnd(text, a, IsWordChar) == b - 1;
  }

  /**
   * `[\w\.]+\.html` from index `b`: the run of page characters, given back one character at a
   * time until `.html` ends it and an anchor character follows. Returns where the page ends.
   */
  function PageEndFrom(text: string, b: nat): (r: Option<nat>)
    requires b <= |text|
    ensures r.Some? ==> b + 6 <= r.value < |text| && IsPage(text[b..r.value]) && IsAnchorChar(text[r.value])
  {
    var run := RunEnd(text, b, IsPageChar);
    var r := PageEnd(text, b, run);
    if r.None? then None
    else
      var c := r.value;
      assert forall k :: 0 <= k < c - b ==> text[b..c][k] == text[b + k];
      assert text[b..c][c - b - 5..] == text[c - 5..c];
      r
  }

  /** Every page group at `b` that an anchor group follows ends no later than `PageEndFrom` says. */
  lemma PageEndFromLongest(text: string, b: nat, c: nat, d: nat)
    requires b <= c <= d <= |text| && IsPage(text[b..c]) && IsAnchor(text[c..d])
    ensures PageEndFrom(text, b).Some? && c <= PageEndFrom(text, b).value
  {
    forall k | b <= k < c ensures IsPageChar(text[k]) {
      assert text[b..c][k - b] == text[k];
    }
    assert c <= RunEnd(text, b, IsPageChar);
    assert text[b..c][c - b - 5..] == text[c - 5..c];
    assert IsAnchorChar(text[c..d][0]);
    assert PageEndOk(text, c);
  }

  /** `[\?#\w=\.]+` from index `c`, greedy: the index just past the anchor. */
  function AnchorEnd(text: string, c: nat): (d: nat)
    requires c < |text| && IsAnchorChar(text[c])
    ensures c < d <= |text| && IsAnchor(text[c..d])
    ensures d == |text| || !IsAnchorChar(text[d])
  {
    var d := RunEnd(text, c, IsAnchorChar);
    assert forall k :: 0 <= k < d - c ==> text[c..d][k] == text[c + k];
    d
  }

  /** Every anchor group at `c` ends no later than `AnchorEnd` says. */
  lemma AnchorEndLongest(text: string, c: nat, d: nat)
    requires c <= d <= |text| && IsAnchor(text[c..d])
    ensures IsAnchorChar(text[c]) && d <= AnchorEnd(text, c)
  {
    forall k | c <= k < d ensures IsAnchorChar(text[k]) {
      assert text[c..d][k - c] == text[k];
    }
  }

  /** The match object for a match with the given group boundaries. */
  function MatchOf(text: string, i: nat, a: nat, b: nat, c: nat, d: nat): (m: UrlMatch)
    requires SplitAt(text, i, a, b, c, d)
    ensures m.start == i && m.End() == d && FoundIn(text, m)
  {
    UrlMatch(i, text[i..a], text[a..b], text[b..c], text[c..d])
  }

  /** What Python's matcher does when it tries the pattern at index `i` of `text`. */
  function MatchAt(text: string, i: nat): (r: Option<UrlMatch>)
    ensures r.Some? ==> r.value.start == i && FoundIn(text, r.value)
    ensures r.Some? ==> r.value.End() == |text| || !IsAnchorChar(text[r.value.End()])
  {
    if i + 2 > |text| || !IsVersion(text[i..i + 2]) then None
    else
      match TopicEnd(text, i + 2)
      case None => None
      case Some(b) =>
        match PageEndFrom(text, b)
        case None => None
        case Some(c) => Some(MatchOf(text, i, i + 2, b, c, AnchorEnd(text, c)))
  }

  /**
   * Whenever the pattern can match at `i` at all, the matcher finds a match there; the topic is
   * the only one possible, and the page and then the anchor are the longest of all ways to match
   * (Python's greedy quantifiers, tried longest first).
   */
  lemma MatchAtGreedy(text: string, i: nat, a: nat, b: nat, c: nat, d: nat)
    requires SplitAt(text, i, a, b, c, d)
    ensures MatchAt(text, i).Some?
    ensures var m := MatchAt(text, i).value;
      && m.topic == text[a..b]
      && c - b <= |m.page|
      && (c - b == |m.page| ==> d - c <= |m.anchor|)
  {
    TopicEndFinds(text, a, b);
    PageEndFromLongest(text, b, c, d);
    AnchorEndLongest(text, c, d);
  }

  /** When the matcher finds nothing at `i`, the pattern cannot match there in any way. */
  lemma NoMatchAt(text: string, i: nat)
    requires MatchAt(text, i).None?
    ensures !MatchableAt(text, i)
  {
    if MatchableAt(text, i) {
      var a: nat, b: nat, c: nat, d: nat :| SplitAt(text, i, a, b, c, d);
      MatchAtGreedy(text, i, a, b, c, d);
    }
  }

  /** `re.search` from index `i` on: the first index at which the matcher succeeds. */
  function SearchFrom(text: string, i: nat): (r: Option<UrlMatch>)
    ensures r.Some? ==> i <= r.value.start < |text| && MatchAt(text, r.value.start) == r
    ensures forall j :: i <= j < |text| && (r.None? || j < r.value.start) ==> MatchAt(text, j).None?
    decreases |text| - i
  {
    if i >= |text| then None
    else
      match MatchAt(text, i)
      case Some(m) => Some(m)
      case None => SearchFrom(text, i + 1)
  }

  lemma SearchFromLeftmost(text: string)
    ensures var r := SearchFrom(text, 0);
      forall j: nat :: (r.None? || j < r.value.start) ==> !MatchableAt(text, j)
  {
    var r := SearchFrom(text, 0);
    forall j: nat | r.None? || j < r.value.start ensures !MatchableAt(text, j) {
      if j < |text| {
        NoMatchAt(text, j);
      }
    }
  }

  /**
   * `re.search(urlpattern, text)`: a match whose groups satisfy the pattern and spell out the
   * text at its start, where no match of any shape starts further left, and no match at all when
   * none exists anywhere.
   */
  function Search(text: string): (r: Option<UrlMatch>)
    ensures r.Some? ==> FoundIn(text, r.value) && MatchAt(text, r.value.start) == r
    ensures r.Some? ==> r.value.End() == |text| || !IsAnchorChar(text[r.value.End()])
    ensures r.Some? ==> forall j: nat :: j < r.value.start ==> !MatchableAt(text, j)
    ensures r.None? <==> forall j: nat :: !MatchableAt(text, j)
  {
    SearchFromLeftmost(text);
    var r := SearchFrom(text, 0);
    FoundIsMatchable(text, r);
    r
  }

  lemma FoundIsMatchable(text: string, r: Option<UrlMatch>)
    requires r.Some? ==> FoundIn(text, r.value)
    ensures r.Some? ==> MatchableAt(text, r.value.start)
  {
    if r.Some? {
      var m := r.value;
      var a := m.start + |m.version|;
      var b := a + |m.topic|;
      var c := b + |m.page|;
      assert SplitAt(text, m.start, a, b, c, c + |m.anchor|);
    }
  }

  /** Every character of a match's page is in `[\w\.]` and every one of its anchor in `[\?#\w=\.]`. */
  lemma MatchCharsInClass(text: string, m: UrlMatch)
    requires FoundIn(text, m)
    ensures var b := m.start + |m.version| + |m.topic|;
      forall k :: b <= k < b + |m.page| ==> IsPageChar(text[k])
    ensures var c := m.start + |m.version| + |m.topic| + |m.page|;
      forall k :: c <= k < m.End() ==> IsAnchorChar(text[k])
  {
    var b := m.start + |m.version| + |m.topic|;
    var c := b + |m.page|;
    forall k | b <= k < c ensures IsPageChar(text[k]) {
      assert text[k] == m.page[k - b];
    }
    forall k | c <= k < m.End() ensures IsAnchorChar(text[k]) {
      assert text[k] == m.anchor[k - c];
    }
  }

  /** A match's page cannot run past a character outside `[\w\.]`. */
  lemma PageStops(text: string, m: UrlMatch, c: nat)
    requires FoundIn(text, m)
    requires c < |text| && !IsPageChar(text[c])
    requires m.start + |m.version| + |m.topic| <= c <= m.start + |m.version| + |m.topic| + |m.page|
    ensures c == m.start + |m.version| + |m.topic| + |m.page|
  {
    MatchCharsInClass(text, m);
  }

  /** A match's anchor cannot run past a character outside `[\?#\w=\.]`. */
  lemma AnchorStops(text: string, m: UrlMatch, d: nat)
    requires FoundIn(text, m)
    requires m.start + |m.version| + |m.topic| + |m.page| <= d <= m.End()
    requires d == |text| || !IsAnchorChar(text[d])
    ensures d == m.End()
  {
    MatchCharsInClass(text, m);
  }

  /** When the groups of a match cannot be extended, the matcher returns exactly those groups. */
  lemma MaximalSplitIsMatch(text: string, i: nat, a: nat, b: nat, c: nat, d: nat)
    requires SplitAt(text, i, a, b, c, d)
    requires !IsPageChar(text[c])
    requires d == |text| || !IsAnchorChar(text[d])
    ensures MatchAt(text, i) == Some(UrlMatch(i, text[i..a], text[a..b], text[b..c], text[c..d]))
  {
    MatchAtGreedy(text, i, a, b, c, d);
    var m := MatchAt(text, i).value;
    assert |m.version| == 2 && |m.topic| == b - a;
    PageStops(text, m, c);
    AnchorStops(text, m, d);
    BoundsDetermineMatch(text, m, a, b, c, d);
  }

  /** A match found in the text is determined by where its groups start and end. */
  lemma BoundsDetermineMatch(text: string, m: UrlMatch, a: nat, b: nat, c: nat, d: nat)
    requires FoundIn(text, m)
    requires m.start + |m.version| == a && a + |m.topic| == b && b + |m.page| == c && m.End() == d
    ensures m == UrlMatch(m.start, text[m.start..a], text[a..b], text[b..c], text[c..d])
  {
  }

  /** A match starts with the `3` or `2` of its version group. */
  lemma MatchStartsWithDigit(text: string, k: nat)
    ensures MatchableAt(text, k) ==> k < |text| && (text[k] == '3' || text[k] == '2')
  {
    if MatchableAt(text, k) {
      var a: nat, b: nat, c: nat, d: nat :| SplitAt(text, k, a, b, c, d);
      assert text[k..a][0] == text[k];
    }
  }

  /** No match can start before the first `3` or `2`. */
  lemma NoMatchBeforeDigit(text: string, i: nat)
    requires i <= |text|
    requires forall k :: 0 <= k < i ==> text[k] != '3' && text[k] != '2'
    ensures forall k: nat :: k < i ==> !MatchableAt(text, k)
  {
    forall k: nat | k < i ensures !MatchableAt(text, k) {
      MatchStartsWithDigit(text, k);
    }
  }

  /**
   * A link in running text is extracted group for group when no match starts before it, its
   * anchor starts with `?`, `#` or `=` (so the page cannot run on) and the character after it,
   * if any, cannot continue the anchor.
   */
  lemma ExtractsLink(pre: string, v: string, t: string, p: string, an: string, post: string)
    requires IsVersion(v) && IsTopic(t) && IsPage(p) && IsAnchor(an)
    requires forall k: nat :: k < |pre| ==> !MatchableAt(pre + v + t + p + an + post, k)
    requires !IsPageChar(an[0])
    requires post == [] || !IsAnchorChar(post[0])
    ensures Search(pre + v + t + p + an + post) == Some(UrlMatch(|pre|, v, t, p, an))
  {
    var text := pre + v + t + p + an + post;
    var i := |pre|;
    var a, b, c, d := i + |v|, i + |v| + |t|, i + |v| + |t| + |p|, i + |v| + |t| + |p| + |an|;
    assert text[i..a] == v && text[a..b] == t && text[b..c] == p && text[c..d] == an;
    assert text[c] == an[0];
    assert d < |text| ==> text[d] == post[0];
    assert SplitAt(text, i, a, b, c, d);
    assert MatchableAt(text, i);
    var r := Search(text);
    FoundIsMatchable(text, r);
    assert r.Some? && r.value.start == i;
    MaximalSplitIsMatch(text, i, a, b, c, d);
  }
}
