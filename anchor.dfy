/**
 * How `querydb` turns a link match into the key it looks up: the anchor loses the
 * `?highlight=<word>#` or `#` marker that the pattern `\?highlight=\w+\#|\#` finds first
 * (with `str.replace`, so every copy of that marker goes), and version, topic and page are
 * trimmed with `str.rstrip`.
 */
module Anchor {
  import opened Wrappers
  import opened Text
  import opened UrlPattern

  const HighlightPrefix: string := "?highlight="

  /** `\?highlight=\w+\#`, matched case-sensitively. */
  predicate IsHighlightMarker(w: string) {
    && |w| >= |HighlightPrefix| + 2
    && w[..|HighlightPrefix|] == HighlightPrefix
    && w[|w| - 1] == '#'
    && forall k :: |HighlightPrefix| <= k < |w| - 1 ==> IsWordChar(w[k])
  }

  /** Either alternative of the strip pattern. */
  predicate IsMarker(w: string) {
    w == "#" || IsHighlightMarker(w)
  }

  /** The strip pattern matches `w` at index `j` of `s`. */
  predicate MarkerAt(s: string, j: nat, w: string) {
    OccursAt(s, w, j) && IsMarker(w)
  }

  /** Every marker ends with `#`, so a string without `#` holds none. */
  lemma MarkerHasHash(s: string, j: nat, w: string)
    requires MarkerAt(s, j, w)
    ensures s[j + |w| - 1] == '#'
  {
    assert s[j..j + |w|][|w| - 1] == s[j + |w| - 1];
  }

  /** The first alternative tried at `j`: `?highlight=`, a greedy word run, then `#`. */
  function HighlightAt(s: string, j: nat): (r: Option<string>)
    requires j <= |s|
    ensures r.Some? ==> MarkerAt(s, j, r.value) && IsHighlightMarker(r.value)
  {
    var n := |HighlightPrefix|;
    if j + n <= |s| && s[j..j + n] == HighlightPrefix then
      var e := RunEnd(s, j + n, IsWordChar);
      if e > j + n && e < |s| && s[e] == '#' then
        var w := s[j..e + 1];
        assert w[..n] == s[j..j + n];
        assert forall k :: n <= k < |w| - 1 ==> w[k] == s[j + k];
        Some(w)
      else None
    else None
  }

  /** A highlight marker at `j` is the one `HighlightAt` finds: the word run cannot stop early. */
  lemma HighlightAtFinds(s: string, j: nat, w: string)
    requires MarkerAt(s, j, w) && IsHighlightMarker(w)
    ensures HighlightAt(s, j) == Some(w)
  {
    var n := |HighlightPrefix|;
    assert s[j..j + n] == s[j..j + |w|][..n];
    forall k | j + n <= k < j + |w| - 1 ensures IsWordChar(s[k]) {
      assert s[j..j + |w|][k - j] == s[k];
    }
    assert s[j + |w| - 1] == s[j..j + |w|][|w| - 1];
    assert RunEnd(s, j + n, IsWordChar) == j + |w| - 1;
  }

  /** Where the strip pattern matched and what text it matched. */
  datatype MarkerMatch = MarkerMatch(start: nat, marker: string)

  /**
   * `re.search(_strip, s)` from index `j` on: at each index the highlight alternative is tried,
   * then the bare `#`; the first index where either matches wins.
   */
  function FindMarker(s: string, j: nat): (r: Option<MarkerMatch>)
    requires j <= |s|
    ensures r.Some? ==> j <= r.value.start && MarkerAt(s, r.value.start, r.value.marker)
    ensures r.Some? ==> forall w :: MarkerAt(s, r.value.start, w) ==> w == r.value.marker
    ensures forall k: nat, w :: j <= k && (r.None? || k < r.value.start) ==> !MarkerAt(s, k, w)
    decreases |s| - j
  {
    if j == |s| then None
    else
      match HighlightAt(s, j)
      case Some(w) =>
        assert s[j] == w[0] == '?' by {
          assert w[0] == w[..|HighlightPrefix|][0] == s[j..j + |w|][0];
        }
        assert forall w' :: MarkerAt(s, j, w') ==> w' == w by {
          forall w' | MarkerAt(s, j, w') ensures w' == w {
            assert s[j] == w'[0];
            if IsHighlightMarker(w') { HighlightAtFinds(s, j, w'); }
          }
        }
        Some(MarkerMatch(j, w))
      case None =>
        if s[j] == '#' then
          assert forall w' :: MarkerAt(s, j, w') ==> w' == "#" by {
            forall w' | MarkerAt(s, j, w') ensures w' == "#" {
              assert s[j] == w'[0];
            }
          }
          Some(MarkerMatch(j, "#"))
        else
          assert forall w' :: !MarkerAt(s, j, w') by {
            forall w' | MarkerAt(s, j, w') ensures false {
              assert s[j] == w'[0];
              HighlightAtFinds(s, j, w');
            }
          }
          FindMarker(s, j + 1)
  }

  /**
   * The keyword `querydb` looks up: the anchor with every copy of the first strip-pattern match
   * removed, or the anchor itself when the pattern does not match. It changes the anchor exactly
   * when the anchor holds a `#`, and then makes it shorter.
   */
  function Normalise(anchor: string): (r: string)
    ensures |r| <= |anchor|
    ensures r == anchor <==> '#' !in anchor
  {
    match FindMarker(anchor, 0)
    case None =>
      assert '#' !in anchor by {
        if '#' in anchor {
          var k :| 0 <= k < |anchor| && anchor[k] == '#';
          assert MarkerAt(anchor, k, "#");
        }
      }
      anchor
    case Some(m) =>
      MarkerHasHash(anchor, m.start, m.marker);
      RemoveAllShortens(anchor, m.marker, m.start);
      RemoveAll(anchor, m.marker)
  }

  /** A highlight marker at the very start is the one found, and all its copies are removed. */
  lemma LeadingHighlight(w: string, rest: string)
    requires IsHighlightMarker(w)
    ensures Normalise(w + rest) == RemoveAll(rest, w)
  {
    var s := w + rest;
    assert s[0..|w|] == w;
    assert MarkerAt(s, 0, w);
    assert s[..|w|] == w && s[|w|..] == rest;
  }

  /** Removing a marker from text without `#` leaves it as it was. */
  lemma RemoveMarkerAbsent(rest: string, w: string)
    requires IsMarker(w) && '#' !in rest
    ensures RemoveAll(rest, w) == rest
  {
    forall k: nat ensures !OccursAt(rest, w, k) {
      if OccursAt(rest, w, k) {
        MarkerHasHash(rest, k, w);
      }
    }
    RemoveAllAbsent(rest, w);
  }

  /** `?highlight=<word>#` in front of an anchor without `#` is stripped and nothing else changes. */
  lemma StripsLeadingHighlight(w: string, rest: string)
    requires IsHighlightMarker(w) && '#' !in rest
    ensures Normalise(w + rest) == rest
  {
    LeadingHighlight(w, rest);
    RemoveMarkerAbsent(rest, w);
  }

  /** A leading `#` in front of an anchor without `#` is stripped and nothing else changes. */
  lemma StripsLeadingHash(rest: string)
    requires '#' !in rest
    ensures Normalise("#" + rest) == rest
  {
    var s := "#" + rest;
    assert MarkerAt(s, 0, "#");
    assert s[..1] == "#" && s[1..] == rest;
    RemoveMarkerAbsent(rest, "#");
  }

  /** `?highlight=foo#bar` gives `bar`. */
  lemma HighlightExample(anchor: string)
    requires anchor == "?highlight=foo#bar"
    ensures Normalise(anchor) == "bar"
  {
    var w := "?highlight=foo#";
    assert IsHighlightMarker(w);
    assert anchor == w + "bar";
    StripsLeadingHighlight(w, "bar");
  }

  /** `#bar` gives `bar`. */
  lemma HashExample(anchor: string)
    requires anchor == "#bar"
    ensures Normalise(anchor) == "bar"
  {
    assert anchor == "#" + "bar";
    StripsLeadingHash("bar");
  }

  /** When the first marker is a bare `#`, the keyword is the anchor with every `#` deleted. */
  lemma BareHashRemovesEveryHash(anchor: string)
    requires FindMarker(anchor, 0).Some? && FindMarker(anchor, 0).value.marker == "#"
    ensures Normalise(anchor) == Without(anchor, '#')
  {
    RemoveAllChar(anchor, '#');
  }

  /** Normalising twice changes nothing unless the first marker was a highlight query. */
  lemma IdempotentUnlessHighlight(anchor: string)
    requires FindMarker(anchor, 0).None? || FindMarker(anchor, 0).value.marker == "#"
    ensures Normalise(Normalise(anchor)) == Normalise(anchor)
  {
    if FindMarker(anchor, 0).Some? {
      BareHashRemovesEveryHash(anchor);
    }
  }

  /**
   * Normalising is not idempotent: a highlight marker is removed but a later `#` stays, and a
   * second pass removes it.
   */
  lemma NotIdempotent(anchor: string)
    requires anchor == "?highlight=foo#bar#baz"
    ensures Normalise(anchor) == "bar#baz"
    ensures Normalise(Normalise(anchor)) != Normalise(anchor)
  {
    var w, rest := "?highlight=foo#", "bar#baz";
    NotIdempotentParts(anchor, w, rest);
    ShortRestKeepsHash(w, rest);
  }

  /** The pieces of the example: a highlight marker, then a rest shorter than it holding a `#`. */
  lemma NotIdempotentParts(anchor: string, w: string, rest: string)
    requires anchor == "?highlight=foo#bar#baz" && w == "?highlight=foo#" && rest == "bar#baz"
    ensures IsHighlightMarker(w) && |rest| < |w| && anchor == w + rest
    ensures '#' in rest && Normalise(rest) != rest
  {
    assert rest[3] == '#';
  }

  /** A highlight marker followed by fewer characters than it has: only the marker goes. */
  lemma ShortRestKeepsHash(w: string, rest: string)
    requires IsHighlightMarker(w) && |rest| < |w|
    ensures Normalise(w + rest) == rest
  {
    LeadingHighlight(w, rest);
  }

  /** The characters `str.rstrip('.html')` strips: a set, not a suffix. */
  const HtmlChars: set<char> := {'.', 'h', 't', 'm', 'l'}

  /**
   * `page.rstrip('.html')`: the page without its longest trailing run of `.`, `h`, `t`, `m`,
   * `l`. A lower-case `.html` always goes, and whatever such letters precede it go too; a page
   * whose last character is outside the set (such as an upper-case `L`) is kept whole.
   */
  function ModuleName(page: string): (r: string)
    ensures r <= page
    ensures |page| >= 5 && page[|page| - 5..] == ".html" ==> |r| <= |page| - 5
    ensures |page| > 0 && page[|page| - 1] !in HtmlChars ==> r == page
  {
    RStrip(page, HtmlChars)
  }

  lemma ModuleNameExamples()
    ensures ModuleName("re.html") == "re"
    ensures ModuleName("shutil.html") == "shuti"
    ensures ModuleName("xml.html") == "x"
    ensures ModuleName("re.HTML") == "re.HTML"
  {
    assert ModuleName("re.html") == "re" by {
      var r := ModuleName("re.html");
      assert |r| <= 2;
      assert "re.html"[1] == 'e' && 'e' !in HtmlChars;
    }
    assert ModuleName("shutil.html") == "shuti" by {
      var r := ModuleName("shutil.html");
      assert |r| <= 6;
      assert "shutil.html"[5] == 'l';
      assert "shutil.html"[4] == 'i' && 'i' !in HtmlChars;
    }
    assert ModuleName("xml.html") == "x" by {
      var r := ModuleName("xml.html");
      assert |r| <= 3;
      assert "xml.html"[0] == 'x' && 'x' !in HtmlChars;
    }
  }

  /** `rstrip('/')` on a version group leaves its digit. */
  lemma TrimVersion(v: string)
    ensures IsVersion(v) ==> RStrip(v, {'/'}) == v[..1]
  {
  }

  /** `rstrip('/')` on a topic group removes its one trailing `/` and leaves no `/`. */
  lemma TrimTopic(t: string)
    ensures IsTopic(t) ==> RStrip(t, {'/'}) == t[..|t| - 1] && '/' !in t[..|t| - 1]
  {
  }

  /** The fields `querydb` derives from a match before it queries. */
  datatype QueryKey = QueryKey(version: string, topic: string, moduleName: string, syntax: string)

  /**
   * Version and topic lose their one trailing `/` (`rstrip('/')`), the module is the page after
   * `rstrip('.html')`, and the keyword is the normalised anchor.
   */
  function KeyOf(m: UrlMatch): (k: QueryKey)
    ensures IsVersion(m.version) ==> k.version == m.version[..1] && (k.version == "3" || k.version == "2")
    ensures IsTopic(m.topic) ==> k.topic == m.topic[..|m.topic| - 1] && |k.topic| >= 1 && '/' !in k.topic
    ensures k.moduleName == ModuleName(m.page)
    ensures k.syntax == Normalise(m.anchor)
  {
    var v := RStrip(m.version, {'/'});
    var t := RStrip(m.topic, {'/'});
    TrimVersion(m.version);
    TrimTopic(m.topic);
    QueryKey(v, t, ModuleName(m.page), Normalise(m.anchor))
  }
}
