/**
 * String helpers that stand for the pieces of Python's `re` and `str` that the bot relies on:
 * the `\w` character class, a greedy run of one character class, substring containment,
 * `str.replace(old, '')` and `str.rstrip(chars)`.
 */
module Text {

  /** Python's `\w`, restricted to ASCII: a letter, a digit or the underscore. */
  predicate IsWordChar(c: char) {
    ('a' <= c <= 'z') || ('A' <= c <= 'Z') || ('0' <= c <= '9') || c == '_'
  }

  /**
   * End of the longest run of characters of one class that starts at `j`: what a greedy
   * `[class]*` consumes, and the only length after which a character outside the class can follow.
   */
  function RunEnd(s: string, j: nat, inClass: char -> bool): (e: nat)
    requires j <= |s|
    ensures j <= e <= |s|
    ensures forall k :: j <= k < e ==> inClass(s[k])
    ensures e == |s| || !inClass(s[e])
    decreases |s| - j
  {
    if j == |s| || !inClass(s[j]) then j else RunEnd(s, j + 1, inClass)
  }

  /** `w` occurs in `s` starting at index `k`. */
  predicate OccursAt(s: string, w: string, k: nat) {
    k + |w| <= |s| && s[k..k + |w|] == w
  }

  lemma OccursShift(s: string, w: string)
    requires |s| > 0 && !(w <= s)
    ensures (exists k: nat :: OccursAt(s, w, k)) <==> (exists k: nat :: OccursAt(s[1..], w, k))
  {
    if k: nat :| OccursAt(s, w, k) {
      assert k != 0;
      assert s[1..][k - 1..k - 1 + |w|] == s[k..k + |w|];
      assert OccursAt(s[1..], w, k - 1);
    }
    if k: nat :| OccursAt(s[1..], w, k) {
      assert s[1..][k..k + |w|] == s[k + 1..k + 1 + |w|];
      assert OccursAt(s, w, k + 1);
    }
  }

  /**
   * Substring containment, as SQL `LIKE '%w%'` tests it when `w` holds no wildcard:
   * true exactly when `w` occurs somewhere in `s` (the empty string occurs everywhere).
   */
  function Contains(s: string, w: string): (r: bool)
    ensures r <==> exists k: nat :: OccursAt(s, w, k)
    decreases |s|
  {
    if w <= s then
      assert OccursAt(s, w, 0);
      true
    else if |s| == 0 then
      false
    else
      OccursShift(s, w);
      Contains(s[1..], w)
  }

  /**
   * Python's `s.replace(w, '')`: scanning from the left, every occurrence of `w` that does not
   * overlap an occurrence already removed is deleted.
   */
  function RemoveAll(s: string, w: string): (r: string)
    requires |w| > 0
    ensures |r| <= |s|
    decreases |s|
  {
    if |s| < |w| then s
    else if s[..|w|] == w then RemoveAll(s[|w|..], w)
    else [s[0]] + RemoveAll(s[1..], w)
  }

  /** Removing a string that does not occur changes nothing. */
  lemma {:induction false} RemoveAllAbsent(s: string, w: string)
    requires |w| > 0
    requires forall k: nat :: !OccursAt(s, w, k)
    ensures RemoveAll(s, w) == s
    decreases |s|
  {
    if |s| >= |w| {
      assert !OccursAt(s, w, 0);
      forall k: nat ensures !OccursAt(s[1..], w, k) {
        assert !OccursAt(s, w, k + 1);
      }
      RemoveAllAbsent(s[1..], w);
    }
  }

  /** When `w` occurs in `s`, at least one whole copy of it is removed. */
  lemma {:induction false} RemoveAllShortens(s: string, w: string, k: nat)
    requires |w| > 0 && OccursAt(s, w, k)
    ensures |RemoveAll(s, w)| + |w| <= |s|
    decreases |s|
  {
    if s[..|w|] != w {
      assert k != 0;
      assert s[1..][k - 1..k - 1 + |w|] == s[k..k + |w|];
      RemoveAllShortens(s[1..], w, k - 1);
    }
  }

  /** `s` with every `c` deleted. */
  function Without(s: string, c: char): (r: string)
    ensures c !in r
    ensures forall x :: x != c ==> multiset(r)[x] == multiset(s)[x]
    decreases |s|
  {
    if s == [] then []
    else
      assert s == [s[0]] + s[1..];
      (if s[0] == c then [] else [s[0]]) + Without(s[1..], c)
  }

  /** Replacing a one-character string removes every copy of that character. */
  lemma {:induction false} RemoveAllChar(s: string, c: char)
    ensures RemoveAll(s, [c]) == Without(s, c)
    decreases |s|
  {
    if s != [] {
      RemoveAllChar(s[1..], c);
    }
  }

  /**
   * Python's `s.rstrip(chars)`: the longest prefix of `s` after which every character is one of
   * `chars`. It strips a trailing run of members of the set, not a suffix.
   */
  function RStrip(s: string, chars: set<char>): (r: string)
    ensures r <= s
    ensures forall k :: |r| <= k < |s| ==> s[k] in chars
    ensures r == [] || r[|r| - 1] !in chars
    decreases |s|
  {
    if |s| > 0 && s[|s| - 1] in chars then RStrip(s[..|s| - 1], chars) else s
  }
}
