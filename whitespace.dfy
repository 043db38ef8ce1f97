/** Python's `str.strip()` with no argument: remove every leading and every
    trailing character for which `str.isspace()` holds. Like CPython, the
    model scans forward from the start for the first non-whitespace index
    `i`, then backward from the end, never below `i`, for the end `j`, and
    returns `s[i..j]`. */
module Whitespace {

  /** The code points Python 3 reports as whitespace (`str.isspace()`):
      bidirectional class WS, B or S, or general category Zs. */
  predicate IsSpace(c: char)
    ensures IsSpace(c) ==> '\U{9}' <= c <= '\U{3000}'
    ensures c == '\U{180E}' || c == '\U{200B}' || c == '\U{FEFF}' ==> !IsSpace(c)
  {
    ('\U{9}' <= c <= '\U{D}') || ('\U{1C}' <= c <= '\U{20}') ||
    c == '\U{85}' || c == '\U{A0}' || c == '\U{1680}' ||
    ('\U{2000}' <= c <= '\U{200A}') || c == '\U{2028}' || c == '\U{2029}' ||
    c == '\U{202F}' || c == '\U{205F}' || c == '\U{3000}'
  }

  predicate AllSpace(s: string)
  {
    forall k :: 0 <= k < |s| ==> IsSpace(s[k])
  }

  /** Neither the first nor the last character is whitespace. */
  predicate NoEdgeSpace(s: string)
  {
    s == [] || (!IsSpace(s[0]) && !IsSpace(s[|s| - 1]))
  }

  /** `s[i..j]` is what stripping `s` leaves: only whitespace lies outside
      it, and it is empty or starts and ends with a non-whitespace character. */
  predicate IsStripOf(s: string, i: int, j: int)
  {
    0 <= i <= j <= |s| &&
    (forall k :: 0 <= k < i ==> IsSpace(s[k])) &&
    (forall k :: j <= k < |s| ==> IsSpace(s[k])) &&
    (i == j || (!IsSpace(s[i]) && !IsSpace(s[j - 1])))
  }

  /** The first index at or after `i` that does not hold whitespace. */
  function SkipForward(s: string, i: nat): (r: nat)
    requires i <= |s|
    ensures i <= r <= |s|
    ensures forall k :: i <= k < r ==> IsSpace(s[k])
    ensures r == |s| || !IsSpace(s[r])
    decreases |s| - i
  {
    if i < |s| && IsSpace(s[i]) then SkipForward(s, i + 1) else i
  }

  /** The end of `s[lo..j]` once its trailing whitespace is dropped. */
  function SkipBackward(s: string, lo: nat, j: nat): (r: nat)
    requires lo <= j <= |s|
    ensures lo <= r <= j
    ensures forall k :: r <= k < j ==> IsSpace(s[k])
    ensures r == lo || !IsSpace(s[r - 1])
  {
    if lo < j && IsSpace(s[j - 1]) then SkipBackward(s, lo, j - 1) else j
  }

  /** The bounds `(i, j)` of the stripped slice. */
  function StripBounds(s: string): (b: (nat, nat))
    ensures IsStripOf(s, b.0, b.1)
  {
    var i := SkipForward(s, 0);
    (i, SkipBackward(s, i, |s|))
  }

  /** `s.strip()`. */
  function Strip(s: string): (r: string)
    ensures |r| <= |s|
    ensures NoEdgeSpace(r)
  {
    var b := StripBounds(s);
    s[b.0..b.1]
  }

  /** There is only one way to strip a string: whatever bounds meet
      `IsStripOf` delimit the same slice. */
  lemma StripBoundsUnique(s: string, i: int, j: int, i': int, j': int)
    requires IsStripOf(s, i, j) && IsStripOf(s, i', j')
    ensures s[i..j] == s[i'..j']
  {
  }

  /** `Strip` returns the slice given by any bounds that meet `IsStripOf`. */
  lemma StripAt(s: string, i: int, j: int)
    requires IsStripOf(s, i, j)
    ensures Strip(s) == s[i..j]
  {
    var b := StripBounds(s);
    StripBoundsUnique(s, b.0, b.1, i, j);
  }

  /** The stripped value is the input with only whitespace removed from its
      two ends: `s == w1 + Strip(s) + w2` with whitespace-only `w1`, `w2`. */
  lemma StripSplits(s: string) returns (w1: string, w2: string)
    ensures AllSpace(w1) && AllSpace(w2)
    ensures s == w1 + Strip(s) + w2
  {
    var b := StripBounds(s);
    var i, j := b.0, b.1;
    w1, w2 := s[..i], s[j..];
    assert forall k :: 0 <= k < |w1| ==> w1[k] == s[k];
    assert forall k :: 0 <= k < |w2| ==> w2[k] == s[j + k];
    assert Strip(s) == s[i..j];
    assert s == w1 + s[i..j] + w2;
  }

  /** For whitespace-only `w1`, `w2` and a core `r` without edge whitespace,
      stripping `w1 + r + w2` gives exactly `r`. */
  lemma StripCharacterized(w1: string, r: string, w2: string)
    requires AllSpace(w1) && AllSpace(w2) && NoEdgeSpace(r)
    ensures Strip(w1 + r + w2) == r
  {
    var s := w1 + r + w2;
    var i, j := |w1|, |w1| + |r|;
    assert forall k :: 0 <= k < i ==> s[k] == w1[k];
    assert forall k :: j <= k < |s| ==> s[k] == w2[k - j];
    assert forall k :: i <= k < j ==> s[k] == r[k - i];
    assert IsStripOf(s, i, j);
    StripAt(s, i, j);
    assert s[i..j] == r;
  }

  /** Stripping twice removes nothing more. */
  lemma StripIdempotent(s: string)
    ensures Strip(Strip(s)) == Strip(s)
  {
  }

  lemma AllSpaceConcat(a: string, b: string)
    requires AllSpace(a) && AllSpace(b)
    ensures AllSpace(a + b)
  {
  }

  lemma Regroup(a: string, b: string, c: string, d: string, e: string)
    ensures a + (b + c + d) + e == (a + b) + c + (d + e)
  {
  }

  /** Extra whitespace around the input does not change the stripped value. */
  lemma StripIgnoresPadding(w1: string, s: string, w2: string)
    requires AllSpace(w1) && AllSpace(w2)
    ensures Strip(w1 + s + w2) == Strip(s)
  {
    var u1, u2 := StripSplits(s);
    var r := Strip(s);
    AllSpaceConcat(w1, u1);
    AllSpaceConcat(u2, w2);
    Regroup(w1, u1, r, u2, w2);
    StripCharacterized(w1 + u1, r, u2 + w2);
  }

  /** Non-ASCII whitespace such as U+00A0 and U+3000 is stripped; U+200B,
      which `str.isspace()` rejects, is kept. */
  lemma StripUnicodeExamples()
    ensures Strip("\U{A0}abc\U{3000}") == "abc"
    ensures Strip("\U{200B}abc") == "\U{200B}abc"
  {
    StripCharacterized(['\U{A0}'], "abc", ['\U{3000}']);
    assert ['\U{A0}'] + "abc" + ['\U{3000}'] == "\U{A0}abc\U{3000}";
    StripCharacterized([], "\U{200B}abc", []);
    assert [] + "\U{200B}abc" + [] == "\U{200B}abc";
  }
}
