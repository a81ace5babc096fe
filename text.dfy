/** The few `str` operations the linter relies on: `find`, `char::is_whitespace` and `trim`. */
module Text {

  datatype Option<T> = None | Some(value: T)

  /** `pat` occurs in `s` starting at index `i`. */
  predicate OccursAt(s: string, pat: string, i: nat)
  {
    i + |pat| <= |s| && s[i..i + |pat|] == pat
  }

  /** `k` is the first occurrence of `pat` in `s` at or after `from`. */
  predicate FirstFrom(s: string, pat: string, from: nat, k: nat)
  {
    from <= k && OccursAt(s, pat, k) && forall j :: from <= j < k ==> !OccursAt(s, pat, j)
  }

  /** `s[from..].find(pat)`, reported as an index into `s` (the first occurrence at or after
      `from`), or None when there is none. */
  function Find(s: string, pat: string, from: nat): (r: Option<nat>)
    ensures r.Some? ==> FirstFrom(s, pat, from, r.value)
    ensures r.None? ==> forall j :: from <= j ==> !OccursAt(s, pat, j)
    decreases |s| - from
  {
    if from + |pat| > |s| then None
    else if OccursAt(s, pat, from) then Some(from)
    else Find(s, pat, from + 1)
  }

  /** The first occurrence is unique, so `FirstFrom` pins down what `Find` returns. */
  lemma FirstFromUnique(s: string, pat: string, from: nat, k1: nat, k2: nat)
    requires FirstFrom(s, pat, from, k1) && FirstFrom(s, pat, from, k2)
    ensures k1 == k2
  {
  }

  /** The Unicode White_Space property, which `char::is_whitespace` (and so `str::trim`) uses. */
  predicate IsWhitespace(c: char)
  {
    || c == ' '
    || ('\t' <= c <= '\r')
    || c == '\U{0085}' || c == '\U{00A0}' || c == '\U{1680}'
    || ('\U{2000}' <= c <= '\U{200A}')
    || c == '\U{2028}' || c == '\U{2029}' || c == '\U{202F}' || c == '\U{205F}' || c == '\U{3000}'
  }

  /** The first index at or after `i` that does not hold whitespace, or `|s|`. */
  function SkipForward(s: string, i: nat): (k: nat)
    requires i <= |s|
    ensures i <= k <= |s|
    decreases |s| - i
  {
    if i < |s| && IsWhitespace(s[i]) then SkipForward(s, i + 1) else i
  }

  lemma {:induction false} SkipForwardSpec(s: string, i: nat)
    requires i <= |s|
    ensures var k := SkipForward(s, i);
      && (forall j :: i <= j < k ==> IsWhitespace(s[j]))
      && (k < |s| ==> !IsWhitespace(s[k]))
    decreases |s| - i
  {
    if i < |s| && IsWhitespace(s[i]) {
      SkipForwardSpec(s, i + 1);
    }
  }

  /** The least `k <= j` such that `s[k..j]` is all whitespace. */
  function SkipBackward(s: string, j: nat): (k: nat)
    requires j <= |s|
    ensures k <= j
  {
    if j > 0 && IsWhitespace(s[j - 1]) then SkipBackward(s, j - 1) else j
  }

  lemma {:induction false} SkipBackwardSpec(s: string, j: nat)
    requires j <= |s|
    ensures var k := SkipBackward(s, j);
      && (forall i :: k <= i < j ==> IsWhitespace(s[i]))
      && (k > 0 ==> !IsWhitespace(s[k - 1]))
  {
    if j > 0 && IsWhitespace(s[j - 1]) {
      SkipBackwardSpec(s, j - 1);
    }
  }

  /** `str::trim`: what is left once the whitespace at both ends is gone. */
  function Trim(s: string): string
  {
    var a := SkipForward(s, 0);
    SkipForwardSpec(s, 0);
    SkipBackwardSpec(s, |s|);
    if a == |s| then [] else s[a..SkipBackward(s, |s|)]
  }

  /** The trim is the slice `s[a..a + |r|]`, where `a` is the number of leading whitespace
      characters, everything outside it is whitespace, and it neither starts nor ends with
      whitespace; it is empty exactly when `s` is all whitespace. */
  lemma TrimSpec(s: string)
    ensures var r, a := Trim(s), SkipForward(s, 0);
            && a + |r| <= |s| && r == s[a..a + |r|]
            && (forall i :: 0 <= i < a ==> IsWhitespace(s[i]))
            && (forall i :: a + |r| <= i < |s| ==> IsWhitespace(s[i]))
            && (r != [] ==> !IsWhitespace(r[0]) && !IsWhitespace(r[|r| - 1]))
            && (r == [] <==> a == |s|)
  {
    SkipForwardSpec(s, 0);
    SkipBackwardSpec(s, |s|);
  }

  /** A text that has nothing to trim is its own trim. */
  lemma TrimOfTrimmed(t: string)
    requires t != [] ==> !IsWhitespace(t[0]) && !IsWhitespace(t[|t| - 1])
    ensures Trim(t) == t
  {
    if t != [] {
      assert SkipForward(t, 0) == 0;
      assert SkipBackward(t, |t|) == |t|;
      assert t[0..|t|] == t;
    }
  }

  /** Padding a trimmed, non-empty text with one space on each side and trimming again gives
      the text back. */
  lemma TrimPadded(t: string)
    requires t != [] && !IsWhitespace(t[0]) && !IsWhitespace(t[|t| - 1])
    ensures Trim(" " + t + " ") == t
  {
    var p := " " + t + " ";
    assert p[1] == t[0] && p[|p| - 2] == t[|t| - 1];
    assert SkipForward(p, 1) == 1;
    assert SkipForward(p, 0) == 1;
    assert SkipBackward(p, |p| - 1) == |p| - 1;
    assert SkipBackward(p, |p|) == |p| - 1;
    assert p[1..|p| - 1] == t;
  }

  /** The trim of a text is empty exactly when the text is all whitespace. */
  lemma TrimEmptyIffAllWhitespace(s: string)
    ensures Trim(s) == [] <==> forall i :: 0 <= i < |s| ==> IsWhitespace(s[i])
  {
    TrimSpec(s);
  }
}
