/** `get_line_col`: the 1-based line and column of a byte offset. The text is walked by
    characters while a byte index runs alongside, so the offset is compared with byte
    positions while the column counts characters. */
module LineCol {

  /** The number of bytes the UTF-8 encoding of `c` takes. */
  function Utf8Width(c: char): (w: nat)
    ensures 1 <= w <= 4
    ensures c as int < 0x80 <==> w == 1
  {
    if c as int < 0x80 then 1
    else if c as int < 0x800 then 2
    else if c as int < 0x1_0000 then 3
    else 4
  }

  /** The byte index of the `k`-th character: the encoded width of the characters before it. */
  function ByteIndex(s: string, k: nat): (b: nat)
    requires k <= |s|
    ensures k <= b <= 4 * k
    ensures forall j :: 0 <= j < k ==> ByteIndex(s, j) < b
    decreases k
  {
    if k == 0 then 0 else ByteIndex(s, k - 1) + Utf8Width(s[k - 1])
  }

  /** The characters the loop visits before it stops: it stops at the first character whose
      byte index is `offset`, and otherwise runs through the whole text. */
  function VisitedCount(s: string, offset: nat): (k: nat)
    ensures k <= |s|
    ensures k < |s| ==> ByteIndex(s, k) == offset
    ensures forall j :: 0 <= j < k ==> ByteIndex(s, j) != offset
  {
    VisitedFrom(s, offset, 0)
  }

  function VisitedFrom(s: string, offset: nat, j: nat): (k: nat)
    requires j <= |s|
    requires forall i :: 0 <= i < j ==> ByteIndex(s, i) != offset
    ensures j <= k <= |s|
    ensures k < |s| ==> ByteIndex(s, k) == offset
    ensures forall i :: 0 <= i < k ==> ByteIndex(s, i) != offset
    decreases |s| - j
  {
    if j == |s| || ByteIndex(s, j) == offset then j else VisitedFrom(s, offset, j + 1)
  }

  /** The byte offset of the character position `k` of `s`. A position past the end lies as
      many bytes past the encoded text as it lies characters past the text. */
  function ByteOffset(s: string, k: nat): nat
  {
    if k <= |s| then ByteIndex(s, k) else ByteIndex(s, |s|) + (k - |s|)
  }

  /** The loop stopped at the byte offset of character position `k` visits exactly the `k`
      characters before it, or the whole text when `k` is past its end. */
  lemma VisitedAtByteOffset(s: string, k: nat)
    ensures VisitedCount(s, ByteOffset(s, k)) == if k < |s| then k else |s|
  {
    var b := ByteOffset(s, k);
    if k <= |s| {
      VisitedCountUnique(s, b, k);
    } else {
      assert forall j :: 0 <= j < |s| ==> ByteIndex(s, j) < ByteIndex(s, |s|) <= b;
      VisitedCountUnique(s, b, |s|);
    }
  }

  /** The number of newlines in `p`. */
  function NewlineCount(p: string): nat
  {
    if p == [] then 0
    else NewlineCount(p[..|p| - 1]) + (if p[|p| - 1] == '\n' then 1 else 0)
  }

  /** The count is the multiplicity of the newline in `p`. */
  lemma {:induction false} NewlineCountIsMultiplicity(p: string)
    ensures NewlineCount(p) == multiset(p)['\n']
  {
    if p != [] {
      assert p == p[..|p| - 1] + [p[|p| - 1]];
      NewlineCountIsMultiplicity(p[..|p| - 1]);
    }
  }

  /** The number of characters after the last newline of `p` (all of `p` without one). */
  function LastLineLength(p: string): (n: nat)
    ensures n <= |p|
    ensures forall i :: |p| - n <= i < |p| ==> p[i] != '\n'
    ensures n < |p| ==> p[|p| - n - 1] == '\n'
  {
    if p == [] then 0
    else if p[|p| - 1] == '\n' then 0
    else LastLineLength(p[..|p| - 1]) + 1
  }

  /** The position `get_line_col` reports: one more than the number of newlines visited,
      and one more than the number of characters visited since the last of them. */
  function LineColOf(s: string, offset: nat): (r: (nat, nat))
    ensures var p := s[..VisitedCount(s, offset)];
      && r.0 == 1 + multiset(p)['\n']
      && 1 <= r.1 <= |p| + 1
      && (forall i :: |p| - (r.1 - 1) <= i < |p| ==> p[i] != '\n')
      && (r.1 - 1 < |p| ==> p[|p| - r.1] == '\n')
  {
    var p := s[..VisitedCount(s, offset)];
    NewlineCountIsMultiplicity(p);
    (1 + NewlineCount(p), 1 + LastLineLength(p))
  }

  /** `get_line_col`. */
  method GetLineCol(content: string, offset: nat) returns (line: nat, col: nat)
    ensures (line, col) == LineColOf(content, offset)
  {
    line := 1;
    col := 1;
    var i := 0;
    var k := 0;
    while k < |content|
      invariant k <= |content| && i == ByteIndex(content, k)
      invariant forall j :: 0 <= j < k ==> ByteIndex(content, j) != offset
      invariant line == 1 + NewlineCount(content[..k]) && col == 1 + LastLineLength(content[..k])
    {
      if i == offset {
        break;
      }
      var c := content[k];
      if c == '\n' {
        line := line + 1;
        col := 1;
      } else {
        col := col + 1;
      }
      CountsSnoc(content, k);
      i := i + Utf8Width(c);
      k := k + 1;
    }
    VisitedCountUnique(content, offset, k);
    assert LineColOf(content, offset) == (1 + NewlineCount(content[..k]), 1 + LastLineLength(content[..k]));
  }

  /** One more character visited updates the newline count and the last line's length. */
  lemma CountsSnoc(s: string, k: nat)
    requires k < |s|
    ensures NewlineCount(s[..k + 1]) == NewlineCount(s[..k]) + (if s[k] == '\n' then 1 else 0)
    ensures LastLineLength(s[..k + 1]) == if s[k] == '\n' then 0 else LastLineLength(s[..k]) + 1
  {
    assert s[..k + 1][..k] == s[..k];
  }

  /** The loop's stopping point is determined: a `k` that meets the stopping condition is
      `VisitedCount`. */
  lemma VisitedCountUnique(s: string, offset: nat, k: nat)
    requires k <= |s|
    requires k < |s| ==> ByteIndex(s, k) == offset
    requires forall j :: 0 <= j < k ==> ByteIndex(s, j) != offset
    ensures VisitedCount(s, offset) == k
  {
  }

  /** Offset 0 is line 1, column 1. */
  lemma LineColAtStart(s: string)
    ensures LineColOf(s, 0) == (1, 1)
  {
    VisitedCountUnique(s, 0, 0);
  }

  /** On ASCII text bytes and characters coincide: the loop visits `min(offset, |s|)`
      characters. */
  lemma {:induction false} AsciiVisited(s: string, offset: nat)
    requires forall i :: 0 <= i < |s| ==> s[i] as int < 0x80
    ensures VisitedCount(s, offset) == if offset < |s| then offset else |s|
  {
    AsciiByteIndex(s, |s|);
    var k := if offset < |s| then offset else |s|;
    forall j | 0 <= j <= k
      ensures ByteIndex(s, j) == j
    {
      AsciiByteIndex(s, j);
    }
    VisitedCountUnique(s, offset, k);
  }

  lemma {:induction false} AsciiByteIndex(s: string, k: nat)
    requires k <= |s|
    requires forall i :: 0 <= i < |s| ==> s[i] as int < 0x80
    ensures ByteIndex(s, k) == k
    decreases k
  {
    if k > 0 {
      AsciiByteIndex(s, k - 1);
    }
  }

  /** Offsets are bytes, columns are characters: in `"éa"` the `a` is at byte 2 and is
      reported in column 2, and byte 1, inside the two-byte `é`, matches no character, so
      the whole text is walked and the column is 3. */
  lemma MultiByteExample()
    ensures LineColOf("éa", 2) == (1, 2)
    ensures LineColOf("éa", 1) == (1, 3)
  {
    var s := "éa";
    assert ByteIndex(s, 0) == 0 && ByteIndex(s, 1) == 2 && ByteIndex(s, 2) == 3;
    VisitedCountUnique(s, 2, 1);
    VisitedCountUnique(s, 1, 2);
    assert s[..1] == [s[0]];
    assert s[..2] == s;
  }
}
