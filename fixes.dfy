/** `apply_fixes`: the proposed fixes are sorted by descending start (stably, so fixes with
    the same start keep the order the rules emitted them in) and applied one after another to
    one buffer; a fix reaching past the current buffer is skipped. */
module Fixes {
  import opened Spans
  import opened Text
  import opened LinterData

  /** The fixes the diagnostics propose, in emission order. */
  function FixesOf(ds: seq<Diagnostic>): (r: seq<Fix>)
    ensures |r| <= |ds|
  {
    if |ds| == 0 then []
    else
      var last := ds[|ds| - 1];
      FixesOf(ds[..|ds| - 1]) + (if last.fix.Some? then [last.fix.value] else [])
  }

  /** A fix is proposed exactly when some diagnostic carries it. */
  lemma {:induction false} FixesOfMembers(ds: seq<Diagnostic>)
    ensures forall f :: f in FixesOf(ds) <==> exists d :: d in ds && d.fix == Some(f)
    decreases |ds|
  {
    if |ds| > 0 {
      var init, last := ds[..|ds| - 1], ds[|ds| - 1];
      FixesOfMembers(init);
      assert ds == init + [last];
      forall f ensures f in FixesOf(ds) <==> exists d :: d in ds && d.fix == Some(f) {
        if f in FixesOf(ds) && !(f in FixesOf(init)) {
          assert last in ds && last.fix == Some(f);
        }
        if exists d :: d in ds && d.fix == Some(f) {
          var d :| d in ds && d.fix == Some(f);
          if d != last {
            assert d in init;
          }
        }
      }
    }
  }

  lemma {:induction false} FixesOfAppend(a: seq<Diagnostic>, b: seq<Diagnostic>)
    ensures FixesOf(a + b) == FixesOf(a) + FixesOf(b)
    decreases |b|
  {
    if |b| == 0 {
      assert a + b == a;
    } else {
      var b', x := b[..|b| - 1], b[|b| - 1];
      var own := if x.fix.Some? then [x.fix.value] else [];
      assert b == b' + [x];
      assert a + b == (a + b') + [x];
      calc {
        FixesOf(a + b);
        { FixesOfSnoc(a + b', x); }
        FixesOf(a + b') + own;
        { FixesOfAppend(a, b'); }
        (FixesOf(a) + FixesOf(b')) + own;
        FixesOf(a) + (FixesOf(b') + own);
        { FixesOfSnoc(b', x); }
        FixesOf(a) + FixesOf(b);
      }
    }
  }

  lemma FixesOfSnoc(a: seq<Diagnostic>, x: Diagnostic)
    ensures FixesOf(a + [x]) == FixesOf(a) + (if x.fix.Some? then [x.fix.value] else [])
  {
    assert (a + [x])[..|a|] == a;
  }

  /** `replace_range` needs `start <= end`; the bound check does not test it. */
  predicate WellFormed(f: Fix)
  {
    f.span.start <= f.span.end
  }

  predicate AllWellFormed(fs: seq<Fix>)
  {
    forall f :: f in fs ==> WellFormed(f)
  }

  /** One step of the loop: a fix whose start or end lies past the buffer leaves it as it is;
      otherwise the text before the start and after the end is kept and the replacement sits
      between. */
  function ApplyFix(content: string, f: Fix): (r: string)
    requires WellFormed(f)
    ensures f.span.end > |content| ==> r == content
    ensures f.span.end <= |content| ==>
              && |r| == |content| - (f.span.end - f.span.start) + |f.replacement|
              && r[..f.span.start] == content[..f.span.start]
              && r[f.span.start..f.span.start + |f.replacement|] == f.replacement
              && r[f.span.start + |f.replacement|..] == content[f.span.end..]
  {
    if f.span.start > |content| || f.span.end > |content| then content
    else
      var r := content[..f.span.start] + f.replacement + content[f.span.end..];
      assert r[..f.span.start] == content[..f.span.start];
      assert r[f.span.start..f.span.start + |f.replacement|] == f.replacement;
      assert r[f.span.start + |f.replacement|..] == content[f.span.end..];
      r
  }

  /** The buffer after applying `fs` in list order. */
  function ApplyInOrder(content: string, fs: seq<Fix>): string
    requires AllWellFormed(fs)
  {
    if fs == [] then content
    else
      assert fs[|fs| - 1] in fs;
      assert forall f :: f in fs[..|fs| - 1] ==> f in fs;
      ApplyFix(ApplyInOrder(content, fs[..|fs| - 1]), fs[|fs| - 1])
  }

  /** Inserts `f` into a list sorted by descending start, after every fix with a start at
      least as large: fixes with equal starts stay in arrival order. */
  function InsertByStartDesc(sorted: seq<Fix>, f: Fix): (r: seq<Fix>)
    ensures multiset(r) == multiset(sorted) + multiset{f}
    ensures forall g :: g in r <==> g in sorted || g == f
  {
    if sorted == [] then [f]
    else if sorted[0].span.start < f.span.start then [f] + sorted
    else
      assert sorted == [sorted[0]] + sorted[1..];
      [sorted[0]] + InsertByStartDesc(sorted[1..], f)
  }

  /** `fixes.sort_by(|a, b| b.span.start.cmp(&a.span.start))`, a stable sort. */
  function SortByStartDesc(fs: seq<Fix>): (r: seq<Fix>)
    ensures multiset(r) == multiset(fs)
    ensures forall g :: g in r <==> g in fs
  {
    if fs == [] then []
    else
      assert fs == fs[..|fs| - 1] + [fs[|fs| - 1]];
      InsertByStartDesc(SortByStartDesc(fs[..|fs| - 1]), fs[|fs| - 1])
  }

  predicate SortedByStartDesc(fs: seq<Fix>)
  {
    forall i, j :: 0 <= i < j < |fs| ==> fs[i].span.start >= fs[j].span.start
  }

  /** The fixes of `fs` that start at `v`, in list order. */
  function WithStart(fs: seq<Fix>, v: nat): seq<Fix>
  {
    if fs == [] then []
    else (if fs[0].span.start == v then [fs[0]] else []) + WithStart(fs[1..], v)
  }

  /** When no fix starts at `v`, none is kept. */
  lemma {:induction false} WithStartNone(fs: seq<Fix>, v: nat)
    requires forall i :: 0 <= i < |fs| ==> fs[i].span.start != v
    ensures WithStart(fs, v) == []
    decreases |fs|
  {
    if fs != [] {
      WithStartNone(fs[1..], v);
    }
  }

  lemma {:induction false} InsertSorted(sorted: seq<Fix>, f: Fix)
    requires SortedByStartDesc(sorted)
    ensures SortedByStartDesc(InsertByStartDesc(sorted, f))
    decreases |sorted|
  {
    if sorted != [] && sorted[0].span.start >= f.span.start {
      InsertSorted(sorted[1..], f);
      var rest := InsertByStartDesc(sorted[1..], f);
      var r := [sorted[0]] + rest;
      forall j | 0 < j < |r|
        ensures sorted[0].span.start >= r[j].span.start
      {
        assert r[j] == rest[j - 1];
        assert rest[j - 1] in rest;
      }
    }
  }

  lemma {:induction false} InsertWithStart(sorted: seq<Fix>, f: Fix, v: nat)
    requires SortedByStartDesc(sorted)
    ensures WithStart(InsertByStartDesc(sorted, f), v)
         == WithStart(sorted, v) + (if f.span.start == v then [f] else [])
    decreases |sorted|, 1
  {
    if sorted == [] {
      WithStartCons(f, [], v);
      assert [f] + [] == [f];
    } else if sorted[0].span.start < f.span.start {
      InsertInFront(sorted, f, v);
    } else {
      InsertBehind(sorted, f, v);
    }
  }

  lemma InsertInFront(sorted: seq<Fix>, f: Fix, v: nat)
    requires SortedByStartDesc(sorted) && sorted != [] && sorted[0].span.start < f.span.start
    ensures WithStart(InsertByStartDesc(sorted, f), v)
         == WithStart(sorted, v) + (if f.span.start == v then [f] else [])
  {
    WithStartCons(f, sorted, v);
    if f.span.start == v {
      WithStartNone(sorted, v);
    }
  }

  lemma InsertBehindUnfold(sorted: seq<Fix>, f: Fix)
    requires sorted != [] && sorted[0].span.start >= f.span.start
    ensures InsertByStartDesc(sorted, f) == [sorted[0]] + InsertByStartDesc(sorted[1..], f)
  {
  }

  lemma {:induction false} InsertBehind(sorted: seq<Fix>, f: Fix, v: nat)
    requires SortedByStartDesc(sorted) && sorted != [] && sorted[0].span.start >= f.span.start
    ensures WithStart(InsertByStartDesc(sorted, f), v)
         == WithStart(sorted, v) + (if f.span.start == v then [f] else [])
    decreases |sorted|, 0
  {
    var own := if f.span.start == v then [f] else [];
    var x, rest := sorted[0], sorted[1..];
    var h := if x.span.start == v then [x] else [];
    assert sorted == [x] + rest;
    calc {
      WithStart(InsertByStartDesc(sorted, f), v);
      { InsertBehindUnfold(sorted, f); }
      WithStart([x] + InsertByStartDesc(rest, f), v);
      { WithStartCons(x, InsertByStartDesc(rest, f), v); }
      h + WithStart(InsertByStartDesc(rest, f), v);
      { InsertWithStart(rest, f, v); }
      h + (WithStart(rest, v) + own);
      (h + WithStart(rest, v)) + own;
      { WithStartCons(x, rest, v); }
      WithStart(sorted, v) + own;
    }
  }

  /** The sort orders by descending start, permutes its input and is stable: the fixes with
      any one start come out in the order they went in. */
  lemma SortByStartDescCorrect(fs: seq<Fix>)
    ensures SortedByStartDesc(SortByStartDesc(fs))
    ensures multiset(SortByStartDesc(fs)) == multiset(fs)
    ensures forall v :: WithStart(SortByStartDesc(fs), v) == WithStart(fs, v)
  {
    SortSorted(fs);
    forall v
      ensures WithStart(SortByStartDesc(fs), v) == WithStart(fs, v)
    {
      SortStable(fs, v);
    }
  }

  lemma {:induction false} SortSorted(fs: seq<Fix>)
    ensures SortedByStartDesc(SortByStartDesc(fs))
    decreases |fs|
  {
    if fs != [] {
      var init := fs[..|fs| - 1];
      SortSorted(init);
      InsertSorted(SortByStartDesc(init), fs[|fs| - 1]);
    }
  }

  lemma {:induction false} SortStable(fs: seq<Fix>, v: nat)
    ensures WithStart(SortByStartDesc(fs), v) == WithStart(fs, v)
    decreases |fs|
  {
    if fs != [] {
      var init := fs[..|fs| - 1];
      var last := fs[|fs| - 1];
      SortStable(init, v);
      SortSorted(init);
      SortSnoc(fs);
      InsertWithStart(SortByStartDesc(init), last, v);
      SplitLast(fs);
      WithStartSnoc(init, last, v);
    }
  }

  lemma SplitLast<T>(s: seq<T>)
    requires s != []
    ensures s == s[..|s| - 1] + [s[|s| - 1]]
  {
  }

  lemma SortSnoc(fs: seq<Fix>)
    requires fs != []
    ensures SortByStartDesc(fs) == InsertByStartDesc(SortByStartDesc(fs[..|fs| - 1]), fs[|fs| - 1])
  {
  }

  lemma WithStartSnoc(a: seq<Fix>, f: Fix, v: nat)
    ensures WithStart(a + [f], v) == WithStart(a, v) + (if f.span.start == v then [f] else [])
  {
    WithStartAppend(a, [f], v);
    assert WithStart([f], v) == (if f.span.start == v then [f] else []) + WithStart([], v);
  }

  lemma {:induction false} WithStartAppend(a: seq<Fix>, b: seq<Fix>, v: nat)
    ensures WithStart(a + b, v) == WithStart(a, v) + WithStart(b, v)
    decreases |a|
  {
    if a == [] {
      assert a + b == b;
    } else {
      var x, t := a[0], a[1..];
      var h := if x.span.start == v then [x] else [];
      assert a == [x] + t;
      assert a + b == [x] + (t + b);
      calc {
        WithStart(a + b, v);
        { WithStartCons(x, t + b, v); }
        h + WithStart(t + b, v);
        { WithStartAppend(t, b, v); }
        h + (WithStart(t, v) + WithStart(b, v));
        (h + WithStart(t, v)) + WithStart(b, v);
        { WithStartCons(x, t, v); }
        WithStart(a, v) + WithStart(b, v);
      }
    }
  }

  lemma WithStartCons(x: Fix, t: seq<Fix>, v: nat)
    ensures WithStart([x] + t, v) == (if x.span.start == v then [x] else []) + WithStart(t, v)
  {
    assert ([x] + t)[0] == x && ([x] + t)[1..] == t;
  }

  /** Fixes listed with strictly increasing starts, as one rule emits them for disjoint
      matches, come out of the sort reversed. */
  lemma {:induction false} SortIncreasingIsReverse(fs: seq<Fix>)
    requires forall i, j :: 0 <= i < j < |fs| ==> fs[i].span.start < fs[j].span.start
    ensures SortByStartDesc(fs) == Reverse(fs)
    decreases |fs|
  {
    if fs != [] {
      var init := fs[..|fs| - 1];
      var last := fs[|fs| - 1];
      SortIncreasingIsReverse(init);
      if init != [] {
        assert Reverse(init)[0] == init[|init| - 1];
        assert Reverse(init)[0].span.start < last.span.start;
      }
    }
  }

  function Reverse(fs: seq<Fix>): (r: seq<Fix>)
    ensures |r| == |fs|
    ensures forall i :: 0 <= i < |fs| ==> r[i] == fs[|fs| - 1 - i]
  {
    if fs == [] then [] else [fs[|fs| - 1]] + Reverse(fs[..|fs| - 1])
  }

  /** `fs` lists fixes from left to right, each starting at or after the end of the one
      before (and at or after `pos`), all inside a text of length `len`. */
  predicate Ascending(fs: seq<Fix>, pos: nat, len: nat)
    decreases |fs|
  {
    pos <= len && (fs != [] ==> pos <= fs[0].span.start <= fs[0].span.end && Ascending(fs[1..], fs[0].span.end, len))
  }

  /** A reference for what right-to-left application should achieve: every fix of the
      ascending list `fs` put in place at once, reading `content` left to right from `pos`. */
  function Simultaneous(content: string, fs: seq<Fix>, pos: nat): string
    requires Ascending(fs, pos, |content|)
    decreases |fs|
  {
    if fs == [] then content[pos..]
    else
      assert fs[0].span.end <= |content| by { assert Ascending(fs[1..], fs[0].span.end, |content|); }
      content[pos..fs[0].span.start] + fs[0].replacement + Simultaneous(content, fs[1..], fs[0].span.end)
  }

  lemma {:induction false} AscendingWellFormed(fs: seq<Fix>, pos: nat, len: nat)
    requires Ascending(fs, pos, len)
    ensures AllWellFormed(fs) && AllWellFormed(Reverse(fs))
    ensures fs != [] ==> fs[|fs| - 1].span.end <= len
    ensures forall i :: 0 <= i < |fs| ==> pos <= fs[i].span.start && fs[i].span.end <= len
    decreases |fs|
  {
    if fs != [] {
      AscendingWellFormed(fs[1..], fs[0].span.end, len);
      assert fs == [fs[0]] + fs[1..];
      forall f | f in Reverse(fs) ensures WellFormed(f) {
        var i :| 0 <= i < |fs| && Reverse(fs)[i] == f;
        assert fs[|fs| - 1 - i] in fs;
      }
    }
  }

  /** Applying an ascending list of fixes right to left (the order of descending starts)
      puts every fix where it was meant to go: each fix works on text the later-applied
      fixes have not moved. */
  lemma {:induction false} RightToLeftIsSimultaneous(content: string, fs: seq<Fix>, pos: nat)
    requires Ascending(fs, pos, |content|)
    ensures AllWellFormed(Reverse(fs))
    ensures ApplyInOrder(content, Reverse(fs)) == content[..pos] + Simultaneous(content, fs, pos)
    decreases |fs|
  {
    AscendingWellFormed(fs, pos, |content|);
    if fs == [] {
      assert content == content[..pos] + content[pos..];
    } else {
      var f, tail := fs[0], fs[1..];
      RightToLeftIsSimultaneous(content, tail, f.span.end);
      ReverseCons(fs);
      ApplyInOrderSnoc(content, Reverse(tail), f);
      ApplyLast(content, ApplyInOrder(content, Reverse(tail)), f, pos, Simultaneous(content, tail, f.span.end));
    }
  }

  lemma {:induction false} ReverseCons(fs: seq<Fix>)
    requires fs != []
    ensures Reverse(fs) == Reverse(fs[1..]) + [fs[0]]
    decreases |fs|
  {
    if |fs| > 1 {
      var init, last := fs[..|fs| - 1], fs[|fs| - 1];
      ReverseCons(init);
      assert init[1..] == fs[1..][..|fs| - 2];
      assert fs[1..][|fs| - 2] == last;
      assert init[0] == fs[0];
    }
  }

  lemma ApplyInOrderSnoc(content: string, fs: seq<Fix>, f: Fix)
    requires AllWellFormed(fs + [f])
    ensures AllWellFormed(fs) && WellFormed(f)
    ensures ApplyInOrder(content, fs + [f]) == ApplyFix(ApplyInOrder(content, fs), f)
  {
    assert (fs + [f])[..|fs|] == fs;
    assert forall g :: g in fs ==> g in fs + [f];
    assert f in fs + [f];
  }

  /** The last fix applied, the leftmost, works on text the others did not move. */
  lemma ApplyLast(content: string, before: string, f: Fix, pos: nat, rest: string)
    requires pos <= f.span.start <= f.span.end <= |content|
    requires before == content[..f.span.end] + rest
    ensures ApplyFix(before, f) == content[..pos] + (content[pos..f.span.start] + f.replacement + rest)
  {
    assert before[..f.span.start] == content[..f.span.start];
    assert before[f.span.end..] == rest;
    assert content[..f.span.start] == content[..pos] + content[pos..f.span.start];
  }

  /** `apply_fixes` on the original text. `written` is the text handed to `fs::write` (None
      when nothing is written) and `writeSucceeds` stands for that write's outcome: the
      count is the number of proposed fixes, skipped ones included, or 0 when the write
      fails. */
  method ApplyFixes(sourceFile: SourceFile, diagnostics: seq<Diagnostic>, writeSucceeds: bool)
    returns (fixedCount: nat, written: Option<string>)
    requires AllWellFormed(FixesOf(diagnostics))
    ensures FixesOf(diagnostics) == [] ==> fixedCount == 0 && written == None
    ensures FixesOf(diagnostics) != [] ==>
              && written == Some(ApplyInOrder(sourceFile.originalContent, SortByStartDesc(FixesOf(diagnostics))))
              && fixedCount == if writeSucceeds then |FixesOf(diagnostics)| else 0
  {
    var fixes := FixesOf(diagnostics);
    if fixes == [] {
      return 0, None;
    }
    var sorted := SortByStartDesc(fixes);
    var fixCount := |fixes|;
    var newContent := sourceFile.originalContent;
    for i := 0 to |sorted|
      invariant newContent == ApplyInOrder(sourceFile.originalContent, sorted[..i])
    {
      var fix := sorted[i];
      var absStart := fix.span.start;
      var absEnd := fix.span.end;
      assert sorted[..i + 1][..i] == sorted[..i];
      if absStart > |newContent| || absEnd > |newContent| {
        continue;
      }
      newContent := newContent[..absStart] + fix.replacement + newContent[absEnd..];
    }
    assert sorted[..|sorted|] == sorted;
    written := Some(newContent);
    fixedCount := if writeSucceeds then fixCount else 0;
  }

  /** A fix past the end of the buffer is skipped and the batch goes on: the fix at 5 does
      not fit `"abc"`, the fix at 0 is applied after it. */
  lemma SkipOutOfRange()
    ensures ApplyInOrder("abc", [Fix(Span(5, 6), "x"), Fix(Span(0, 1), "z")]) == "zbc"
  {
    var fs := [Fix(Span(5, 6), "x"), Fix(Span(0, 1), "z")];
    assert fs[..1][..0] == [];
    assert ApplyInOrder("abc", fs[..1]) == "abc";
    assert "abc"[..0] + "z" + "abc"[1..] == "zbc";
  }
}
