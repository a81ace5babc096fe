/** What `--fix` does to one text token under `vue/mustache-interpolation-spacing`: every
    reported interpolation is replaced by its rewrite and the rest of the text is kept. The
    lemmas here show that the fixed text has no findings left, and that `apply_fixes` applied
    to the rule's own fixes produces exactly that text. */
module MustacheFixes {
  import opened Spans
  import opened Text
  import opened LinterData
  import opened Fixes
  import opened MustacheInterpolationSpacing

  /** The interpolation `s[i..e]` after fixing: kept when accepted, rewritten otherwise. */
  function Piece(s: string, i: nat, e: nat): string
    requires i + 4 <= e <= |s|
  {
    if Accepted(Inner(s, (i, e))) then s[i..e] else Rewritten(Inner(s, (i, e)))
  }

  /** `s[i..]` with every match, found as `captures_iter` finds them, replaced by its piece. */
  function Fixed(s: string, i: nat): string
    requires i <= |s|
    decreases |s| - i
  {
    if i == |s| then []
    else
      match MatchAt(s, i)
      case Some(e) => Piece(s, i, e) + Fixed(s, e)
      case None => [s[i]] + Fixed(s, i + 1)
  }

  /** Fixing keeps the first character: a piece starts with the `{` of its match. */
  lemma FixedFirst(s: string, i: nat)
    requires i < |s|
    ensures |Fixed(s, i)| > 0 && Fixed(s, i)[0] == s[i]
  {
    match MatchAt(s, i)
    case Some(e) =>
      MatchAtSound(s, i);
      assert Piece(s, i, e)[0] == s[i];
    case None =>
  }

  function ShiftOpt(r: Option<nat>, d: nat): Option<nat>
  {
    match r
    case Some(v) => Some(d + v)
    case None => None
  }

  function ShiftMatches(ms: seq<(nat, nat)>, d: nat): seq<(nat, nat)>
  {
    if |ms| == 0 then [] else [(d + ms[0].0, d + ms[0].1)] + ShiftMatches(ms[1..], d)
  }

  lemma {:induction false} ShiftMatchesAt(ms: seq<(nat, nat)>, d: nat)
    ensures var r := ShiftMatches(ms, d);
      && |r| == |ms| && forall k :: 0 <= k < |ms| ==> r[k] == (d + ms[k].0, d + ms[k].1)
  {
    if |ms| > 0 {
      ShiftMatchesAt(ms[1..], d);
    }
  }

  lemma ShiftCons(a: nat, b: nat, ms: seq<(nat, nat)>, d: nat)
    ensures ShiftMatches([(a, b)] + ms, d) == [(d + a, d + b)] + ShiftMatches(ms, d)
  {
    assert ([(a, b)] + ms)[1..] == ms;
  }

  lemma SliceShift(x: string, y: string, lo: nat, hi: nat)
    requires lo <= hi <= |y|
    ensures (x + y)[|x| + lo..|x| + hi] == y[lo..hi]
  {
    forall k | 0 <= k < hi - lo
      ensures (x + y)[|x| + lo..|x| + hi][k] == y[lo..hi][k]
    {
      assert (x + y)[|x| + lo + k] == y[lo + k];
    }
  }

  /** The search for `}}` does not look behind its start. */
  lemma {:induction false} CloseFromShift(x: string, y: string, j: nat)
    ensures CloseFrom(x + y, |x| + j) == ShiftOpt(CloseFrom(y, j), |x|)
    decreases |y| - j
  {
    if j + 1 < |y| {
      assert (x + y)[|x| + j] == y[j] && (x + y)[|x| + j + 1] == y[j + 1];
      if y[j] != '\n' && !(y[j] == '}' && y[j + 1] == '}') {
        CloseFromShift(x, y, j + 1);
      }
    }
  }

  lemma MatchAtShift(x: string, y: string, j: nat)
    ensures MatchAt(x + y, |x| + j) == ShiftOpt(MatchAt(y, j), |x|)
  {
    if j + 1 < |y| {
      assert (x + y)[|x| + j] == y[j] && (x + y)[|x| + j + 1] == y[j + 1];
    }
    CloseFromShift(x, y, j + 2);
  }

  /** Text before the scan start does not change the matches found from there. */
  lemma {:induction false} CapturesShift(x: string, y: string, j: nat)
    ensures Captures(x + y, |x| + j) == ShiftMatches(Captures(y, j), |x|)
    decreases |y| - j
  {
    if j < |y| {
      MatchAtShift(x, y, j);
      var r := MatchAt(y, j);
      if r.Some? {
        CapturesShift(x, y, r.value);
        CapturesShiftMatch(x, y, j, r.value);
      } else {
        CapturesShift(x, y, j + 1);
        CapturesShiftSkip(x, y, j);
      }
    }
  }

  lemma {:induction false} CapturesShiftMatch(x: string, y: string, j: nat, e: nat)
    requires j < |y| && MatchAt(y, j) == Some(e)
    requires MatchAt(x + y, |x| + j) == Some(|x| + e)
    requires Captures(x + y, |x| + e) == ShiftMatches(Captures(y, e), |x|)
    ensures Captures(x + y, |x| + j) == ShiftMatches(Captures(y, j), |x|)
  {
    CapturesMatch(x + y, |x| + j, |x| + e);
    CapturesMatch(y, j, e);
    ShiftStep(Captures(x + y, |x| + j), Captures(x + y, |x| + e), Captures(y, j), Captures(y, e), j, e, |x|);
  }

  lemma {:induction false} ShiftStep(l: seq<(nat, nat)>, t: seq<(nat, nat)>, m: seq<(nat, nat)>,
                                     c: seq<(nat, nat)>, a: nat, b: nat, d: nat)
    requires l == [(d + a, d + b)] + t && t == ShiftMatches(c, d) && m == [(a, b)] + c
    ensures l == ShiftMatches(m, d)
  {
    ShiftCons(a, b, c, d);
  }

  lemma {:induction false} CapturesShiftSkip(x: string, y: string, j: nat)
    requires j < |y| && MatchAt(y, j).None? && MatchAt(x + y, |x| + j).None?
    requires Captures(x + y, |x| + j + 1) == ShiftMatches(Captures(y, j + 1), |x|)
    ensures Captures(x + y, |x| + j) == ShiftMatches(Captures(y, j), |x|)
  {
    CapturesSkip(x + y, |x| + j);
    CapturesSkip(y, j);
  }

  /** A whole match at the front of `p` still matches there whatever follows it. */
  lemma MatchAtPrefix(p: string, y: string)
    requires LazyMatch(p, 0, |p|)
    ensures MatchAt(p + y, 0) == Some(|p|)
  {
    var g := p + y;
    assert g[0] == p[0] && g[1] == p[1];
    assert g[|p| - 2] == p[|p| - 2] && g[|p| - 1] == p[|p| - 1];
    forall m | 2 <= m < |p| - 2
      ensures g[m] != '\n' && !ClosesAt(g, m)
    {
      assert g[m] == p[m] && g[m + 1] == p[m + 1];
      assert !ClosesAt(p, m);
    }
    assert LazyMatch(g, 0, |p|);
    MatchAtSound(g, 0);
  }

  /** A piece is one whole match, and an accepted one. */
  lemma PieceMatches(s: string, i: nat, e: nat)
    requires MatchAt(s, i) == Some(e)
    ensures var p := Piece(s, i, e);
      && LazyMatch(p, 0, |p|) && Accepted(Inner(p, (0, |p|)))
  {
    MatchAtSound(s, i);
    if Accepted(Inner(s, (i, e))) {
      SliceMatches(s, i, e);
    } else {
      RewriteMatches(s, i, e);
    }
  }

  /** A match cut out of its text is a whole match with the same inner text. */
  lemma SliceMatches(s: string, i: nat, e: nat)
    requires LazyMatch(s, i, e)
    ensures LazyMatch(s[i..e], 0, e - i) && Inner(s[i..e], (0, e - i)) == Inner(s, (i, e))
  {
    var p := s[i..e];
    assert p[0] == s[i] && p[1] == s[i + 1];
    assert p[|p| - 2] == s[e - 2] && p[|p| - 1] == s[e - 1];
    forall m | 2 <= m < |p| - 2
      ensures p[m] != '\n' && !ClosesAt(p, m)
    {
      assert p[m] == s[i + m] && p[m + 1] == s[i + m + 1];
      assert !ClosesAt(s, i + m);
    }
    assert ClosesAt(p, |p| - 2);
    var q, t := p[2..|p| - 2], s[i + 2..e - 2];
    forall k | 0 <= k < |q|
      ensures q[k] == t[k]
    {
      assert q[k] == p[2 + k] == s[i + 2 + k];
    }
  }

  /** The rewrite of a reported match is a whole match, and an accepted one. */
  lemma RewriteMatches(s: string, i: nat, e: nat)
    requires LazyMatch(s, i, e) && !Accepted(Inner(s, (i, e)))
    ensures var p := Rewritten(Inner(s, (i, e)));
      && LazyMatch(p, 0, |p|) && Accepted(Inner(p, (0, |p|)))
  {
    MatchInnerPlain(s, i, e);
    RewritePlainMatches(Inner(s, (i, e)));
  }

  lemma RewritePlainMatches(inner: string)
    requires Plain(inner, 0, |inner|) && !Accepted(inner)
    ensures var p := Rewritten(inner);
      && LazyMatch(p, 0, |p|) && Accepted(Inner(p, (0, |p|)))
  {
    FixAccepted(inner);
    MatchAtSound(Rewritten(inner), 0);
  }

  /** Where a match starts, a `}}` follows it. */
  lemma MatchHasClose(s: string, j: nat)
    requires MatchAt(s, j).Some?
    ensures CloseFrom(s, j).Some?
  {
    MatchAtSound(s, j);
    CloseFromSound(s, j);
    var e := MatchAt(s, j).value;
    assert Plain(s, j, e - 2);
  }

  /** With no `}}` ahead on its line, the fixed text has none either. */
  lemma {:induction false} NoCloseFixed(s: string, j: nat)
    requires j <= |s| && CloseFrom(s, j).None?
    ensures CloseFrom(Fixed(s, j), 0).None?
    decreases |s| - j
  {
    if j < |s| {
      if MatchAt(s, j).Some? {
        MatchHasClose(s, j);
      } else {
        var g := Fixed(s, j);
        assert g == [s[j]] + Fixed(s, j + 1);
        if j + 1 < |s| && s[j] != '\n' {
          FixedFirst(s, j + 1);
          assert g[0] == s[j] && g[1] == s[j + 1];
          NoCloseFixed(s, j + 1);
          CloseFromShift([s[j]], Fixed(s, j + 1), 0);
        }
      }
    }
  }

  /** Where no match starts, none starts in the fixed text either. */
  lemma NoMatchFixed(s: string, i: nat)
    requires i < |s| && MatchAt(s, i).None?
    ensures MatchAt(Fixed(s, i), 0).None?
  {
    if i + 1 < |s| && s[i] == '{' && s[i + 1] == '{' {
      NoMatchFixedOpen(s, i);
    } else {
      FixedSkip(s, i);
      if i + 1 < |s| {
        FixedFirst(s, i + 1);
      }
    }
  }

  /** The `{{` case: the rest of its line is fixed without gaining a `}}`. */
  lemma NoMatchFixedOpen(s: string, i: nat)
    requires i + 1 < |s| && s[i] == '{' && s[i + 1] == '{' && MatchAt(s, i).None?
    ensures MatchAt(Fixed(s, i), 0).None?
  {
    OpenWithoutClose(s, i);
    FixedSkip(s, i);
    FixedSkip(s, i + 1);
    NoCloseFixed(s, i + 2);
    PairNoMatch(s[i], s[i + 1], Fixed(s, i + 2), Fixed(s, i));
  }

  lemma PairNoMatch(a: char, b: char, y: string, g: string)
    requires g == [a] + ([b] + y) && CloseFrom(y, 0).None?
    ensures MatchAt(g, 0).None?
  {
    assert g == [a, b] + y;
    CloseFromShift([a, b], y, 0);
  }

  /** Where no match starts, fixing keeps the character and moves on. */
  lemma FixedSkip(s: string, i: nat)
    requires i < |s| && MatchAt(s, i).None?
    ensures Fixed(s, i) == [s[i]] + Fixed(s, i + 1)
  {
  }

  /** A `{{` that starts no match has no `}}` ahead on its line, so the second `{` starts
      no match either. */
  lemma OpenWithoutClose(s: string, i: nat)
    requires i + 1 < |s| && s[i] == '{' && s[i + 1] == '{' && MatchAt(s, i).None?
    ensures CloseFrom(s, i + 2).None? && MatchAt(s, i + 1).None?
  {
    CloseFromSound(s, i + 2);
    MatchAtSound(s, i + 1);
  }

  /** Every pair in `ms` is a match of `s` with an accepted inner text. */
  predicate AllAccepted(s: string, ms: seq<(nat, nat)>)
    decreases |ms|
  {
    || |ms| == 0
    || (&& ms[0].0 + 4 <= ms[0].1 <= |s| && Accepted(Inner(s, ms[0]))
        && AllAccepted(s, ms[1..]))
  }

  lemma {:induction false} AllAcceptedSnoc(s: string, ms: seq<(nat, nat)>, m: (nat, nat))
    ensures AllAccepted(s, ms + [m])
        <==> AllAccepted(s, ms) && m.0 + 4 <= m.1 <= |s| && Accepted(Inner(s, m))
    decreases |ms|
  {
    if |ms| == 0 {
      assert (ms + [m])[1..] == [];
    } else {
      assert (ms + [m])[0] == ms[0];
      assert (ms + [m])[1..] == ms[1..] + [m];
      AllAcceptedSnoc(s, ms[1..], m);
    }
  }

  lemma InnerShift(x: string, y: string, a: nat, b: nat)
    requires a + 4 <= b <= |y|
    ensures Inner(x + y, (|x| + a, |x| + b)) == Inner(y, (a, b))
  {
    var l, r := Inner(x + y, (|x| + a, |x| + b)), Inner(y, (a, b));
    assert |l| == |r|;
    forall k | 0 <= k < |l|
      ensures l[k] == r[k]
    {
      assert l[k] == (x + y)[|x| + a + 2 + k];
    }
  }

  /** Text put in front keeps accepted matches accepted. */
  lemma {:induction false} ShiftedAccepted(x: string, y: string, ms: seq<(nat, nat)>)
    requires AllAccepted(y, ms)
    ensures AllAccepted(x + y, ShiftMatches(ms, |x|))
    decreases |ms|
  {
    if |ms| > 0 {
      var r := ShiftMatches(ms, |x|);
      var tail := ShiftMatches(ms[1..], |x|);
      assert r == [(|x| + ms[0].0, |x| + ms[0].1)] + tail;
      assert r[1..] == tail;
      InnerShift(x, y, ms[0].0, ms[0].1);
      ShiftedAccepted(x, y, ms[1..]);
    }
  }

  /** The fixed text has only accepted interpolations. */
  lemma {:induction false} FixedAllAccepted(s: string, i: nat)
    requires i <= |s|
    ensures AllAccepted(Fixed(s, i), Captures(Fixed(s, i), 0))
    decreases |s| - i, 1
  {
    if i == |s| {
      assert Captures([], 0) == [];
    } else {
      var r := MatchAt(s, i);
      if r.Some? {
        FixedAllAcceptedMatch(s, i, r.value);
      } else {
        FixedAllAcceptedSkip(s, i);
      }
    }
  }

  lemma {:induction false} FixedAllAcceptedMatch(s: string, i: nat, e: nat)
    requires i < |s| && MatchAt(s, i) == Some(e)
    ensures AllAccepted(Fixed(s, i), Captures(Fixed(s, i), 0))
    decreases |s| - i, 0
  {
    FixedAllAccepted(s, e);
    PieceMatches(s, i, e);
    FixedMatch(s, i, e);
    PrefixAccepted(Piece(s, i, e), Fixed(s, e));
  }

  lemma {:induction false} FixedAllAcceptedSkip(s: string, i: nat)
    requires i < |s| && MatchAt(s, i).None?
    ensures AllAccepted(Fixed(s, i), Captures(Fixed(s, i), 0))
    decreases |s| - i, 0
  {
    FixedAllAccepted(s, i + 1);
    FixedSkip(s, i);
    NoMatchFixed(s, i);
    CharAccepted(s[i], Fixed(s, i + 1));
  }

  /** Where a match starts, fixing puts its piece in its place and moves past it. */
  lemma FixedMatch(s: string, i: nat, e: nat)
    requires i < |s| && MatchAt(s, i) == Some(e)
    ensures Fixed(s, i) == Piece(s, i, e) + Fixed(s, e)
  {
  }

  /** An accepted whole match in front of a text with only accepted matches. */
  lemma PrefixAccepted(p: string, f: string)
    requires LazyMatch(p, 0, |p|) && Accepted(Inner(p, (0, |p|)))
    requires AllAccepted(f, Captures(f, 0))
    ensures AllAccepted(p + f, Captures(p + f, 0))
  {
    var g := p + f;
    MatchAtPrefix(p, f);
    CapturesShift(p, f, 0);
    ShiftedAccepted(p, f, Captures(f, 0));
    var rest := Captures(g, |p|);
    assert Captures(g, 0) == [(0, |p|)] + rest;
    assert ([(0, |p|)] + rest)[1..] == rest;
    assert Inner(g, (0, |p|)) == Inner(p, (0, |p|));
  }

  /** A character that starts no match in front of a text with only accepted matches. */
  lemma CharAccepted(ch: char, f: string)
    requires MatchAt([ch] + f, 0).None?
    requires AllAccepted(f, Captures(f, 0))
    ensures AllAccepted([ch] + f, Captures([ch] + f, 0))
  {
    CapturesShift([ch], f, 0);
    ShiftedAccepted([ch], f, Captures(f, 0));
    assert Captures([ch] + f, 0) == Captures([ch] + f, 1);
  }

  /** The rule reports nothing for a list of matches exactly when all are accepted. */
  lemma {:induction false} NoDiagnosticsIffAccepted(s: string, ms: seq<(nat, nat)>, tokenStart: nat, anchor: nat)
    requires ValidMatches(s, ms)
    ensures MatchesDiagnostics(s, ms, tokenStart, anchor) == [] <==> AllAccepted(s, ms)
    decreases |ms|
  {
    if |ms| > 0 {
      var init, last := ms[..|ms| - 1], ms[|ms| - 1];
      NoDiagnosticsIffAccepted(s, init, tokenStart, anchor);
      assert ms == init + [last];
      AllAcceptedSnoc(s, init, last);
    }
  }

  /** Idempotence of the fix on one text: the fixed text has no findings. */
  lemma FixedIsClean(s: string, tokenStart: nat, anchor: nat)
    ensures TextDiagnostics(Fixed(s, 0), tokenStart, anchor) == []
  {
    FixedAllAccepted(s, 0);
    CapturesBounded(Fixed(s, 0), 0);
    NoDiagnosticsIffAccepted(Fixed(s, 0), Captures(Fixed(s, 0), 0), tokenStart, anchor);
  }

  /** The fixes the rule proposes for the matches of `c` found from `i`. */
  function ReportedFixes(c: string, i: nat, tokenStart: nat, anchor: nat): seq<Fix>
  {
    FixesOf(MatchesDiagnostics(c, Captures(c, i), tokenStart, anchor))
  }

  /** Findings come out in match order: the first match's finding, if any, comes first. */
  lemma MatchesDiagnosticsCons(s: string, m: (nat, nat), ms: seq<(nat, nat)>, tokenStart: nat, anchor: nat)
    ensures MatchesDiagnostics(s, [m] + ms, tokenStart, anchor)
         == MatchFindings(s, m, tokenStart, anchor) + MatchesDiagnostics(s, ms, tokenStart, anchor)
  {
    CollectCons(m, ms, m => MatchFindings(s, m, tokenStart, anchor));
  }

  /** Where no match starts, the fixes from `i` are those from `i + 1`. */
  lemma ReportedFixesSkip(c: string, i: nat, tokenStart: nat, anchor: nat)
    requires i < |c| && MatchAt(c, i).None?
    ensures ReportedFixes(c, i, tokenStart, anchor) == ReportedFixes(c, i + 1, tokenStart, anchor)
  {
    assert Captures(c, i) == Captures(c, i + 1);
  }

  /** A match at `i` adds the fix of its finding, if any, in front of the fixes after it. */
  lemma ReportedFixesMatch(c: string, i: nat, e: nat, tokenStart: nat, anchor: nat)
    requires i < |c| && MatchAt(c, i) == Some(e)
    ensures ReportedFixes(c, i, tokenStart, anchor)
         == FixesOf(MatchFindings(c, (i, e), tokenStart, anchor)) + ReportedFixes(c, e, tokenStart, anchor)
  {
    var ms := Captures(c, e);
    var first := MatchFindings(c, (i, e), tokenStart, anchor);
    assert Captures(c, i) == [(i, e)] + ms;
    MatchesDiagnosticsCons(c, (i, e), ms, tokenStart, anchor);
    calc {
      ReportedFixes(c, i, tokenStart, anchor);
      FixesOf(MatchesDiagnostics(c, [(i, e)] + ms, tokenStart, anchor));
      FixesOf(first + MatchesDiagnostics(c, ms, tokenStart, anchor));
      { FixesOfAppend(first, MatchesDiagnostics(c, ms, tokenStart, anchor)); }
      FixesOf(first) + ReportedFixes(c, e, tokenStart, anchor);
    }
  }

  /** The fix of one match: none when it is accepted, otherwise its rewrite over the match. */
  lemma FixOfMatch(c: string, i: nat, e: nat, tokenStart: nat, anchor: nat)
    requires i + 4 <= e <= |c|
    ensures var fixes := FixesOf(MatchFindings(c, (i, e), tokenStart, anchor));
      && (Accepted(Inner(c, (i, e))) ==> fixes == [])
      && (!Accepted(Inner(c, (i, e))) ==>
            fixes == [Fix(Span(tokenStart + anchor + i, tokenStart + anchor + e), Rewritten(Inner(c, (i, e))))])
  {
    var d := MatchDiagnostic(c, (i, e), tokenStart, anchor);
    if d.Some? {
      assert [d.value][..0] == [];
    }
  }

  /** A reference position earlier in the text only adds the text in between. */
  lemma SimultaneousFrom(content: string, fs: seq<Fix>, q: nat, p: nat)
    requires q <= p && Ascending(fs, p, |content|)
    ensures Ascending(fs, q, |content|)
    ensures Simultaneous(content, fs, q) == content[q..p] + Simultaneous(content, fs, p)
  {
    if fs != [] {
      assert content[q..fs[0].span.start] == content[q..p] + content[p..fs[0].span.start];
    }
  }

  /** Fixes whose starts strictly increase. */
  predicate Increasing(fs: seq<Fix>)
  {
    forall i, j :: 0 <= i < j < |fs| ==> fs[i].span.start < fs[j].span.start
  }

  lemma IncreasingCons(f: Fix, fs: seq<Fix>, pos: nat, len: nat)
    requires Increasing(fs) && Ascending(fs, pos, len) && f.span.start < pos
    ensures Increasing([f] + fs)
  {
    AscendingWellFormed(fs, pos, len);
    var r := [f] + fs;
    forall i, j | 0 <= i < j < |r|
      ensures r[i].span.start < r[j].span.start
    {
      assert r[j] == fs[j - 1];
      if i > 0 {
        assert r[i] == fs[i - 1];
      }
    }
  }

  /** The fixes `fs`, read from `p`, are ascending with strictly increasing starts, and
      putting them all in place gives `text`. */
  predicate PlacedAt(doc: string, fs: seq<Fix>, p: nat, text: string)
  {
    Ascending(fs, p, |doc|) && Increasing(fs) && Simultaneous(doc, fs, p) == text
  }

  /** One character outside any match: an earlier reference position takes it over. */
  lemma SimultaneousSkip(doc: string, fsI: seq<Fix>, fs: seq<Fix>, p: nat, ch: char, fixedI: string, rest: string, after: string)
    requires p < |doc| && doc[p] == ch && fsI == fs && fixedI == [ch] + rest
    requires PlacedAt(doc, fs, p + 1, rest + after)
    ensures PlacedAt(doc, fsI, p, fixedI + after)
  {
    SimultaneousFrom(doc, fs, p, p + 1);
    assert doc[p..p + 1] == [ch];
  }

  /** An accepted match: its text is kept as it is. */
  lemma SimultaneousKeep(doc: string, fsI: seq<Fix>, fs: seq<Fix>, p: nat, q: nat, fixedI: string, piece: string, rest: string, after: string)
    requires p <= q <= |doc| && doc[p..q] == piece && fsI == fs && fixedI == piece + rest
    requires PlacedAt(doc, fs, q, rest + after)
    ensures PlacedAt(doc, fsI, p, fixedI + after)
  {
    SimultaneousFrom(doc, fs, p, q);
  }

  /** A reported match: its fix comes first and puts the rewrite in its place. */
  lemma SimultaneousReport(doc: string, fsI: seq<Fix>, fs: seq<Fix>, p: nat, q: nat, fixedI: string, rewrite: string, rest: string, after: string)
    requires p < q <= |doc| && fsI == [Fix(Span(p, q), rewrite)] + fs && fixedI == rewrite + rest
    requires PlacedAt(doc, fs, q, rest + after)
    ensures PlacedAt(doc, fsI, p, fixedI + after)
  {
    var f := Fix(Span(p, q), rewrite);
    AscendingCons(f, fs, p, |doc|);
    IncreasingCons(f, fs, q, |doc|);
    SimultaneousCons(doc, f, fs, p, rest + after);
  }

  lemma AscendingCons(f: Fix, fs: seq<Fix>, p: nat, len: nat)
    requires p <= f.span.start <= f.span.end && Ascending(fs, f.span.end, len)
    ensures Ascending([f] + fs, p, len)
  {
    assert ([f] + fs)[1..] == fs;
  }

  lemma SimultaneousCons(doc: string, f: Fix, fs: seq<Fix>, p: nat, tail: string)
    requires p == f.span.start <= f.span.end && Ascending(fs, f.span.end, |doc|)
    requires Ascending([f] + fs, p, |doc|) && Simultaneous(doc, fs, f.span.end) == tail
    ensures Simultaneous(doc, [f] + fs, p) == f.replacement + tail
  {
    assert ([f] + fs)[0] == f && ([f] + fs)[1..] == fs;
    assert doc[p..p] == [];
  }

  /** Fixing an accepted match of `c` at `i` keeps it. */
  lemma FixedKeep(c: string, i: nat, e: nat)
    requires i < |c| && MatchAt(c, i) == Some(e) && Accepted(Inner(c, (i, e)))
    ensures Fixed(c, i) == c[i..e] + Fixed(c, e)
  {
  }

  /** Fixing a reported match of `c` at `i` puts its rewrite in its place. */
  lemma FixedReport(c: string, i: nat, e: nat)
    requires i < |c| && MatchAt(c, i) == Some(e) && !Accepted(Inner(c, (i, e)))
    ensures Fixed(c, i) == Rewritten(Inner(c, (i, e))) + Fixed(c, e)
  {
  }

  /** An accepted match proposes no fix. */
  lemma ReportedFixesKeep(c: string, i: nat, e: nat, tokenStart: nat, anchor: nat)
    requires i < |c| && MatchAt(c, i) == Some(e) && Accepted(Inner(c, (i, e)))
    ensures ReportedFixes(c, i, tokenStart, anchor) == ReportedFixes(c, e, tokenStart, anchor)
  {
    ReportedFixesMatch(c, i, e, tokenStart, anchor);
    FixOfMatch(c, i, e, tokenStart, anchor);
    assert [] + ReportedFixes(c, e, tokenStart, anchor) == ReportedFixes(c, e, tokenStart, anchor);
  }

  /** A reported match proposes its rewrite over the match, ahead of the fixes after it. */
  lemma ReportedFixesReport(c: string, i: nat, e: nat, tokenStart: nat, anchor: nat)
    requires i < |c| && MatchAt(c, i) == Some(e) && !Accepted(Inner(c, (i, e)))
    ensures ReportedFixes(c, i, tokenStart, anchor)
         == [Fix(Span(tokenStart + anchor + i, tokenStart + anchor + e), Rewritten(Inner(c, (i, e))))]
            + ReportedFixes(c, e, tokenStart, anchor)
  {
    ReportedFixesMatch(c, i, e, tokenStart, anchor);
    FixOfMatch(c, i, e, tokenStart, anchor);
  }

  /** `c` sits at `b` in `doc`. */
  predicate Placed(doc: string, c: string, b: nat)
  {
    b + |c| <= |doc| && doc[b..b + |c|] == c
  }

  lemma PlacedSlice(doc: string, c: string, b: nat, i: nat, e: nat)
    requires Placed(doc, c, b) && i <= e <= |c|
    ensures doc[b + i..b + e] == c[i..e]
  {
    forall k | 0 <= k < e - i
      ensures doc[b + i..b + e][k] == c[i..e][k]
    {
      assert doc[b + i + k] == doc[b..b + |c|][i + k];
    }
  }

  lemma PlacedChar(doc: string, c: string, b: nat, i: nat)
    requires Placed(doc, c, b) && i < |c|
    ensures doc[b + i] == c[i]
  {
    assert doc[b + i] == doc[b..b + |c|][i];
  }

  /** The fixes the rule proposes for `c` from match position `i` on, listed as `Fixed` walks
      the text, for a text token starting at `tokenStart` of a block starting at `anchor`. */
  function PlanFixes(c: string, i: nat, tokenStart: nat, anchor: nat): seq<Fix>
    requires i <= |c|
    decreases |c| - i
  {
    if i == |c| then []
    else
      match MatchAt(c, i)
      case None => PlanFixes(c, i + 1, tokenStart, anchor)
      case Some(e) =>
        if Accepted(Inner(c, (i, e))) then PlanFixes(c, e, tokenStart, anchor)
        else [Fix(Span(tokenStart + anchor + i, tokenStart + anchor + e), Rewritten(Inner(c, (i, e))))]
             + PlanFixes(c, e, tokenStart, anchor)
  }

  lemma PlanFixesSkip(c: string, i: nat, tokenStart: nat, anchor: nat)
    requires i < |c| && MatchAt(c, i).None?
    ensures PlanFixes(c, i, tokenStart, anchor) == PlanFixes(c, i + 1, tokenStart, anchor)
  {
  }

  lemma PlanFixesKeep(c: string, i: nat, e: nat, tokenStart: nat, anchor: nat)
    requires i < |c| && MatchAt(c, i) == Some(e) && Accepted(Inner(c, (i, e)))
    ensures PlanFixes(c, i, tokenStart, anchor) == PlanFixes(c, e, tokenStart, anchor)
  {
  }

  lemma PlanFixesReport(c: string, i: nat, e: nat, tokenStart: nat, anchor: nat)
    requires i < |c| && MatchAt(c, i) == Some(e) && !Accepted(Inner(c, (i, e)))
    ensures PlanFixes(c, i, tokenStart, anchor)
         == [Fix(Span(tokenStart + anchor + i, tokenStart + anchor + e), Rewritten(Inner(c, (i, e))))]
            + PlanFixes(c, e, tokenStart, anchor)
  {
  }

  /** `PlanFixes` lists exactly the fixes of the rule's findings, in the same order. */
  lemma {:induction false} PlanIsReported(c: string, i: nat, tokenStart: nat, anchor: nat)
    requires i <= |c|
    ensures PlanFixes(c, i, tokenStart, anchor) == ReportedFixes(c, i, tokenStart, anchor)
    decreases |c| - i, 1
  {
    if i == |c| {
      assert Captures(c, |c|) == [];
    } else {
      var r := MatchAt(c, i);
      if r.None? {
        PlanIsReportedSkip(c, i, tokenStart, anchor);
      } else if Accepted(Inner(c, (i, r.value))) {
        PlanIsReportedKeep(c, i, r.value, tokenStart, anchor);
      } else {
        PlanIsReportedReport(c, i, r.value, tokenStart, anchor);
      }
    }
  }

  lemma {:induction false} PlanIsReportedSkip(c: string, i: nat, tokenStart: nat, anchor: nat)
    requires i < |c| && MatchAt(c, i).None?
    ensures PlanFixes(c, i, tokenStart, anchor) == ReportedFixes(c, i, tokenStart, anchor)
    decreases |c| - i, 0
  {
    PlanIsReported(c, i + 1, tokenStart, anchor);
    ReportedFixesSkip(c, i, tokenStart, anchor);
    PlanFixesSkip(c, i, tokenStart, anchor);
  }

  lemma {:induction false} PlanIsReportedKeep(c: string, i: nat, e: nat, tokenStart: nat, anchor: nat)
    requires i < |c| && MatchAt(c, i) == Some(e) && Accepted(Inner(c, (i, e)))
    ensures PlanFixes(c, i, tokenStart, anchor) == ReportedFixes(c, i, tokenStart, anchor)
    decreases |c| - i, 0
  {
    PlanIsReported(c, e, tokenStart, anchor);
    ReportedFixesKeep(c, i, e, tokenStart, anchor);
    PlanFixesKeep(c, i, e, tokenStart, anchor);
  }

  lemma {:induction false} PlanIsReportedReport(c: string, i: nat, e: nat, tokenStart: nat, anchor: nat)
    requires i < |c| && MatchAt(c, i) == Some(e) && !Accepted(Inner(c, (i, e)))
    ensures PlanFixes(c, i, tokenStart, anchor) == ReportedFixes(c, i, tokenStart, anchor)
    decreases |c| - i, 0
  {
    PlanIsReported(c, e, tokenStart, anchor);
    ReportedFixesReport(c, i, e, tokenStart, anchor);
    PlanFixesReport(c, i, e, tokenStart, anchor);
  }

  lemma PlanSkip(doc: string, c: string, tokenStart: nat, anchor: nat, i: nat, after: string)
    requires i < |c| && tokenStart + anchor + i < |doc| && MatchAt(c, i).None?
    requires doc[tokenStart + anchor + i] == c[i]
    requires PlacedAt(doc, PlanFixes(c, i + 1, tokenStart, anchor), tokenStart + anchor + (i + 1), Fixed(c, i + 1) + after)
    ensures PlacedAt(doc, PlanFixes(c, i, tokenStart, anchor), tokenStart + anchor + i, Fixed(c, i) + after)
  {
    FixedSkip(c, i);
    PlanFixesSkip(c, i, tokenStart, anchor);
    SimultaneousSkip(doc, PlanFixes(c, i, tokenStart, anchor), PlanFixes(c, i + 1, tokenStart, anchor),
      tokenStart + anchor + i, c[i], Fixed(c, i), Fixed(c, i + 1), after);
  }

  lemma PlanKeep(doc: string, c: string, tokenStart: nat, anchor: nat, i: nat, e: nat, after: string)
    requires i < |c| && MatchAt(c, i) == Some(e) && tokenStart + anchor + e <= |doc|
    requires doc[tokenStart + anchor + i..tokenStart + anchor + e] == c[i..e] && Accepted(Inner(c, (i, e)))
    requires PlacedAt(doc, PlanFixes(c, e, tokenStart, anchor), tokenStart + anchor + e, Fixed(c, e) + after)
    ensures PlacedAt(doc, PlanFixes(c, i, tokenStart, anchor), tokenStart + anchor + i, Fixed(c, i) + after)
  {
    FixedKeep(c, i, e);
    PlanFixesKeep(c, i, e, tokenStart, anchor);
    SimultaneousKeep(doc, PlanFixes(c, i, tokenStart, anchor), PlanFixes(c, e, tokenStart, anchor),
      tokenStart + anchor + i, tokenStart + anchor + e, Fixed(c, i), c[i..e], Fixed(c, e), after);
  }

  lemma PlanReport(doc: string, c: string, tokenStart: nat, anchor: nat, i: nat, e: nat, after: string)
    requires i < |c| && MatchAt(c, i) == Some(e) && tokenStart + anchor + e <= |doc| && !Accepted(Inner(c, (i, e)))
    requires PlacedAt(doc, PlanFixes(c, e, tokenStart, anchor), tokenStart + anchor + e, Fixed(c, e) + after)
    ensures PlacedAt(doc, PlanFixes(c, i, tokenStart, anchor), tokenStart + anchor + i, Fixed(c, i) + after)
  {
    FixedReport(c, i, e);
    PlanFixesReport(c, i, e, tokenStart, anchor);
    SimultaneousReport(doc, PlanFixes(c, i, tokenStart, anchor), PlanFixes(c, e, tokenStart, anchor),
      tokenStart + anchor + i, tokenStart + anchor + e, Fixed(c, i), Rewritten(Inner(c, (i, e))), Fixed(c, e), after);
  }

  /** The rule's fixes for a text token `c` placed at `tokenStart + anchor` of `doc`, from
      any match position `i` on, are ascending with strictly increasing starts, and putting
      them all in place turns the rest of the token into `Fixed(c, i)`. */
  lemma {:induction false} PlanPlaced(doc: string, c: string, tokenStart: nat, anchor: nat, i: nat)
    requires Placed(doc, c, tokenStart + anchor) && i <= |c|
    ensures PlacedAt(doc, PlanFixes(c, i, tokenStart, anchor), tokenStart + anchor + i,
                     Fixed(c, i) + doc[tokenStart + anchor + |c|..])
    decreases |c| - i, 1
  {
    if i == |c| {
      assert [] + doc[tokenStart + anchor + |c|..] == doc[tokenStart + anchor + |c|..];
    } else {
      var r := MatchAt(c, i);
      if r.None? {
        PlanPlacedSkip(doc, c, tokenStart, anchor, i);
      } else if Accepted(Inner(c, (i, r.value))) {
        PlanPlacedKeep(doc, c, tokenStart, anchor, i, r.value);
      } else {
        PlanPlacedReport(doc, c, tokenStart, anchor, i, r.value);
      }
    }
  }

  lemma {:induction false} PlanPlacedSkip(doc: string, c: string, tokenStart: nat, anchor: nat, i: nat)
    requires Placed(doc, c, tokenStart + anchor) && i < |c| && MatchAt(c, i).None?
    ensures PlacedAt(doc, PlanFixes(c, i, tokenStart, anchor), tokenStart + anchor + i,
                     Fixed(c, i) + doc[tokenStart + anchor + |c|..])
    decreases |c| - i, 0
  {
    PlanPlaced(doc, c, tokenStart, anchor, i + 1);
    PlacedChar(doc, c, tokenStart + anchor, i);
    PlanSkip(doc, c, tokenStart, anchor, i, doc[tokenStart + anchor + |c|..]);
  }

  lemma {:induction false} PlanPlacedKeep(doc: string, c: string, tokenStart: nat, anchor: nat, i: nat, e: nat)
    requires Placed(doc, c, tokenStart + anchor) && i < |c| && MatchAt(c, i) == Some(e) && Accepted(Inner(c, (i, e)))
    ensures PlacedAt(doc, PlanFixes(c, i, tokenStart, anchor), tokenStart + anchor + i,
                     Fixed(c, i) + doc[tokenStart + anchor + |c|..])
    decreases |c| - i, 0
  {
    PlanPlaced(doc, c, tokenStart, anchor, e);
    PlacedSlice(doc, c, tokenStart + anchor, i, e);
    PlanKeep(doc, c, tokenStart, anchor, i, e, doc[tokenStart + anchor + |c|..]);
  }

  lemma {:induction false} PlanPlacedReport(doc: string, c: string, tokenStart: nat, anchor: nat, i: nat, e: nat)
    requires Placed(doc, c, tokenStart + anchor) && i < |c| && MatchAt(c, i) == Some(e) && !Accepted(Inner(c, (i, e)))
    ensures PlacedAt(doc, PlanFixes(c, i, tokenStart, anchor), tokenStart + anchor + i,
                     Fixed(c, i) + doc[tokenStart + anchor + |c|..])
    decreases |c| - i, 0
  {
    PlanPlaced(doc, c, tokenStart, anchor, e);
    PlanReport(doc, c, tokenStart, anchor, i, e, doc[tokenStart + anchor + |c|..]);
  }

  /** Fixes placed as `PlacedAt` says are all applied by `apply_fixes`: the sort puts them
      right to left and the result is the document up to `b` followed by `text`. */
  lemma ApplyPlaced(doc: string, fs: seq<Fix>, b: nat, text: string)
    requires PlacedAt(doc, fs, b, text)
    ensures AllWellFormed(fs) && SortByStartDesc(fs) == Reverse(fs) && AllWellFormed(SortByStartDesc(fs))
    ensures ApplyInOrder(doc, SortByStartDesc(fs)) == doc[..b] + text
  {
    AscendingWellFormed(fs, b, |doc|);
    SortIncreasingIsReverse(fs);
    RightToLeftIsSimultaneous(doc, fs, b);
  }

  /** `apply_fixes` on the rule's own fixes for one text token `c` of `doc`: sorting puts
      them right to left, none is skipped, and the result is `doc` with the token's text
      replaced by `Fixed(c, 0)`. */
  lemma ApplyRuleFixes(doc: string, c: string, tokenStart: nat, anchor: nat)
    requires Placed(doc, c, tokenStart + anchor)
    ensures var fs, b := FixesOf(TextDiagnostics(c, tokenStart, anchor)), tokenStart + anchor;
      && AllWellFormed(fs)
      && SortByStartDesc(fs) == Reverse(fs)
      && AllWellFormed(SortByStartDesc(fs))
      && ApplyInOrder(doc, SortByStartDesc(fs)) == doc[..b] + Fixed(c, 0) + doc[b + |c|..]
  {
    PlanPlaced(doc, c, tokenStart, anchor, 0);
    PlanIsReported(c, 0, tokenStart, anchor);
    ApplyPlaced(doc, PlanFixes(c, 0, tokenStart, anchor), tokenStart + anchor + 0,
      Fixed(c, 0) + doc[tokenStart + anchor + |c|..]);
    assert doc[..tokenStart + anchor + 0] == doc[..tokenStart + anchor];
    assert doc[..tokenStart + anchor] + (Fixed(c, 0) + doc[tokenStart + anchor + |c|..])
        == doc[..tokenStart + anchor] + Fixed(c, 0) + doc[tokenStart + anchor + |c|..];
  }
}
