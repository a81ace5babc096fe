/** `vue/mustache-interpolation-spacing`: in every text token, each `{{…}}` interpolation
    found by the lazy pattern `\{\{(.*?)\}\}` must hold its trimmed text padded by exactly one
    space on each side; otherwise it is reported and the fix rewrites it to `{{ t }}`.
    The pattern is scanned by hand: a match starts at the leftmost `{{`, its inner text is the
    shortest run without a newline that is followed by `}}`, and scanning resumes after it. */
module MustacheInterpolationSpacing {
  import opened Spans
  import opened Text
  import opened TemplateParser
  import opened LinterData

  const Name: string := "vue/mustache-interpolation-spacing"
  const Message: string := "Mustache interpolation should have spacing."

  predicate ClosesAt(s: string, k: nat)
  {
    k + 1 < |s| && s[k] == '}' && s[k + 1] == '}'
  }

  /** No newline and no `}}` starts in `s[lo..hi]`. */
  predicate Plain(s: string, lo: nat, hi: nat)
  {
    && hi <= |s|
    && (forall m :: lo <= m < hi ==> s[m] != '\n')
    && (forall m :: lo <= m < hi ==> !ClosesAt(s, m))
  }

  /** Where `(.*?)\}\}` stops when it starts at `j`: the first `}}` at or after `j`,
      provided no newline comes before it (`.` does not match a newline). */
  function CloseFrom(s: string, j: nat): (r: Option<nat>)
    ensures r.Some? ==> j <= r.value && r.value + 2 <= |s|
    decreases |s| - j
  {
    if j + 1 >= |s| || s[j] == '\n' then None
    else if s[j] == '}' && s[j + 1] == '}' then Some(j)
    else CloseFrom(s, j + 1)
  }

  /** `CloseFrom` finds the one `}}` that has no newline and no other `}}` between `j` and it. */
  lemma {:induction false} CloseFromSound(s: string, j: nat)
    ensures var r := CloseFrom(s, j);
      && (r.Some? ==> ClosesAt(s, r.value) && Plain(s, j, r.value))
      && (r.None? ==> forall k: nat :: j <= k ==> !(ClosesAt(s, k) && Plain(s, j, k)))
    decreases |s| - j
  {
    if j + 1 >= |s| || s[j] == '\n' {
    } else if s[j] == '}' && s[j + 1] == '}' {
    } else {
      CloseFromSound(s, j + 1);
      var r := CloseFrom(s, j + 1);
      assert CloseFrom(s, j) == r;
      if r.None? {
        forall k: nat | j <= k && ClosesAt(s, k) && Plain(s, j, k)
          ensures false
        {
          assert k != j;
          assert Plain(s, j + 1, k);
        }
      }
    }
  }

  /** A match of the lazy pattern in `s` runs from `p` to `e`: `{{`, an inner text without a
      newline and without `}}`, then the first `}}`. */
  predicate LazyMatch(s: string, p: nat, e: nat)
  {
    && p + 4 <= e <= |s| && s[p] == '{' && s[p + 1] == '{' && ClosesAt(s, e - 2)
    && Plain(s, p + 2, e - 2)
  }

  /** The end of the match starting at `p`, if one starts there. */
  function MatchAt(s: string, p: nat): (r: Option<nat>)
    ensures r.Some? ==> p + 4 <= r.value <= |s|
  {
    if p + 1 < |s| && s[p] == '{' && s[p + 1] == '{' then
      match CloseFrom(s, p + 2)
      case Some(k) => Some(k + 2)
      case None => None
    else None
  }

  /** `MatchAt` finds exactly the lazy matches: it returns `Some(e)` if and only if the
      pattern matches from `p` to `e`. */
  lemma MatchAtSound(s: string, p: nat)
    ensures MatchAt(s, p).Some? ==> LazyMatch(s, p, MatchAt(s, p).value)
    ensures forall e: nat :: LazyMatch(s, p, e) ==> MatchAt(s, p) == Some(e)
  {
    if p + 1 < |s| && s[p] == '{' && s[p + 1] == '{' {
      CloseFromSound(s, p + 2);
      var r := CloseFrom(s, p + 2);
      forall e: nat | LazyMatch(s, p, e)
        ensures MatchAt(s, p) == Some(e)
      {
        assert ClosesAt(s, e - 2) && Plain(s, p + 2, e - 2);
        assert r.Some?;
      }
    }
  }

  /** A match starts at `p` in `s`. */
  predicate StartsMatch(s: string, p: nat)
  {
    MatchAt(s, p).Some?
  }

  /** `captures_iter` from index `i`: the matches as `(start, end)` pairs, found by trying
      each position in turn and resuming after every match. */
  function Captures(s: string, i: nat): seq<(nat, nat)>
    decreases |s| - i
  {
    if i >= |s| then []
    else
      match MatchAt(s, i)
      case Some(e) => [(i, e)] + Captures(s, e)
      case None => Captures(s, i + 1)
  }

  /** Every capture from `i` starts at or after `i` and lies within `s`. */
  lemma {:induction false} CapturesBounded(s: string, i: nat)
    ensures forall k :: 0 <= k < |Captures(s, i)| ==>
      i <= Captures(s, i)[k].0 && Captures(s, i)[k].0 + 4 <= Captures(s, i)[k].1 <= |s|
    decreases |s| - i
  {
    if i < |s| {
      var r := MatchAt(s, i);
      if r.Some? {
        CapturesBounded(s, r.value);
        CapturesMatch(s, i, r.value);
      } else {
        CapturesBounded(s, i + 1);
        CapturesSkip(s, i);
      }
    }
  }

  predicate AllMatches(s: string, r: seq<(nat, nat)>)
  {
    forall k :: 0 <= k < |r| ==> LazyMatch(s, r[k].0, r[k].1)
  }

  predicate Ordered(r: seq<(nat, nat)>)
  {
    forall k :: 0 <= k < |r| - 1 ==> r[k].1 <= r[k + 1].0
  }

  /** Every position from `i` where a match starts lies inside one of `r`. */
  ghost predicate Covers(s: string, i: nat, r: seq<(nat, nat)>)
  {
    forall p: nat :: i <= p && StartsMatch(s, p) ==> exists k :: 0 <= k < |r| && r[k].0 <= p < r[k].1
  }

  lemma CapturesMatch(s: string, i: nat, e: nat)
    requires i < |s| && MatchAt(s, i) == Some(e)
    ensures Captures(s, i) == [(i, e)] + Captures(s, e)
  {
  }

  lemma CapturesSkip(s: string, i: nat)
    requires i < |s| && MatchAt(s, i).None?
    ensures Captures(s, i) == Captures(s, i + 1)
  {
  }

  /** Every capture is a lazy match. */
  lemma {:induction false} CapturesAreMatches(s: string, i: nat)
    ensures AllMatches(s, Captures(s, i))
    decreases |s| - i
  {
    if i < |s| {
      MatchAtSound(s, i);
      var r := MatchAt(s, i);
      if r.Some? {
        CapturesAreMatches(s, r.value);
        CapturesMatch(s, i, r.value);
        AllMatchesCons(s, (i, r.value), Captures(s, r.value));
      } else {
        CapturesAreMatches(s, i + 1);
        CapturesSkip(s, i);
      }
    }
  }

  lemma AllMatchesCons(s: string, m: (nat, nat), rest: seq<(nat, nat)>)
    requires LazyMatch(s, m.0, m.1) && AllMatches(s, rest)
    ensures AllMatches(s, [m] + rest)
  {
    var r := [m] + rest;
    forall k | 0 <= k < |r|
      ensures LazyMatch(s, r[k].0, r[k].1)
    {
      if k > 0 {
        assert r[k] == rest[k - 1];
      }
    }
  }

  /** The captures come in order and do not overlap. */
  lemma {:induction false} CapturesOrdered(s: string, i: nat)
    ensures Ordered(Captures(s, i))
    decreases |s| - i
  {
    if i < |s| {
      var r := MatchAt(s, i);
      if r.Some? {
        CapturesOrdered(s, r.value);
        CapturesBounded(s, r.value);
        CapturesMatch(s, i, r.value);
        OrderedCons((i, r.value), Captures(s, r.value));
      } else {
        CapturesOrdered(s, i + 1);
        CapturesSkip(s, i);
      }
    }
  }

  lemma OrderedCons(m: (nat, nat), rest: seq<(nat, nat)>)
    requires Ordered(rest) && (|rest| > 0 ==> m.1 <= rest[0].0)
    ensures Ordered([m] + rest)
  {
    var r := [m] + rest;
    forall k | 0 <= k < |r| - 1
      ensures r[k].1 <= r[k + 1].0
    {
      assert r[k + 1] == rest[k];
      if k > 0 {
        assert r[k] == rest[k - 1];
      }
    }
  }

  /** No match is missed: every position from `i` where a match could start lies inside a
      capture. */
  lemma {:induction false} CapturesCover(s: string, i: nat)
    ensures Covers(s, i, Captures(s, i))
    decreases |s| - i
  {
    if i < |s| {
      var r := MatchAt(s, i);
      if r.Some? {
        CapturesCover(s, r.value);
        CapturesMatch(s, i, r.value);
        CoversMatch(s, i, r.value, Captures(s, r.value));
      } else {
        CapturesCover(s, i + 1);
        CapturesSkip(s, i);
        CoversSkip(s, i, Captures(s, i + 1));
      }
    } else {
      forall p: nat | i <= p && StartsMatch(s, p)
        ensures false
      {
      }
    }
  }

  lemma CoversMatch(s: string, i: nat, e: nat, rest: seq<(nat, nat)>)
    requires i < e && Covers(s, e, rest)
    ensures Covers(s, i, [(i, e)] + rest)
  {
    var r := [(i, e)] + rest;
    forall p: nat | i <= p && StartsMatch(s, p)
      ensures exists k :: 0 <= k < |r| && r[k].0 <= p < r[k].1
    {
      if p >= e {
        var k :| 0 <= k < |rest| && rest[k].0 <= p < rest[k].1;
        assert r[k + 1] == rest[k];
      } else {
        assert r[0].0 <= p < r[0].1;
      }
    }
  }

  lemma CoversSkip(s: string, i: nat, r: seq<(nat, nat)>)
    requires !StartsMatch(s, i) && Covers(s, i + 1, r)
    ensures Covers(s, i, r)
  {
    forall p: nat | i <= p && StartsMatch(s, p)
      ensures exists k :: 0 <= k < |r| && r[k].0 <= p < r[k].1
    {
      assert i + 1 <= p;
    }
  }

  /** The text between the braces of match `m`. */
  function Inner(s: string, m: (nat, nat)): string
    requires m.0 + 4 <= m.1 <= |s|
  {
    s[m.0 + 2..m.1 - 2]
  }

  /** The rule accepts an interpolation whose inner text is all whitespace, or has exactly one
      space, and then something that is not whitespace, at each end. */
  predicate Accepted(inner: string)
  {
    || SkipForward(inner, 0) == |inner|
    || (&& |inner| >= 3 && inner[0] == ' ' && !IsWhitespace(inner[1])
        && inner[|inner| - 1] == ' ' && !IsWhitespace(inner[|inner| - 2]))
  }

  /** `Accepted` is the test `run` makes: the trimmed text is empty, or the inner text is the
      trimmed text with one space on each side. */
  lemma AcceptedIffPadded(inner: string)
    ensures Accepted(inner) <==> Trim(inner) == [] || inner == " " + Trim(inner) + " "
  {
    var t := Trim(inner);
    var a := SkipForward(inner, 0);
    TrimSpec(inner);
    if t != [] {
      if inner == " " + t + " " {
        assert inner[1] == t[0] && inner[|inner| - 2] == t[|t| - 1];
      }
      if |inner| >= 3 && inner[0] == ' ' && !IsWhitespace(inner[1])
         && inner[|inner| - 1] == ' ' && !IsWhitespace(inner[|inner| - 2]) {
        assert SkipForward(inner, 1) == 1;
        assert a == 1;
        assert t[|t| - 1] == inner[a + |t| - 1];
        assert a + |t| == |inner| - 1;
        assert inner == " " + t + " ";
      }
    }
  }

  /** What the fix puts in place of an interpolation with inner text `inner`. */
  function Rewritten(inner: string): string
  {
    "{{ " + Trim(inner) + " }}"
  }

  /** The finding for match `m` of a text token whose span starts at `tokenStart`, in a
      template starting at `anchor`: none when the inner text is accepted; otherwise one
      over the match, with a fix replacing the match by `{{ t }}`. */
  function MatchDiagnostic(s: string, m: (nat, nat), tokenStart: nat, anchor: nat): (r: Option<Diagnostic>)
    requires m.0 + 4 <= m.1 <= |s|
    ensures r.None? <==> Accepted(Inner(s, m))
    ensures r.Some? ==> r.value.message == Message
    ensures r.Some? ==> r.value.span == Span(tokenStart + m.0 + anchor, tokenStart + m.1 + anchor)
    ensures r.Some? ==> r.value.fix == Some(Fix(r.value.span, Rewritten(Inner(s, m))))
  {
    if Accepted(Inner(s, m)) then None
    else
      var span := Span(tokenStart + m.0 + anchor, tokenStart + m.1 + anchor);
      Some(Diagnostic(Message, span, Some(Fix(span, Rewritten(Inner(s, m))))))
  }

  /** The finding, if any, as a list. */
  function OptionList(d: Option<Diagnostic>): seq<Diagnostic>
  {
    if d.Some? then [d.value] else []
  }

  predicate ValidMatches(s: string, ms: seq<(nat, nat)>)
  {
    forall k :: 0 <= k < |ms| ==> ms[k].0 + 4 <= ms[k].1 <= |s|
  }

  /** The findings for one pair; a pair that is not a match of `s` has none. */
  function MatchFindings(s: string, m: (nat, nat), tokenStart: nat, anchor: nat): seq<Diagnostic>
  {
    if m.0 + 4 <= m.1 <= |s| then OptionList(MatchDiagnostic(s, m, tokenStart, anchor)) else []
  }

  /** The findings for the matches `ms`, in match order. */
  function MatchesDiagnostics(s: string, ms: seq<(nat, nat)>, tokenStart: nat, anchor: nat): seq<Diagnostic>
  {
    Collect(ms, m => MatchFindings(s, m, tokenStart, anchor))
  }

  /** The findings for the text `s` of a token whose span starts at `tokenStart`. */
  function TextDiagnostics(s: string, tokenStart: nat, anchor: nat): seq<Diagnostic>
  {
    MatchesDiagnostics(s, Captures(s, 0), tokenStart, anchor)
  }

  /** Only text tokens are scanned. */
  function TokenDiagnostics(t: TemplateToken, anchor: nat): seq<Diagnostic>
  {
    if t.String? then TextDiagnostics(t.content, t.span.start, anchor) else []
  }

  function TokensDiagnostics(ts: seq<TemplateToken>, anchor: nat): seq<Diagnostic>
  {
    Collect(ts, t => TokenDiagnostics(t, anchor))
  }

  function Diagnostics(ctx: Context): seq<Diagnostic>
  {
    match ctx.templateTokens
    case None => []
    case Some(ts) => TokensDiagnostics(ts, ctx.sourceFile.templateStartOffset)
  }

  /** `MustacheInterpolationSpacing::run`: the tokens in order and, in each text token, the
      matches in order. */
  method Run(ctx: Context) returns (diagnostics: seq<Diagnostic>)
    ensures diagnostics == Diagnostics(ctx)
  {
    diagnostics := [];
    if ctx.templateTokens.Some? {
      var tokens := ctx.templateTokens.value;
      var anchor := ctx.sourceFile.templateStartOffset;
      for i := 0 to |tokens|
        invariant diagnostics == TokensDiagnostics(tokens[..i], anchor)
      {
        var token := tokens[i];
        assert tokens[..i + 1] == tokens[..i] + [token];
        TokensDiagnosticsSnoc(tokens[..i], token, anchor);
        if token.String? {
          var found := CheckText(token.content, token.span.start, anchor);
          diagnostics := diagnostics + found;
        }
      }
      assert tokens[..|tokens|] == tokens;
    }
  }

  /** The body of `run` for one text token: every capture of the pattern, in order. */
  method CheckText(content: string, tokenStart: nat, anchor: nat) returns (found: seq<Diagnostic>)
    ensures found == TextDiagnostics(content, tokenStart, anchor)
  {
    found := [];
    var captures := Captures(content, 0);
    CapturesBounded(content, 0);
    for k := 0 to |captures|
      invariant found == MatchesDiagnostics(content, captures[..k], tokenStart, anchor)
    {
      var fullMatch := captures[k];
      assert captures[..k + 1] == captures[..k] + [fullMatch];
      MatchesDiagnosticsSnoc(content, captures[..k], fullMatch, tokenStart, anchor);
      var d := CheckMatch(content, fullMatch, tokenStart, anchor);
      if d.Some? {
        found := found + [d.value];
      }
    }
    assert captures[..|captures|] == captures;
  }

  /** The loop body of `run` for one capture: a blank inner text is skipped, one equal to its
      trimmed text padded by one space on each side passes, and any other is reported. */
  method CheckMatch(content: string, fullMatch: (nat, nat), tokenStart: nat, anchor: nat)
    returns (d: Option<Diagnostic>)
    requires fullMatch.0 + 4 <= fullMatch.1 <= |content|
    ensures d == MatchDiagnostic(content, fullMatch, tokenStart, anchor)
  {
    var innerText := content[fullMatch.0 + 2..fullMatch.1 - 2];
    var trimmed := Trim(innerText);
    assert innerText == Inner(content, fullMatch);
    AcceptedIffPadded(innerText);
    if |trimmed| == 0 {
      return None;
    }
    var expected := " " + trimmed + " ";
    if innerText == expected {
      return None;
    }
    var absStart := tokenStart + fullMatch.0 + anchor;
    var absEnd := tokenStart + fullMatch.1 + anchor;
    d := Some(Diagnostic(Message, Span(absStart, absEnd),
                         Some(Fix(Span(absStart, absEnd), "{{ " + trimmed + " }}"))));
  }

  /** One more match adds its finding, if any, at the end. */
  lemma MatchesDiagnosticsSnoc(s: string, ms: seq<(nat, nat)>, m: (nat, nat), tokenStart: nat, anchor: nat)
    ensures MatchesDiagnostics(s, ms + [m], tokenStart, anchor)
         == MatchesDiagnostics(s, ms, tokenStart, anchor) + MatchFindings(s, m, tokenStart, anchor)
  {
    CollectSnoc(ms, m, m => MatchFindings(s, m, tokenStart, anchor));
  }

  /** One more token adds its own findings at the end. */
  lemma TokensDiagnosticsSnoc(a: seq<TemplateToken>, t: TemplateToken, anchor: nat)
    ensures TokensDiagnostics(a + [t], anchor) == TokensDiagnostics(a, anchor) + TokenDiagnostics(t, anchor)
  {
    CollectSnoc(a, t, t => TokenDiagnostics(t, anchor));
  }

  /** Token order is kept: the diagnostics of a concatenation are the concatenated diagnostics. */
  lemma TokensDiagnosticsAppend(a: seq<TemplateToken>, b: seq<TemplateToken>, anchor: nat)
    ensures TokensDiagnostics(a + b, anchor) == TokensDiagnostics(a, anchor) + TokensDiagnostics(b, anchor)
  {
    CollectAppend(a, b, t => TokenDiagnostics(t, anchor));
  }

  /** The replacement is itself one whole match that the rule accepts: for a trimmed text `t`
      taken from a match (no newline, no `}}`), `{{ t }}` matches from its first to its last
      brace and its inner text ` t ` is accepted. */
  lemma {:induction false} RewrittenAccepted(t: string)
    requires t != [] && !IsWhitespace(t[0]) && !IsWhitespace(t[|t| - 1])
    requires Plain(t, 0, |t|)
    ensures MatchAt("{{ " + t + " }}", 0) == Some(|t| + 6)
    ensures Accepted(" " + t + " ")
  {
    var r := "{{ " + t + " }}";
    var p := " " + t + " ";
    assert p[1] == t[0] && p[|p| - 2] == t[|t| - 1];
    assert LazyMatch(r, 0, |t| + 6) by {
      assert r[|t| + 4] == '}' && r[|t| + 5] == '}';
      forall m | 2 <= m < |t| + 4
        ensures r[m] != '\n' && !ClosesAt(r, m)
      {
        if 3 <= m < |t| + 3 {
          assert r[m] == t[m - 3];
          if m + 1 < |t| + 3 {
            assert r[m + 1] == t[m - 2];
            assert !ClosesAt(t, m - 3);
          }
        }
      }
    }
    MatchAtSound(r, 0);
  }

  /** The inner text of a match has no newline and no `}}`. */
  lemma MatchInnerPlain(s: string, p: nat, e: nat)
    requires LazyMatch(s, p, e)
    ensures Plain(s[p + 2..e - 2], 0, e - p - 4)
  {
    var inner := s[p + 2..e - 2];
    forall m | 0 <= m < |inner|
      ensures inner[m] != '\n' && !ClosesAt(inner, m)
    {
      assert inner[m] == s[p + 2 + m];
      if m + 1 < |inner| {
        assert inner[m + 1] == s[p + 2 + m + 1];
        assert !ClosesAt(s, p + 2 + m);
      }
    }
  }

  /** Trimming a text without a newline and without `}}` leaves one. */
  lemma TrimPlain(inner: string)
    requires Plain(inner, 0, |inner|)
    ensures Plain(Trim(inner), 0, |Trim(inner)|)
  {
    var t := Trim(inner);
    var a := SkipForward(inner, 0);
    TrimSpec(inner);
    forall m | 0 <= m < |t|
      ensures t[m] != '\n' && !ClosesAt(t, m)
    {
      assert t[m] == inner[a + m];
      if m + 1 < |t| {
        assert t[m + 1] == inner[a + m + 1];
        assert !ClosesAt(inner, a + m);
      }
    }
  }

  /** Idempotence for one interpolation: when the inner text of a match is reported, its
      rewrite `{{ t }}` is one whole interpolation that the rule accepts. */
  lemma FixAccepted(inner: string)
    requires Plain(inner, 0, |inner|) && !Accepted(inner)
    ensures var rewritten := Rewritten(inner);
      && MatchAt(rewritten, 0) == Some(|rewritten|)
      && Accepted(rewritten[2..|rewritten| - 2])
  {
    TrimPlain(inner);
    TrimSpec(inner);
    var t := Trim(inner);
    RewrittenAccepted(t);
    var rewritten := "{{ " + t + " }}";
    assert rewritten[2..|rewritten| - 2] == " " + t + " ";
  }

  /** `{{name}}` in a text token at 5 of a template at 10 is reported over [15, 23) with the
      fix `{{ name }}`; `{{ name }}`, `{{}}` and `{{   }}` are accepted. */
  lemma Examples()
    ensures Accepted(" name ") && Accepted("") && Accepted("   ")
    ensures Rewritten("name") == "{{ name }}"
    ensures MatchDiagnostic("{{name}}", (0, 8), 5, 10)
         == Some(Diagnostic(Message, Span(15, 23), Some(Fix(Span(15, 23), "{{ name }}"))))
  {
    var n := "name";
    assert !IsWhitespace(n[0]) && !IsWhitespace(n[3]);
    TrimOfTrimmed(n);
    assert SkipForward("   ", 3) == 3 && SkipForward("   ", 2) == 3;
    assert SkipForward("   ", 1) == 3 && SkipForward("   ", 0) == 3;
    assert SkipForward(n, 0) == 0;
    assert "{{ " + n + " }}" == "{{ name }}";
    assert Inner("{{name}}", (0, 8)) == n;
  }
}
