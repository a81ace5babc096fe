/** `vue/no-v-html`: every start tag carrying a `v-html` attribute is reported, without a fix. */
module NoVHtml {
  import opened Spans
  import opened Text
  import opened TemplateParser
  import opened LinterData

  const Name: string := "vue/no-v-html"
  const Message: string := "Do not use `v-html` to prevent XSS."

  /** The tokens the rule reports: start tags whose attributes include `v-html`. */
  predicate Flagged(t: TemplateToken)
  {
    t.StartTag? && "v-html" in t.attributes
  }

  /** The diagnostic for a flagged tag: its span moved into file coordinates by `anchor`. */
  function TagDiagnostic(t: TemplateToken, anchor: nat): (d: Diagnostic)
    requires t.StartTag?
    ensures d.message == Message && d.fix == None
    ensures d.span.start == t.span.start + anchor && d.span.end == t.span.end + anchor
  {
    Diagnostic(Message, Shift(t.span, anchor), None)
  }

  /** The diagnostics for a token list, one per flagged token, in token order. */
  function TokensDiagnostics(ts: seq<TemplateToken>, anchor: nat): seq<Diagnostic>
  {
    if ts == [] then []
    else
      var last := ts[|ts| - 1];
      TokensDiagnostics(ts[..|ts| - 1], anchor) + (if Flagged(last) then [TagDiagnostic(last, anchor)] else [])
  }

  /** The rule's output for a context: nothing when the template produced no token list. */
  function Diagnostics(ctx: Context): seq<Diagnostic>
  {
    match ctx.templateTokens
    case None => []
    case Some(ts) => TokensDiagnostics(ts, ctx.sourceFile.templateStartOffset)
  }

  /** `NoVHtml::run`. */
  method Run(ctx: Context) returns (diagnostics: seq<Diagnostic>)
    ensures diagnostics == Diagnostics(ctx)
  {
    diagnostics := [];
    if ctx.templateTokens.Some? {
      var tokens := ctx.templateTokens.value;
      var anchor := ctx.sourceFile.templateStartOffset;
      for i := 0 to |tokens|
        invariant diagnostics == TokensDiagnostics(tokens[..i], anchor)
      {
        var token := tokens[i];
        if token.StartTag? && "v-html" in token.attributes {
          var absStart := token.span.start + anchor;
          var absEnd := token.span.end + anchor;
          diagnostics := diagnostics + [Diagnostic(Message, Span(absStart, absEnd), None)];
        }
        TokensDiagnosticsPrefix(tokens, i, anchor);
      }
      assert tokens[..|tokens|] == tokens;
    }
  }

  /** Token order is kept: the diagnostics of a concatenation are the concatenated diagnostics. */
  lemma {:induction false} TokensDiagnosticsAppend(a: seq<TemplateToken>, b: seq<TemplateToken>, anchor: nat)
    ensures TokensDiagnostics(a + b, anchor) == TokensDiagnostics(a, anchor) + TokensDiagnostics(b, anchor)
    decreases |b|
  {
    if b == [] {
      assert a + b == a;
    } else {
      var b' := b[..|b| - 1];
      TokensDiagnosticsAppend(a, b', anchor);
      assert (a + b)[..|a + b| - 1] == a + b';
    }
  }

  /** Exactly one diagnostic per token: one for a flagged token, none for any other. */
  lemma SingleTokenDiagnostics(t: TemplateToken, anchor: nat)
    ensures TokensDiagnostics([t], anchor) == if Flagged(t) then [TagDiagnostic(t, anchor)] else []
  {
    assert [t][..0] == [];
  }

  /** Every diagnostic comes from a flagged token, keeps the message, carries no fix and has
      that token's span shifted by `anchor`. */
  lemma {:induction false} TokensDiagnosticsSound(ts: seq<TemplateToken>, anchor: nat)
    ensures forall d :: d in TokensDiagnostics(ts, anchor) ==>
              d.message == Message && d.fix == None &&
              exists i :: 0 <= i < |ts| && Flagged(ts[i]) && d.span == Shift(ts[i].span, anchor)
    decreases |ts|
  {
    if ts != [] {
      var init, last := ts[..|ts| - 1], ts[|ts| - 1];
      TokensDiagnosticsSound(init, anchor);
      var tail := if Flagged(last) then [TagDiagnostic(last, anchor)] else [];
      assert TokensDiagnostics(ts, anchor) == TokensDiagnostics(init, anchor) + tail;
      forall d | d in TokensDiagnostics(ts, anchor)
        ensures exists i :: 0 <= i < |ts| && Flagged(ts[i]) && d.span == Shift(ts[i].span, anchor)
      {
        if d in TokensDiagnostics(init, anchor) {
          var i :| 0 <= i < |init| && Flagged(init[i]) && d.span == Shift(init[i].span, anchor);
          assert ts[i] == init[i];
        } else {
          assert ts[|ts| - 1] == last;
        }
      }
    }
  }

  /** There are as many diagnostics as flagged tokens. */
  lemma TokensDiagnosticsCount(ts: seq<TemplateToken>, anchor: nat)
    ensures |TokensDiagnostics(ts, anchor)| == |set i | 0 <= i < |ts| && Flagged(ts[i])|
  {
    PrefixCount(ts, |ts|, anchor);
    assert ts[..|ts|] == ts;
  }

  lemma {:induction false} PrefixCount(ts: seq<TemplateToken>, k: nat, anchor: nat)
    requires k <= |ts|
    ensures |TokensDiagnostics(ts[..k], anchor)| == |set i | 0 <= i < k && Flagged(ts[i])|
  {
    if k > 0 {
      PrefixCount(ts, k - 1, anchor);
      TokensDiagnosticsPrefix(ts, k - 1, anchor);
      FlaggedStep(ts, k);
    }
  }

  lemma FlaggedStep(ts: seq<TemplateToken>, k: nat)
    requires 0 < k <= |ts|
    ensures |set i | 0 <= i < k && Flagged(ts[i])|
         == |set i | 0 <= i < k - 1 && Flagged(ts[i])| + (if Flagged(ts[k - 1]) then 1 else 0)
  {
    var before := set i | 0 <= i < k - 1 && Flagged(ts[i]);
    var after := set i | 0 <= i < k && Flagged(ts[i]);
    if Flagged(ts[k - 1]) {
      assert after == before + {k - 1};
    } else {
      assert after == before;
    }
  }

  lemma TokensDiagnosticsPrefix(ts: seq<TemplateToken>, i: nat, anchor: nat)
    requires i < |ts|
    ensures TokensDiagnostics(ts[..i + 1], anchor)
         == TokensDiagnostics(ts[..i], anchor) + (if Flagged(ts[i]) then [TagDiagnostic(ts[i], anchor)] else [])
  {
    assert ts[..i + 1][..i] == ts[..i];
  }

  /** Every flagged token is reported. */
  lemma {:induction false} TokensDiagnosticsComplete(ts: seq<TemplateToken>, anchor: nat, i: nat)
    requires i < |ts| && Flagged(ts[i])
    ensures TagDiagnostic(ts[i], anchor) in TokensDiagnostics(ts, anchor)
    decreases |ts|
  {
    if i < |ts| - 1 {
      var init := ts[..|ts| - 1];
      assert init[i] == ts[i];
      TokensDiagnosticsComplete(init, anchor, i);
    }
  }
}
