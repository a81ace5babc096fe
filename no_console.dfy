/** `no-console`: a top-level expression statement `console.<p>(...)` is reported and its fix
    comments the statement out. Statements nested in blocks or branches are not visited. */
module NoConsole {
  import opened Spans
  import opened Text
  import opened ScriptAst
  import opened LinterData

  const Name: string := "no-console"

  /** The statements the rule reports: an expression statement whose expression is a call
      whose callee is a static member access on the identifier `console`. */
  predicate IsConsoleCall(s: Statement)
  {
    && s.ExpressionStatement?
    && s.expression.CallExpression?
    && s.expression.callee.StaticMemberExpression?
    && s.expression.callee.obj.Identifier?
    && s.expression.callee.obj.name == "console"
  }

  /** The accessed property of a console call, `log` in `console.log(x);`. */
  function Property(s: Statement): string
    requires IsConsoleCall(s)
  {
    s.expression.callee.property
  }

  /** The diagnostic for a console call: the whole statement, shifted by `anchor`, naming the
      property in the message and replaced by a comment holding it. */
  function StatementDiagnostic(s: Statement, anchor: nat): (d: Diagnostic)
    requires IsConsoleCall(s)
    ensures d.message == "Unexpected console statement: console." + Property(s)
    ensures d.span.start == s.span.start + anchor && d.span.end == s.span.end + anchor
    ensures d.fix == Some(Fix(d.span, "/* console." + Property(s) + " */"))
  {
    var span := Shift(s.span, anchor);
    Diagnostic("Unexpected console statement: console." + Property(s), span,
               Some(Fix(span, "/* console." + Property(s) + " */")))
  }

  /** The diagnostics for a program body: one per top-level console call, in program order. */
  function BodyDiagnostics(body: seq<Statement>, anchor: nat): seq<Diagnostic>
  {
    if body == [] then []
    else
      var last := body[|body| - 1];
      BodyDiagnostics(body[..|body| - 1], anchor) + (if IsConsoleCall(last) then [StatementDiagnostic(last, anchor)] else [])
  }

  function Diagnostics(ctx: Context): seq<Diagnostic>
  {
    BodyDiagnostics(ctx.program.body, ctx.sourceFile.scriptStartOffset)
  }

  /** `NoConsole::run`. */
  method Run(ctx: Context) returns (diagnostics: seq<Diagnostic>)
    ensures diagnostics == Diagnostics(ctx)
  {
    diagnostics := [];
    var body := ctx.program.body;
    var anchor := ctx.sourceFile.scriptStartOffset;
    for i := 0 to |body|
      invariant diagnostics == BodyDiagnostics(body[..i], anchor)
    {
      var stmt := body[i];
      if stmt.ExpressionStatement? {
        var expr := stmt.expression;
        if expr.CallExpression? && expr.callee.StaticMemberExpression? {
          var member := expr.callee;
          if member.obj.Identifier? && member.obj.name == "console" {
            var span := Span(stmt.span.start + anchor, stmt.span.end + anchor);
            diagnostics := diagnostics + [Diagnostic(
              "Unexpected console statement: console." + member.property, span,
              Some(Fix(span, "/* console." + member.property + " */")))];
          }
        }
      }
      BodyDiagnosticsPrefix(body, i, anchor);
    }
    assert body[..|body|] == body;
  }

  /** Program order is kept: the diagnostics of a concatenation are the concatenated diagnostics. */
  lemma {:induction false} BodyDiagnosticsAppend(a: seq<Statement>, b: seq<Statement>, anchor: nat)
    ensures BodyDiagnostics(a + b, anchor) == BodyDiagnostics(a, anchor) + BodyDiagnostics(b, anchor)
    decreases |b|
  {
    if b == [] {
      assert a + b == a;
    } else {
      var b' := b[..|b| - 1];
      BodyDiagnosticsAppend(a, b', anchor);
      assert (a + b)[..|a + b| - 1] == a + b';
    }
  }

  lemma BodyDiagnosticsPrefix(body: seq<Statement>, i: nat, anchor: nat)
    requires i < |body|
    ensures BodyDiagnostics(body[..i + 1], anchor)
         == BodyDiagnostics(body[..i], anchor) + (if IsConsoleCall(body[i]) then [StatementDiagnostic(body[i], anchor)] else [])
  {
    assert body[..i + 1][..i] == body[..i];
  }

  /** Exactly one diagnostic per top-level console call, none for any other statement. */
  lemma SingleStatementDiagnostics(s: Statement, anchor: nat)
    ensures BodyDiagnostics([s], anchor) == if IsConsoleCall(s) then [StatementDiagnostic(s, anchor)] else []
  {
    assert [s][..0] == [];
  }

  /** Every diagnostic comes from a top-level console call and its fix covers exactly the
      reported statement. */
  lemma {:induction false} BodyDiagnosticsSound(body: seq<Statement>, anchor: nat)
    ensures forall d :: d in BodyDiagnostics(body, anchor) ==>
              exists i :: 0 <= i < |body| && IsConsoleCall(body[i]) && d == StatementDiagnostic(body[i], anchor)
    ensures forall d :: d in BodyDiagnostics(body, anchor) ==> FixCoversDiagnostic(d)
    decreases |body|
  {
    if body != [] {
      var init, last := body[..|body| - 1], body[|body| - 1];
      BodyDiagnosticsSound(init, anchor);
      var tail := if IsConsoleCall(last) then [StatementDiagnostic(last, anchor)] else [];
      assert BodyDiagnostics(body, anchor) == BodyDiagnostics(init, anchor) + tail;
      forall d | d in BodyDiagnostics(body, anchor)
        ensures exists i :: 0 <= i < |body| && IsConsoleCall(body[i]) && d == StatementDiagnostic(body[i], anchor)
      {
        if d in BodyDiagnostics(init, anchor) {
          var i :| 0 <= i < |init| && IsConsoleCall(init[i]) && d == StatementDiagnostic(init[i], anchor);
          assert body[i] == init[i];
        } else {
          assert body[|body| - 1] == last;
        }
      }
    }
  }

  /** There are as many diagnostics as top-level console calls. */
  lemma BodyDiagnosticsCount(body: seq<Statement>, anchor: nat)
    ensures |BodyDiagnostics(body, anchor)| == |set i | 0 <= i < |body| && IsConsoleCall(body[i])|
  {
    PrefixCount(body, |body|, anchor);
    assert body[..|body|] == body;
  }

  lemma {:induction false} PrefixCount(body: seq<Statement>, k: nat, anchor: nat)
    requires k <= |body|
    ensures |BodyDiagnostics(body[..k], anchor)| == |set i | 0 <= i < k && IsConsoleCall(body[i])|
  {
    if k > 0 {
      PrefixCount(body, k - 1, anchor);
      BodyDiagnosticsPrefix(body, k - 1, anchor);
      ConsoleCallsStep(body, k);
    }
  }

  lemma ConsoleCallsStep(body: seq<Statement>, k: nat)
    requires 0 < k <= |body|
    ensures |set i | 0 <= i < k && IsConsoleCall(body[i])|
         == |set i | 0 <= i < k - 1 && IsConsoleCall(body[i])| + (if IsConsoleCall(body[k - 1]) then 1 else 0)
  {
    var before := set i | 0 <= i < k - 1 && IsConsoleCall(body[i]);
    var after := set i | 0 <= i < k && IsConsoleCall(body[i]);
    if IsConsoleCall(body[k - 1]) {
      assert after == before + {k - 1};
    } else {
      assert after == before;
    }
  }

  /** A console call inside a block is not reported: only the top level is visited. */
  lemma NestedCallIgnored(anchor: nat)
    ensures var call := ExpressionStatement(
              CallExpression(StaticMemberExpression(Identifier("console", Span(2, 9)), "log", Span(2, 13)),
                             [], Span(2, 15)), Span(2, 16));
      && BodyDiagnostics([call], anchor) != []
      && BodyDiagnostics([BlockStatement([call], Span(0, 18))], anchor) == []
  {
    var call := ExpressionStatement(
      CallExpression(StaticMemberExpression(Identifier("console", Span(2, 9)), "log", Span(2, 13)),
                     [], Span(2, 15)), Span(2, 16));
    SingleStatementDiagnostics(call, anchor);
    SingleStatementDiagnostics(BlockStatement([call], Span(0, 18)), anchor);
  }

  /** `console.log('x');` in a script block that starts at offset 50: the call spans [0, 16),
      its argument `'x'` [12, 15) and the statement [0, 17). The statement is reported over
      [50, 67) and replaced by `/* console.log */`. */
  lemma ConsoleLogExample()
    ensures var stmt := ExpressionStatement(
              CallExpression(StaticMemberExpression(Identifier("console", Span(0, 7)), "log", Span(0, 11)),
                             [ExpressionArgument(OtherExpression(Span(12, 15)))], Span(0, 16)), Span(0, 17));
      BodyDiagnostics([stmt], 50)
        == [Diagnostic("Unexpected console statement: console.log", Span(50, 67),
                       Some(Fix(Span(50, 67), "/* console.log */")))]
  {
    var stmt := ExpressionStatement(
      CallExpression(StaticMemberExpression(Identifier("console", Span(0, 7)), "log", Span(0, 11)),
                     [ExpressionArgument(OtherExpression(Span(12, 15)))], Span(0, 16)), Span(0, 17));
    SingleStatementDiagnostics(stmt, 50);
    assert "Unexpected console statement: console." + "log" == "Unexpected console statement: console.log";
    assert "/* console." + "log" + " */" == "/* console.log */";
  }
}
