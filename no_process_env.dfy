/** `no-process-env`: every visited `process.env` member access is reported and replaced by
    `import.meta.env`. Only top-level expression statements and variable initialisers are
    visited; inside them the traversal follows member objects, call callees and the
    non-spread call arguments. */
module NoProcessEnv {
  import opened Spans
  import opened Text
  import opened ScriptAst
  import opened LinterData

  const Name: string := "no-process-env"
  const Message: string := "Use `import.meta.env` instead of `process.env`."
  const Replacement: string := "import.meta.env"

  /** The expressions the rule reports: `process.env`. */
  predicate IsProcessEnv(e: Expression)
  {
    e.StaticMemberExpression? && e.obj.Identifier? && e.obj.name == "process" && e.property == "env"
  }

  /** The diagnostic for a `process.env` access spanning `span` in the script block. */
  function MemberDiagnostic(span: Span, anchor: nat): (d: Diagnostic)
    ensures d.message == Message
    ensures d.span.start == span.start + anchor && d.span.end == span.end + anchor
    ensures d.fix == Some(Fix(d.span, Replacement))
  {
    var shifted := Shift(span, anchor);
    Diagnostic(Message, shifted, Some(Fix(shifted, Replacement)))
  }

  /** A diagnostic of this rule: the fixed message, and a fix putting `import.meta.env` over
      exactly the reported text. */
  predicate Rewrites(ds: seq<Diagnostic>)
  {
    forall d :: d in ds ==> d.message == Message && d.fix == Some(Fix(d.span, Replacement))
  }

  /** The diagnostics `check_expression` adds for `e`, in visiting order: the member itself
      before its object, the callee before the arguments, arguments left to right. */
  function ExpressionDiagnostics(e: Expression, anchor: nat): seq<Diagnostic>
    decreases e
  {
    match e
    case StaticMemberExpression(obj, _, span) =>
      (if IsProcessEnv(e) then [MemberDiagnostic(span, anchor)] else []) + ExpressionDiagnostics(obj, anchor)
    case CallExpression(callee, arguments, _) =>
      ExpressionDiagnostics(callee, anchor) + ArgumentsDiagnostics(arguments, anchor)
    case _ => []
  }

  function ArgumentsDiagnostics(arguments: seq<Argument>, anchor: nat): seq<Diagnostic>
    decreases arguments
  {
    if arguments == [] then []
    else ArgumentsDiagnostics(arguments[..|arguments| - 1], anchor) + ArgumentDiagnostics(arguments[|arguments| - 1], anchor)
  }

  /** A spread argument is not an expression argument and is not looked into. */
  function ArgumentDiagnostics(a: Argument, anchor: nat): seq<Diagnostic>
    decreases a
  {
    match a
    case ExpressionArgument(e) => ExpressionDiagnostics(e, anchor)
    case SpreadArgument(_) => []
  }

  function DeclaratorsDiagnostics(declarations: seq<Declarator>, anchor: nat): seq<Diagnostic>
  {
    if declarations == [] then []
    else
      var last := declarations[|declarations| - 1];
      DeclaratorsDiagnostics(declarations[..|declarations| - 1], anchor)
        + (if last.init.Some? then ExpressionDiagnostics(last.init.value, anchor) else [])
  }

  /** The diagnostics `check_statement` adds: statements other than expression statements and
      variable declarations contribute nothing, whatever they contain. */
  function StatementDiagnostics(s: Statement, anchor: nat): seq<Diagnostic>
  {
    match s
    case ExpressionStatement(e, _) => ExpressionDiagnostics(e, anchor)
    case VariableDeclaration(declarations, _) => DeclaratorsDiagnostics(declarations, anchor)
    case _ => []
  }

  function BodyDiagnostics(body: seq<Statement>, anchor: nat): seq<Diagnostic>
  {
    if body == [] then []
    else BodyDiagnostics(body[..|body| - 1], anchor) + StatementDiagnostics(body[|body| - 1], anchor)
  }

  function Diagnostics(ctx: Context): seq<Diagnostic>
  {
    BodyDiagnostics(ctx.program.body, ctx.sourceFile.scriptStartOffset)
  }

  /** `check_expression`: appends the diagnostics for `e` to the accumulator. */
  method CheckExpression(e: Expression, anchor: nat, acc: seq<Diagnostic>) returns (diagnostics: seq<Diagnostic>)
    ensures diagnostics == acc + ExpressionDiagnostics(e, anchor)
    decreases e, 1
  {
    diagnostics := acc;
    match e
    case StaticMemberExpression(obj, property, span) => {
      if obj.Identifier? && obj.name == "process" && property == "env" {
        var shifted := Span(span.start + anchor, span.end + anchor);
        diagnostics := diagnostics + [Diagnostic(Message, shifted, Some(Fix(shifted, Replacement)))];
      }
      diagnostics := CheckExpression(obj, anchor, diagnostics);
    }
    case CallExpression(callee, _, _) => {
      diagnostics := CheckExpression(callee, anchor, diagnostics);
      diagnostics := CheckArguments(e, anchor, diagnostics);
    }
    case _ => {}
  }

  /** The argument loop of `check_expression` for a call `e`, left to right. */
  method CheckArguments(e: Expression, anchor: nat, acc: seq<Diagnostic>) returns (diagnostics: seq<Diagnostic>)
    requires e.CallExpression?
    ensures diagnostics == acc + ArgumentsDiagnostics(e.arguments, anchor)
    decreases e, 0
  {
    diagnostics := acc;
    var arguments := e.arguments;
    for i := 0 to |arguments|
      invariant diagnostics == acc + ArgumentsDiagnostics(arguments[..i], anchor)
    {
      var argument := AsExpression(arguments[i]);
      if argument.Some? {
        diagnostics := CheckExpression(argument.value, anchor, diagnostics);
      }
      ArgumentsDiagnosticsSnoc(arguments, i, anchor);
    }
    assert arguments[..|arguments|] == arguments;
  }

  lemma ArgumentsDiagnosticsSnoc(arguments: seq<Argument>, i: nat, anchor: nat)
    requires i < |arguments|
    ensures ArgumentsDiagnostics(arguments[..i + 1], anchor)
         == ArgumentsDiagnostics(arguments[..i], anchor) + ArgumentDiagnostics(arguments[i], anchor)
  {
    assert arguments[..i + 1][..i] == arguments[..i];
  }

  /** `check_statement`: appends the diagnostics for `s` to the accumulator. */
  method CheckStatement(s: Statement, anchor: nat, acc: seq<Diagnostic>) returns (diagnostics: seq<Diagnostic>)
    ensures diagnostics == acc + StatementDiagnostics(s, anchor)
  {
    diagnostics := acc;
    match s
    case ExpressionStatement(e, _) => {
      diagnostics := CheckExpression(e, anchor, diagnostics);
    }
    case VariableDeclaration(declarations, _) => {
      diagnostics := CheckDeclarations(declarations, anchor, diagnostics);
    }
    case _ => {}
  }

  /** The declarator loop of `check_statement`: each initializer in order. */
  method CheckDeclarations(declarations: seq<Declarator>, anchor: nat, acc: seq<Diagnostic>) returns (diagnostics: seq<Diagnostic>)
    ensures diagnostics == acc + DeclaratorsDiagnostics(declarations, anchor)
  {
    diagnostics := acc;
    for i := 0 to |declarations|
      invariant diagnostics == acc + DeclaratorsDiagnostics(declarations[..i], anchor)
    {
      var declarator := declarations[i];
      if declarator.init.Some? {
        diagnostics := CheckExpression(declarator.init.value, anchor, diagnostics);
      }
      assert declarations[..i + 1][..i] == declarations[..i];
    }
    assert declarations[..|declarations|] == declarations;
  }

  /** `NoProcessEnv::run`: the top-level statements in program order. */
  method Run(ctx: Context) returns (diagnostics: seq<Diagnostic>)
    ensures diagnostics == Diagnostics(ctx)
  {
    diagnostics := [];
    var body := ctx.program.body;
    var anchor := ctx.sourceFile.scriptStartOffset;
    for i := 0 to |body|
      invariant diagnostics == BodyDiagnostics(body[..i], anchor)
    {
      diagnostics := CheckStatement(body[i], anchor, diagnostics);
      BodyDiagnosticsPrefix(body, i, anchor);
    }
    assert body[..|body|] == body;
  }

  lemma RewritesAppend(a: seq<Diagnostic>, b: seq<Diagnostic>)
    requires Rewrites(a) && Rewrites(b)
    ensures Rewrites(a + b)
  {
  }

  /** Every diagnostic of an expression rewrites exactly its span to `import.meta.env`. */
  lemma {:induction false} ExpressionDiagnosticsRewrite(e: Expression, anchor: nat)
    ensures Rewrites(ExpressionDiagnostics(e, anchor))
    decreases e
  {
    match e
    case StaticMemberExpression(obj, _, span) =>
      ExpressionDiagnosticsRewrite(obj, anchor);
    case CallExpression(callee, arguments, _) =>
      ExpressionDiagnosticsRewrite(callee, anchor);
      ArgumentsDiagnosticsRewrite(arguments, anchor);
    case _ =>
  }

  lemma {:induction false} ArgumentsDiagnosticsRewrite(arguments: seq<Argument>, anchor: nat)
    ensures Rewrites(ArgumentsDiagnostics(arguments, anchor))
    decreases arguments
  {
    if arguments != [] {
      ArgumentsDiagnosticsRewrite(arguments[..|arguments| - 1], anchor);
      ArgumentDiagnosticsRewrite(arguments[|arguments| - 1], anchor);
    }
  }

  lemma {:induction false} ArgumentDiagnosticsRewrite(a: Argument, anchor: nat)
    ensures Rewrites(ArgumentDiagnostics(a, anchor))
    decreases a
  {
    if a.ExpressionArgument? {
      ExpressionDiagnosticsRewrite(a.expression, anchor);
    }
  }

  lemma {:induction false} DeclaratorsDiagnosticsRewrite(declarations: seq<Declarator>, anchor: nat)
    ensures Rewrites(DeclaratorsDiagnostics(declarations, anchor))
    decreases |declarations|
  {
    if declarations != [] {
      DeclaratorsDiagnosticsRewrite(declarations[..|declarations| - 1], anchor);
      var last := declarations[|declarations| - 1];
      if last.init.Some? {
        ExpressionDiagnosticsRewrite(last.init.value, anchor);
      }
    }
  }

  /** Every diagnostic of the rule rewrites exactly its span to `import.meta.env`. */
  lemma {:induction false} BodyDiagnosticsRewrite(body: seq<Statement>, anchor: nat)
    ensures Rewrites(BodyDiagnostics(body, anchor))
    decreases |body|
  {
    if body != [] {
      BodyDiagnosticsRewrite(body[..|body| - 1], anchor);
      match body[|body| - 1]
      case ExpressionStatement(e, _) => ExpressionDiagnosticsRewrite(e, anchor);
      case VariableDeclaration(declarations, _) => DeclaratorsDiagnosticsRewrite(declarations, anchor);
      case _ =>
    }
  }

  /** Program order is kept: the diagnostics of a concatenation are the concatenated diagnostics. */
  lemma {:induction false} BodyDiagnosticsAppend(a: seq<Statement>, b: seq<Statement>, anchor: nat)
    ensures BodyDiagnostics(a + b, anchor) == BodyDiagnostics(a, anchor) + BodyDiagnostics(b, anchor)
    decreases |b|
  {
    if b == [] {
      assert a + b == a;
    } else {
      var b', x := b[..|b| - 1], b[|b| - 1];
      assert (a + b)[..|a + b| - 1] == a + b' && (a + b)[|a + b| - 1] == x;
      BodyDiagnosticsAppend(a, b', anchor);
      AppendStep(BodyDiagnostics(a + b, anchor), BodyDiagnostics(a + b', anchor), BodyDiagnostics(b, anchor),
        BodyDiagnostics(a, anchor), BodyDiagnostics(b', anchor), StatementDiagnostics(x, anchor));
    }
  }

  lemma AppendStep(whole: seq<Diagnostic>, left: seq<Diagnostic>, right: seq<Diagnostic>,
                   p: seq<Diagnostic>, q: seq<Diagnostic>, r: seq<Diagnostic>)
    requires whole == left + r && left == p + q && right == q + r
    ensures whole == p + right
  {
  }

  lemma BodyDiagnosticsPrefix(body: seq<Statement>, i: nat, anchor: nat)
    requires i < |body|
    ensures BodyDiagnostics(body[..i + 1], anchor) == BodyDiagnostics(body[..i], anchor) + StatementDiagnostics(body[i], anchor)
  {
    assert body[..i + 1][..i] == body[..i];
  }

  /** `process.env.FOO` is reported once, on the inner `process.env`: the outer access is
      not itself `process.env`, and the traversal then reaches the inner one. */
  lemma NestedAccessReportedOnce(p: Span, inner: Span, outer: Span, anchor: nat)
    ensures ExpressionDiagnostics(
              StaticMemberExpression(StaticMemberExpression(Identifier("process", p), "env", inner), "FOO", outer), anchor)
         == [MemberDiagnostic(inner, anchor)]
  {
    var env := StaticMemberExpression(Identifier("process", p), "env", inner);
    assert ExpressionDiagnostics(Identifier("process", p), anchor) == [];
    assert ExpressionDiagnostics(env, anchor) == [MemberDiagnostic(inner, anchor)];
    assert !IsProcessEnv(StaticMemberExpression(env, "FOO", outer));
  }

  /** The callee is visited before the arguments, and a spread argument is skipped:
      `process.env.get(process.env, ...process.env)` gives the callee's report, then the
      first argument's, and nothing for the spread. */
  lemma CallVisitsCalleeThenArguments(p1: Span, e1: Span, g: Span, p2: Span, e2: Span, p3: Span, e3: Span, c: Span, anchor: nat)
    ensures
      var env1 := StaticMemberExpression(Identifier("process", p1), "env", e1);
      var env2 := StaticMemberExpression(Identifier("process", p2), "env", e2);
      var env3 := StaticMemberExpression(Identifier("process", p3), "env", e3);
      ExpressionDiagnostics(
        CallExpression(StaticMemberExpression(env1, "get", g), [ExpressionArgument(env2), SpreadArgument(env3)], c), anchor)
      == [MemberDiagnostic(e1, anchor), MemberDiagnostic(e2, anchor)]
  {
    var env1 := StaticMemberExpression(Identifier("process", p1), "env", e1);
    var env2 := StaticMemberExpression(Identifier("process", p2), "env", e2);
    var env3 := StaticMemberExpression(Identifier("process", p3), "env", e3);
    var args := [ExpressionArgument(env2), SpreadArgument(env3)];
    assert ExpressionDiagnostics(Identifier("process", p1), anchor) == [];
    assert ExpressionDiagnostics(Identifier("process", p2), anchor) == [];
    assert ExpressionDiagnostics(env1, anchor) == [MemberDiagnostic(e1, anchor)];
    assert ExpressionDiagnostics(env2, anchor) == [MemberDiagnostic(e2, anchor)];
    assert !IsProcessEnv(StaticMemberExpression(env1, "get", g));
    assert ExpressionDiagnostics(StaticMemberExpression(env1, "get", g), anchor) == [MemberDiagnostic(e1, anchor)];
    assert args[..1][..0] == [];
    assert ArgumentsDiagnostics(args[..1][..0], anchor) == [];
    assert ArgumentsDiagnostics(args[..1], anchor) == [MemberDiagnostic(e2, anchor)];
    assert args[..|args| - 1] == args[..1];
    assert ArgumentsDiagnostics(args, anchor) == [MemberDiagnostic(e2, anchor)];
  }

  /** Statements other than expression statements and declarations are not visited: a
      `process.env` in an if statement's test or in a block is not reported. */
  lemma OtherStatementsNotVisited(p: Span, e: Span, s: Span, anchor: nat)
    ensures
      var env := ExpressionStatement(StaticMemberExpression(Identifier("process", p), "env", e), s);
      && BodyDiagnostics([env], anchor) == [MemberDiagnostic(e, anchor)]
      && BodyDiagnostics([IfStatement(env.expression, env, None, s)], anchor) == []
      && BodyDiagnostics([BlockStatement([env], s)], anchor) == []
  {
    var env := ExpressionStatement(StaticMemberExpression(Identifier("process", p), "env", e), s);
    assert ExpressionDiagnostics(Identifier("process", p), anchor) == [];
    assert ExpressionDiagnostics(env.expression, anchor) == [MemberDiagnostic(e, anchor)];
    assert [env][..0] == [];
    assert [IfStatement(env.expression, env, None, s)][..0] == [];
    assert [BlockStatement([env], s)][..0] == [];
  }

  /** The statements' sub-expressions the rule looks at: a top-level expression statement's
      expression and a top-level declarator's initialiser, and everything they reach. */
  predicate Visited(body: seq<Statement>, e: Expression)
  {
    exists i :: 0 <= i < |body| && StatementReaches(body[i], e)
  }

  predicate StatementReaches(s: Statement, e: Expression)
  {
    || (s.ExpressionStatement? && Reaches(s.expression, e))
    || (s.VariableDeclaration? && InitialisersReach(s.declarations, e))
  }

  /** The rule reports exactly the visited `process.env` accesses: a diagnostic is in the
      result iff it is the diagnostic of some visited `process.env` member. */
  lemma BodyDiagnosticsExact(body: seq<Statement>, anchor: nat, d: Diagnostic)
    ensures d in BodyDiagnostics(body, anchor)
        <==> exists e :: Visited(body, e) && IsProcessEnv(e) && d == MemberDiagnostic(e.span, anchor)
  {
    if d in BodyDiagnostics(body, anchor) {
      BodySound(body, anchor, d);
    }
    if exists e :: Visited(body, e) && IsProcessEnv(e) && d == MemberDiagnostic(e.span, anchor) {
      var e :| Visited(body, e) && IsProcessEnv(e) && d == MemberDiagnostic(e.span, anchor);
      var i :| 0 <= i < |body| && StatementReaches(body[i], e);
      BodyComplete(body, i, e, anchor);
    }
  }

  lemma {:induction false} ExpressionSound(root: Expression, anchor: nat, d: Diagnostic)
    requires d in ExpressionDiagnostics(root, anchor)
    ensures exists e :: Reaches(root, e) && IsProcessEnv(e) && d == MemberDiagnostic(e.span, anchor)
    decreases root
  {
    if root.StaticMemberExpression? {
      if IsProcessEnv(root) && d == MemberDiagnostic(root.span, anchor) {
        assert Reaches(root, root);
      } else {
        ExpressionSound(root.obj, anchor, d);
        var e :| Reaches(root.obj, e) && IsProcessEnv(e) && d == MemberDiagnostic(e.span, anchor);
        assert Reaches(root, e);
      }
    } else if root.CallExpression? {
      if d in ExpressionDiagnostics(root.callee, anchor) {
        ExpressionSound(root.callee, anchor, d);
        var e :| Reaches(root.callee, e) && IsProcessEnv(e) && d == MemberDiagnostic(e.span, anchor);
        assert Reaches(root, e);
      } else {
        ArgumentsSound(root.arguments, anchor, d);
        var e :| ArgumentsReach(root.arguments, e) && IsProcessEnv(e) && d == MemberDiagnostic(e.span, anchor);
        assert Reaches(root, e);
      }
    }
  }

  lemma {:induction false} ArgumentsSound(arguments: seq<Argument>, anchor: nat, d: Diagnostic)
    requires d in ArgumentsDiagnostics(arguments, anchor)
    ensures exists e :: ArgumentsReach(arguments, e) && IsProcessEnv(e) && d == MemberDiagnostic(e.span, anchor)
    decreases arguments
  {
    var n := |arguments| - 1;
    if d in ArgumentsDiagnostics(arguments[..n], anchor) {
      ArgumentsSound(arguments[..n], anchor, d);
      var e :| ArgumentsReach(arguments[..n], e) && IsProcessEnv(e) && d == MemberDiagnostic(e.span, anchor);
      var i :| 0 <= i < n && ArgumentReaches(arguments[..n][i], e);
      assert ArgumentReaches(arguments[i], e);
    } else {
      ArgumentSound(arguments[n], anchor, d);
      var e :| ArgumentReaches(arguments[n], e) && IsProcessEnv(e) && d == MemberDiagnostic(e.span, anchor);
      assert ArgumentsReach(arguments, e);
    }
  }

  lemma {:induction false} ArgumentSound(a: Argument, anchor: nat, d: Diagnostic)
    requires d in ArgumentDiagnostics(a, anchor)
    ensures exists e :: ArgumentReaches(a, e) && IsProcessEnv(e) && d == MemberDiagnostic(e.span, anchor)
    decreases a
  {
    ExpressionSound(a.expression, anchor, d);
  }

  lemma {:induction false} DeclaratorsSound(declarations: seq<Declarator>, anchor: nat, d: Diagnostic)
    requires d in DeclaratorsDiagnostics(declarations, anchor)
    ensures exists e :: InitialisersReach(declarations, e) && IsProcessEnv(e) && d == MemberDiagnostic(e.span, anchor)
    decreases |declarations|
  {
    var n := |declarations| - 1;
    if d in DeclaratorsDiagnostics(declarations[..n], anchor) {
      DeclaratorsSound(declarations[..n], anchor, d);
      var e :| InitialisersReach(declarations[..n], e) && IsProcessEnv(e) && d == MemberDiagnostic(e.span, anchor);
      var j :| 0 <= j < n && declarations[..n][j].init.Some? && Reaches(declarations[..n][j].init.value, e);
      assert declarations[..n][j] == declarations[j];
    } else {
      ExpressionSound(declarations[n].init.value, anchor, d);
      var e :| Reaches(declarations[n].init.value, e) && IsProcessEnv(e) && d == MemberDiagnostic(e.span, anchor);
      assert InitialisersReach(declarations, e);
    }
  }

  lemma {:induction false} BodySound(body: seq<Statement>, anchor: nat, d: Diagnostic)
    requires d in BodyDiagnostics(body, anchor)
    ensures exists e :: Visited(body, e) && IsProcessEnv(e) && d == MemberDiagnostic(e.span, anchor)
    decreases |body|
  {
    var n := |body| - 1;
    if d in BodyDiagnostics(body[..n], anchor) {
      BodySound(body[..n], anchor, d);
      var e :| Visited(body[..n], e) && IsProcessEnv(e) && d == MemberDiagnostic(e.span, anchor);
      var i :| 0 <= i < n && StatementReaches(body[..n][i], e);
      assert body[..n][i] == body[i];
    } else if body[n].ExpressionStatement? {
      ExpressionSound(body[n].expression, anchor, d);
      var e :| Reaches(body[n].expression, e) && IsProcessEnv(e) && d == MemberDiagnostic(e.span, anchor);
      assert StatementReaches(body[n], e);
    } else {
      DeclaratorsSound(body[n].declarations, anchor, d);
      var e :| InitialisersReach(body[n].declarations, e) && IsProcessEnv(e) && d == MemberDiagnostic(e.span, anchor);
      assert StatementReaches(body[n], e);
    }
  }

  lemma {:induction false} ExpressionComplete(root: Expression, e: Expression, anchor: nat)
    requires Reaches(root, e) && IsProcessEnv(e)
    ensures MemberDiagnostic(e.span, anchor) in ExpressionDiagnostics(root, anchor)
    decreases root
  {
    if root == e {
    } else if root.StaticMemberExpression? {
      ExpressionComplete(root.obj, e, anchor);
    } else if Reaches(root.callee, e) {
      ExpressionComplete(root.callee, e, anchor);
    } else {
      var i :| 0 <= i < |root.arguments| && ArgumentReaches(root.arguments[i], e);
      ArgumentsComplete(root.arguments, i, e, anchor);
    }
  }

  lemma {:induction false} ArgumentsComplete(arguments: seq<Argument>, i: nat, e: Expression, anchor: nat)
    requires i < |arguments| && ArgumentReaches(arguments[i], e) && IsProcessEnv(e)
    ensures MemberDiagnostic(e.span, anchor) in ArgumentsDiagnostics(arguments, anchor)
    decreases arguments
  {
    var n := |arguments| - 1;
    if i == n {
      ArgumentComplete(arguments[n], e, anchor);
    } else {
      assert arguments[..n][i] == arguments[i];
      ArgumentsComplete(arguments[..n], i, e, anchor);
    }
  }

  lemma {:induction false} ArgumentComplete(a: Argument, e: Expression, anchor: nat)
    requires ArgumentReaches(a, e) && IsProcessEnv(e)
    ensures MemberDiagnostic(e.span, anchor) in ArgumentDiagnostics(a, anchor)
    decreases a
  {
    ExpressionComplete(a.expression, e, anchor);
  }

  lemma {:induction false} DeclaratorsComplete(declarations: seq<Declarator>, j: nat, e: Expression, anchor: nat)
    requires j < |declarations| && declarations[j].init.Some? && Reaches(declarations[j].init.value, e) && IsProcessEnv(e)
    ensures MemberDiagnostic(e.span, anchor) in DeclaratorsDiagnostics(declarations, anchor)
    decreases |declarations|
  {
    var n := |declarations| - 1;
    if j == n {
      ExpressionComplete(declarations[n].init.value, e, anchor);
    } else {
      assert declarations[..n][j] == declarations[j];
      DeclaratorsComplete(declarations[..n], j, e, anchor);
    }
  }

  lemma {:induction false} BodyComplete(body: seq<Statement>, i: nat, e: Expression, anchor: nat)
    requires i < |body| && StatementReaches(body[i], e) && IsProcessEnv(e)
    ensures MemberDiagnostic(e.span, anchor) in BodyDiagnostics(body, anchor)
    decreases |body|
  {
    var n := |body| - 1;
    if i < n {
      assert body[..n][i] == body[i];
      BodyComplete(body[..n], i, e, anchor);
    } else if body[n].ExpressionStatement? {
      ExpressionComplete(body[n].expression, e, anchor);
    } else {
      var j :| 0 <= j < |body[n].declarations| && body[n].declarations[j].init.Some?
        && Reaches(body[n].declarations[j].init.value, e);
      DeclaratorsComplete(body[n].declarations, j, e, anchor);
    }
  }
}
