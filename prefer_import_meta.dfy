/** `nuxt/prefer-import-meta`: `process.client` and `process.server` are reported and replaced
    by `import.meta.client` and `import.meta.server`. Unlike `no-process-env`, the traversal
    also enters block bodies and if statements (test, then consequent, then alternate). */
module PreferImportMeta {
  import opened Spans
  import opened Text
  import opened ScriptAst
  import opened LinterData

  const Name: string := "nuxt/prefer-import-meta"

  /** The expressions the rule reports: `process.client` and `process.server`; every other
      property of `process` is left alone. */
  predicate IsProcessFlag(e: Expression)
  {
    && e.StaticMemberExpression? && e.obj.Identifier? && e.obj.name == "process"
    && (e.property == "client" || e.property == "server")
  }

  function MessageFor(property: string): string
  {
    "Use `import.meta." + property + "` instead of `process." + property + "`."
  }

  function ReplacementFor(property: string): string
  {
    "import.meta." + property
  }

  /** The diagnostic for `process.<property>` spanning `span` in the script block. */
  function MemberDiagnostic(property: string, span: Span, anchor: nat): (d: Diagnostic)
    ensures d.message == MessageFor(property)
    ensures d.span.start == span.start + anchor && d.span.end == span.end + anchor
    ensures d.fix == Some(Fix(d.span, ReplacementFor(property)))
  {
    var shifted := Shift(span, anchor);
    Diagnostic(MessageFor(property), shifted, Some(Fix(shifted, ReplacementFor(property))))
  }

  /** A diagnostic of this rule names `client` or `server` and rewrites exactly its span to
      the matching `import.meta` form. */
  predicate Rewrites(ds: seq<Diagnostic>)
  {
    forall d :: d in ds ==>
      || (d.message == MessageFor("client") && d.fix == Some(Fix(d.span, ReplacementFor("client"))))
      || (d.message == MessageFor("server") && d.fix == Some(Fix(d.span, ReplacementFor("server"))))
  }

  /** The diagnostics `check_expression` adds for `e`, in visiting order: the member itself
      before its object, the callee before the arguments, arguments left to right. */
  function ExpressionDiagnostics(e: Expression, anchor: nat): seq<Diagnostic>
    decreases e
  {
    match e
    case StaticMemberExpression(obj, property, span) =>
      (if IsProcessFlag(e) then [MemberDiagnostic(property, span, anchor)] else []) + ExpressionDiagnostics(obj, anchor)
    case CallExpression(callee, arguments, _) =>
      ExpressionDiagnostics(callee, anchor) + ArgumentsDiagnostics(arguments, anchor)
    case _ => []
  }

  function ArgumentsDiagnostics(arguments: seq<Argument>, anchor: nat): seq<Diagnostic>
    decreases arguments
  {
    if arguments == [] then []
    else ArgumentsDiagnostics(arguments[..|arguments| - 1], anchor) + ArgumentDiagnostics(arguments[|arguments| - 1], anchor)
  }

  /** A spread argument is not an expression argument and is not looked into. */
  function ArgumentDiagnostics(a: Argument, anchor: nat): seq<Diagnostic>
    decreases a
  {
    match a
    case ExpressionArgument(e) => ExpressionDiagnostics(e, anchor)
    case SpreadArgument(_) => []
  }

  function DeclaratorsDiagnostics(declarations: seq<Declarator>, anchor: nat): seq<Diagnostic>
  {
    if declarations == [] then []
    else
      var last := declarations[|declarations| - 1];
      DeclaratorsDiagnostics(declarations[..|declarations| - 1], anchor)
        + (if last.init.Some? then ExpressionDiagnostics(last.init.value, anchor) else [])
  }

  /** The diagnostics `check_statement` adds: expression statements, declarations, blocks and
      if statements are entered; any other statement contributes nothing. */
  function StatementDiagnostics(s: Statement, anchor: nat): seq<Diagnostic>
    decreases s
  {
    match s
    case ExpressionStatement(e, _) => ExpressionDiagnostics(e, anchor)
    case VariableDeclaration(declarations, _) => DeclaratorsDiagnostics(declarations, anchor)
    case BlockStatement(body, _) => BodyDiagnostics(body, anchor)
    case IfStatement(test, consequent, alternate, _) =>
      ExpressionDiagnostics(test, anchor) + StatementDiagnostics(consequent, anchor)
        + (if alternate.Some? then StatementDiagnostics(alternate.value, anchor) else [])
    case _ => []
  }

  function BodyDiagnostics(body: seq<Statement>, anchor: nat): seq<Diagnostic>
    decreases body
  {
    if body == [] then []
    else BodyDiagnostics(body[..|body| - 1], anchor) + StatementDiagnostics(body[|body| - 1], anchor)
  }

  function Diagnostics(ctx: Context): seq<Diagnostic>
  {
    BodyDiagnostics(ctx.program.body, ctx.sourceFile.scriptStartOffset)
  }

  /** `check_expression`: appends the diagnostics for `e` to the accumulator. */
  method CheckExpression(e: Expression, anchor: nat, acc: seq<Diagnostic>) returns (diagnostics: seq<Diagnostic>)
    ensures diagnostics == acc + ExpressionDiagnostics(e, anchor)
    decreases e, 1
  {
    diagnostics := acc;
    match e
    case StaticMemberExpression(obj, property, span) => {
      if obj.Identifier? && obj.name == "process" {
        if property == "client" || property == "server" {
          var shifted := Span(span.start + anchor, span.end + anchor);
          var replacement := "import.meta." + property;
          diagnostics := diagnostics + [Diagnostic(
            "Use `import.meta." + property + "` instead of `process." + property + "`.",
            shifted, Some(Fix(shifted, replacement)))];
        }
      }
      diagnostics := CheckExpression(obj, anchor, diagnostics);
    }
    case CallExpression(callee, _, _) => {
      diagnostics := CheckExpression(callee, anchor, diagnostics);
      diagnostics := CheckArguments(e, anchor, diagnostics);
    }
    case _ => {}
  }

  /** The argument loop of `check_expression` for a call `e`, left to right. */
  method CheckArguments(e: Expression, anchor: nat, acc: seq<Diagnostic>) returns (diagnostics: seq<Diagnostic>)
    requires e.CallExpression?
    ensures diagnostics == acc + ArgumentsDiagnostics(e.arguments, anchor)
    decreases e, 0
  {
    diagnostics := acc;
    var arguments := e.arguments;
    for i := 0 to |arguments|
      invariant diagnostics == acc + ArgumentsDiagnostics(arguments[..i], anchor)
    {
      var argument := AsExpression(arguments[i]);
      if argument.Some? {
        diagnostics := CheckExpression(argument.value, anchor, diagnostics);
      }
      ArgumentsDiagnosticsSnoc(arguments, i, anchor);
    }
    assert arguments[..|arguments|] == arguments;
  }

  lemma ArgumentsDiagnosticsSnoc(arguments: seq<Argument>, i: nat, anchor: nat)
    requires i < |arguments|
    ensures ArgumentsDiagnostics(arguments[..i + 1], anchor)
         == ArgumentsDiagnostics(arguments[..i], anchor) + ArgumentDiagnostics(arguments[i], anchor)
  {
    assert arguments[..i + 1][..i] == arguments[..i];
  }

  /** `check_statement`: appends the diagnostics for `s` to the accumulator. */
  method CheckStatement(s: Statement, anchor: nat, acc: seq<Diagnostic>) returns (diagnostics: seq<Diagnostic>)
    ensures diagnostics == acc + StatementDiagnostics(s, anchor)
    decreases s, 1
  {
    diagnostics := acc;
    match s
    case ExpressionStatement(e, _) => {
      diagnostics := CheckExpression(e, anchor, diagnostics);
    }
    case VariableDeclaration(_, _) => {
      diagnostics := CheckDeclarations(s, anchor, diagnostics);
    }
    case BlockStatement(_, _) => {
      diagnostics := CheckBody(s, anchor, diagnostics);
    }
    case IfStatement(test, consequent, alternate, _) => {
      diagnostics := CheckExpression(test, anchor, diagnostics);
      diagnostics := CheckStatement(consequent, anchor, diagnostics);
      if alternate.Some? {
        diagnostics := CheckStatement(alternate.value, anchor, diagnostics);
      }
      AppendAssoc(acc, ExpressionDiagnostics(test, anchor), StatementDiagnostics(consequent, anchor),
        if alternate.Some? then StatementDiagnostics(alternate.value, anchor) else []);
    }
    case _ => {}
  }

  lemma AppendAssoc(acc: seq<Diagnostic>, a: seq<Diagnostic>, b: seq<Diagnostic>, c: seq<Diagnostic>)
    ensures acc + (a + b + c) == acc + a + b + c
    ensures acc + a + b + [] == acc + a + b
  {
  }

  /** The declarator loop of `check_statement`: each initializer in order. */
  method CheckDeclarations(s: Statement, anchor: nat, acc: seq<Diagnostic>) returns (diagnostics: seq<Diagnostic>)
    requires s.VariableDeclaration?
    ensures diagnostics == acc + DeclaratorsDiagnostics(s.declarations, anchor)
    decreases s, 0
  {
    diagnostics := acc;
    var declarations := s.declarations;
    for i := 0 to |declarations|
      invariant diagnostics == acc + DeclaratorsDiagnostics(declarations[..i], anchor)
    {
      var declarator := declarations[i];
      if declarator.init.Some? {
        diagnostics := CheckExpression(declarator.init.value, anchor, diagnostics);
      }
      assert declarations[..i + 1][..i] == declarations[..i];
    }
    assert declarations[..|declarations|] == declarations;
  }

  /** The block loop of `check_statement`: each statement of the block in order. */
  method CheckBody(s: Statement, anchor: nat, acc: seq<Diagnostic>) returns (diagnostics: seq<Diagnostic>)
    requires s.BlockStatement?
    ensures diagnostics == acc + BodyDiagnostics(s.body, anchor)
    decreases s, 0
  {
    diagnostics := acc;
    var body := s.body;
    for i := 0 to |body|
      invariant diagnostics == acc + BodyDiagnostics(body[..i], anchor)
    {
      diagnostics := CheckStatement(body[i], anchor, diagnostics);
      assert body[..i + 1][..i] == body[..i];
    }
    assert body[..|body|] == body;
  }

  /** `PreferImportMeta::run`: the top-level statements in program order. */
  method Run(ctx: Context) returns (diagnostics: seq<Diagnostic>)
    ensures diagnostics == Diagnostics(ctx)
  {
    diagnostics := [];
    var body := ctx.program.body;
    var anchor := ctx.sourceFile.scriptStartOffset;
    for i := 0 to |body|
      invariant diagnostics == BodyDiagnostics(body[..i], anchor)
    {
      diagnostics := CheckStatement(body[i], anchor, diagnostics);
      assert body[..i + 1][..i] == body[..i];
    }
    assert body[..|body|] == body;
  }

  /** Every diagnostic of an expression rewrites exactly its span to the `import.meta` form. */
  lemma {:induction false} ExpressionDiagnosticsRewrite(e: Expression, anchor: nat)
    ensures Rewrites(ExpressionDiagnostics(e, anchor))
    decreases e
  {
    match e
    case StaticMemberExpression(obj, property, span) =>
      ExpressionDiagnosticsRewrite(obj, anchor);
      if IsProcessFlag(e) {
        if property == "client" {
          assert Rewrites([MemberDiagnostic("client", span, anchor)]);
        } else {
          assert Rewrites([MemberDiagnostic("server", span, anchor)]);
        }
      }
    case CallExpression(callee, arguments, _) =>
      ExpressionDiagnosticsRewrite(callee, anchor);
      ArgumentsDiagnosticsRewrite(arguments, anchor);
    case _ =>
  }

  lemma {:induction false} ArgumentsDiagnosticsRewrite(arguments: seq<Argument>, anchor: nat)
    ensures Rewrites(ArgumentsDiagnostics(arguments, anchor))
    decreases arguments
  {
    if arguments != [] {
      ArgumentsDiagnosticsRewrite(arguments[..|arguments| - 1], anchor);
      ArgumentDiagnosticsRewrite(arguments[|arguments| - 1], anchor);
    }
  }

  lemma {:induction false} ArgumentDiagnosticsRewrite(a: Argument, anchor: nat)
    ensures Rewrites(ArgumentDiagnostics(a, anchor))
    decreases a
  {
    if a.ExpressionArgument? {
      ExpressionDiagnosticsRewrite(a.expression, anchor);
    }
  }

  lemma {:induction false} DeclaratorsDiagnosticsRewrite(declarations: seq<Declarator>, anchor: nat)
    ensures Rewrites(DeclaratorsDiagnostics(declarations, anchor))
    decreases |declarations|
  {
    if declarations != [] {
      DeclaratorsDiagnosticsRewrite(declarations[..|declarations| - 1], anchor);
      var last := declarations[|declarations| - 1];
      if last.init.Some? {
        ExpressionDiagnosticsRewrite(last.init.value, anchor);
      }
    }
  }

  /** Every diagnostic of a statement, however deeply nested in blocks and branches, rewrites
      exactly its span to the `import.meta` form. */
  lemma {:induction false} StatementDiagnosticsRewrite(s: Statement, anchor: nat)
    ensures Rewrites(StatementDiagnostics(s, anchor))
    decreases s
  {
    match s
    case ExpressionStatement(e, _) => ExpressionDiagnosticsRewrite(e, anchor);
    case VariableDeclaration(declarations, _) => DeclaratorsDiagnosticsRewrite(declarations, anchor);
    case BlockStatement(body, _) => BodyDiagnosticsRewrite(body, anchor);
    case IfStatement(test, consequent, alternate, _) =>
      ExpressionDiagnosticsRewrite(test, anchor);
      StatementDiagnosticsRewrite(consequent, anchor);
      if alternate.Some? {
        StatementDiagnosticsRewrite(alternate.value, anchor);
      }
    case _ =>
  }

  lemma {:induction false} BodyDiagnosticsRewrite(body: seq<Statement>, anchor: nat)
    ensures Rewrites(BodyDiagnostics(body, anchor))
    decreases body
  {
    if body != [] {
      BodyDiagnosticsRewrite(body[..|body| - 1], anchor);
      StatementDiagnosticsRewrite(body[|body| - 1], anchor);
    }
  }

  /** Program order is kept: the diagnostics of a concatenation are the concatenated diagnostics. */
  lemma {:induction false} BodyDiagnosticsAppend(a: seq<Statement>, b: seq<Statement>, anchor: nat)
    ensures BodyDiagnostics(a + b, anchor) == BodyDiagnostics(a, anchor) + BodyDiagnostics(b, anchor)
    decreases |b|
  {
    if b == [] {
      assert a + b == a;
    } else {
      var b' := b[..|b| - 1];
      BodyDiagnosticsAppend(a, b', anchor);
      assert (a + b)[..|a + b| - 1] == a + b';
    }
  }

  /** `process.client` is reported, `process.env` is not: only the two flags count. */
  lemma OnlyClientAndServer(p: Span, m: Span, anchor: nat)
    ensures ExpressionDiagnostics(StaticMemberExpression(Identifier("process", p), "client", m), anchor)
         == [MemberDiagnostic("client", m, anchor)]
    ensures ExpressionDiagnostics(StaticMemberExpression(Identifier("process", p), "env", m), anchor) == []
  {
    assert ExpressionDiagnostics(Identifier("process", p), anchor) == [];
    assert !IsProcessFlag(StaticMemberExpression(Identifier("process", p), "env", m));
  }

  /** `if (process.client) { process.server } else process.client` is reported three times:
      the test first, then the block in the consequent, then the alternate. */
  lemma IfVisitsTestConsequentAlternate(p1: Span, m1: Span, p2: Span, m2: Span, s2: Span, b: Span,
                                        p3: Span, m3: Span, s3: Span, s: Span, anchor: nat)
    ensures
      var test := StaticMemberExpression(Identifier("process", p1), "client", m1);
      var inner := ExpressionStatement(StaticMemberExpression(Identifier("process", p2), "server", m2), s2);
      var alternate := ExpressionStatement(StaticMemberExpression(Identifier("process", p3), "client", m3), s3);
      StatementDiagnostics(IfStatement(test, BlockStatement([inner], b), Some(alternate), s), anchor)
        == [MemberDiagnostic("client", m1, anchor), MemberDiagnostic("server", m2, anchor),
            MemberDiagnostic("client", m3, anchor)]
  {
    var test := StaticMemberExpression(Identifier("process", p1), "client", m1);
    var inner := ExpressionStatement(StaticMemberExpression(Identifier("process", p2), "server", m2), s2);
    assert ExpressionDiagnostics(Identifier("process", p1), anchor) == [];
    assert ExpressionDiagnostics(Identifier("process", p2), anchor) == [];
    assert ExpressionDiagnostics(Identifier("process", p3), anchor) == [];
    assert StatementDiagnostics(inner, anchor) == [MemberDiagnostic("server", m2, anchor)];
    assert [inner][..0] == [];
    assert BodyDiagnostics([inner], anchor) == [MemberDiagnostic("server", m2, anchor)];
  }

  /** The sub-expressions of a statement the rule looks at: expression statements,
      declarator initialisers, the statements of blocks, and an if statement's test,
      consequent and alternate, with everything those expressions reach. */
  predicate StatementReaches(s: Statement, e: Expression)
    decreases s
  {
    match s
    case ExpressionStatement(x, _) => Reaches(x, e)
    case VariableDeclaration(declarations, _) => InitialisersReach(declarations, e)
    case BlockStatement(body, _) => Visited(body, e)
    case IfStatement(test, consequent, alternate, _) =>
      || Reaches(test, e) || StatementReaches(consequent, e)
      || (alternate.Some? && StatementReaches(alternate.value, e))
    case _ => false
  }

  predicate Visited(body: seq<Statement>, e: Expression)
    decreases body
  {
    exists i :: 0 <= i < |body| && StatementReaches(body[i], e)
  }

  /** The rule reports exactly the visited `process.client` and `process.server` accesses:
      a diagnostic is in the result iff it is the diagnostic of some such visited member. */
  lemma BodyDiagnosticsExact(body: seq<Statement>, anchor: nat, d: Diagnostic)
    ensures d in BodyDiagnostics(body, anchor)
        <==> exists e :: Visited(body, e) && IsProcessFlag(e) && d == MemberDiagnostic(e.property, e.span, anchor)
  {
    if d in BodyDiagnostics(body, anchor) {
      BodySound(body, anchor, d);
    }
    if exists e :: Visited(body, e) && IsProcessFlag(e) && d == MemberDiagnostic(e.property, e.span, anchor) {
      var e :| Visited(body, e) && IsProcessFlag(e) && d == MemberDiagnostic(e.property, e.span, anchor);
      var i :| 0 <= i < |body| && StatementReaches(body[i], e);
      BodyComplete(body, i, e, anchor);
    }
  }

  lemma {:induction false} ExpressionSound(root: Expression, anchor: nat, d: Diagnostic)
    requires d in ExpressionDiagnostics(root, anchor)
    ensures exists e :: Reaches(root, e) && IsProcessFlag(e) && d == MemberDiagnostic(e.property, e.span, anchor)
    decreases root
  {
    if root.StaticMemberExpression? {
      if IsProcessFlag(root) && d == MemberDiagnostic(root.property, root.span, anchor) {
        assert Reaches(root, root);
      } else {
        ExpressionSound(root.obj, anchor, d);
        var e :| Reaches(root.obj, e) && IsProcessFlag(e) && d == MemberDiagnostic(e.property, e.span, anchor);
        assert Reaches(root, e);
      }
    } else if root.CallExpression? {
      if d in ExpressionDiagnostics(root.callee, anchor) {
        ExpressionSound(root.callee, anchor, d);
        var e :| Reaches(root.callee, e) && IsProcessFlag(e) && d == MemberDiagnostic(e.property, e.span, anchor);
        assert Reaches(root, e);
      } else {
        ArgumentsSound(root.arguments, anchor, d);
        var e :| ArgumentsReach(root.arguments, e) && IsProcessFlag(e) && d == MemberDiagnostic(e.property, e.span, anchor);
        assert Reaches(root, e);
      }
    }
  }

  lemma {:induction false} ArgumentsSound(arguments: seq<Argument>, anchor: nat, d: Diagnostic)
    requires d in ArgumentsDiagnostics(arguments, anchor)
    ensures exists e :: ArgumentsReach(arguments, e) && IsProcessFlag(e) && d == MemberDiagnostic(e.property, e.span, anchor)
    decreases arguments
  {
    var n := |arguments| - 1;
    if d in ArgumentsDiagnostics(arguments[..n], anchor) {
      ArgumentsSound(arguments[..n], anchor, d);
      var e :| ArgumentsReach(arguments[..n], e) && IsProcessFlag(e) && d == MemberDiagnostic(e.property, e.span, anchor);
      var i :| 0 <= i < n && ArgumentReaches(arguments[..n][i], e);
      assert ArgumentReaches(arguments[i], e);
    } else {
      ArgumentSound(arguments[n], anchor, d);
      var e :| ArgumentReaches(arguments[n], e) && IsProcessFlag(e) && d == MemberDiagnostic(e.property, e.span, anchor);
      assert ArgumentsReach(arguments, e);
    }
  }

  lemma {:induction false} ArgumentSound(a: Argument, anchor: nat, d: Diagnostic)
    requires d in ArgumentDiagnostics(a, anchor)
    ensures exists e :: ArgumentReaches(a, e) && IsProcessFlag(e) && d == MemberDiagnostic(e.property, e.span, anchor)
    decreases a
  {
    ExpressionSound(a.expression, anchor, d);
  }

  lemma {:induction false} DeclaratorsSound(declarations: seq<Declarator>, anchor: nat, d: Diagnostic)
    requires d in DeclaratorsDiagnostics(declarations, anchor)
    ensures exists e :: InitialisersReach(declarations, e) && IsProcessFlag(e) && d == MemberDiagnostic(e.property, e.span, anchor)
    decreases |declarations|
  {
    var n := |declarations| - 1;
    if d in DeclaratorsDiagnostics(declarations[..n], anchor) {
      DeclaratorsSound(declarations[..n], anchor, d);
      var e :| InitialisersReach(declarations[..n], e) && IsProcessFlag(e) && d == MemberDiagnostic(e.property, e.span, anchor);
      var j :| 0 <= j < n && declarations[..n][j].init.Some? && Reaches(declarations[..n][j].init.value, e);
      assert declarations[..n][j] == declarations[j];
    } else {
      ExpressionSound(declarations[n].init.value, anchor, d);
      var e :| Reaches(declarations[n].init.value, e) && IsProcessFlag(e) && d == MemberDiagnostic(e.property, e.span, anchor);
      assert InitialisersReach(declarations, e);
    }
  }

  lemma {:induction false} StatementSound(s: Statement, anchor: nat, d: Diagnostic)
    requires d in StatementDiagnostics(s, anchor)
    ensures exists e :: StatementReaches(s, e) && IsProcessFlag(e) && d == MemberDiagnostic(e.property, e.span, anchor)
    decreases s, 0
  {
    match s
    case ExpressionStatement(x, _) =>
      ExpressionSound(x, anchor, d);
    case VariableDeclaration(declarations, _) =>
      DeclaratorsSound(declarations, anchor, d);
    case BlockStatement(body, _) =>
      BodySound(body, anchor, d);
    case IfStatement(test, consequent, alternate, _) =>
      if d in ExpressionDiagnostics(test, anchor) {
        ExpressionSound(test, anchor, d);
      } else if d in StatementDiagnostics(consequent, anchor) {
        StatementSound(consequent, anchor, d);
      } else {
        StatementSound(alternate.value, anchor, d);
      }
  }

  lemma {:induction false} BodySound(body: seq<Statement>, anchor: nat, d: Diagnostic)
    requires d in BodyDiagnostics(body, anchor)
    ensures exists e :: Visited(body, e) && IsProcessFlag(e) && d == MemberDiagnostic(e.property, e.span, anchor)
    decreases body, 1
  {
    var n := |body| - 1;
    if d in BodyDiagnostics(body[..n], anchor) {
      BodySound(body[..n], anchor, d);
      var e :| Visited(body[..n], e) && IsProcessFlag(e) && d == MemberDiagnostic(e.property, e.span, anchor);
      var i :| 0 <= i < n && StatementReaches(body[..n][i], e);
      assert body[..n][i] == body[i];
    } else {
      StatementSound(body[n], anchor, d);
      var e :| StatementReaches(body[n], e) && IsProcessFlag(e) && d == MemberDiagnostic(e.property, e.span, anchor);
      assert Visited(body, e);
    }
  }

  lemma {:induction false} ExpressionComplete(root: Expression, e: Expression, anchor: nat)
    requires Reaches(root, e) && IsProcessFlag(e)
    ensures MemberDiagnostic(e.property, e.span, anchor) in ExpressionDiagnostics(root, anchor)
    decreases root
  {
    if root == e {
    } else if root.StaticMemberExpression? {
      ExpressionComplete(root.obj, e, anchor);
    } else if Reaches(root.callee, e) {
      ExpressionComplete(root.callee, e, anchor);
    } else {
      var i :| 0 <= i < |root.arguments| && ArgumentReaches(root.arguments[i], e);
      ArgumentsComplete(root.arguments, i, e, anchor);
    }
  }

  lemma {:induction false} ArgumentsComplete(arguments: seq<Argument>, i: nat, e: Expression, anchor: nat)
    requires i < |arguments| && ArgumentReaches(arguments[i], e) && IsProcessFlag(e)
    ensures MemberDiagnostic(e.property, e.span, anchor) in ArgumentsDiagnostics(arguments, anchor)
    decreases arguments
  {
    var n := |arguments| - 1;
    if i == n {
      ArgumentComplete(arguments[n], e, anchor);
    } else {
      assert arguments[..n][i] == arguments[i];
      ArgumentsComplete(arguments[..n], i, e, anchor);
    }
  }

  lemma {:induction false} ArgumentComplete(a: Argument, e: Expression, anchor: nat)
    requires ArgumentReaches(a, e) && IsProcessFlag(e)
    ensures MemberDiagnostic(e.property, e.span, anchor) in ArgumentDiagnostics(a, anchor)
    decreases a
  {
    ExpressionComplete(a.expression, e, anchor);
  }

  lemma {:induction false} DeclaratorsComplete(declarations: seq<Declarator>, j: nat, e: Expression, anchor: nat)
    requires j < |declarations| && declarations[j].init.Some? && Reaches(declarations[j].init.value, e) && IsProcessFlag(e)
    ensures MemberDiagnostic(e.property, e.span, anchor) in DeclaratorsDiagnostics(declarations, anchor)
    decreases |declarations|
  {
    var n := |declarations| - 1;
    if j == n {
      ExpressionComplete(declarations[n].init.value, e, anchor);
    } else {
      assert declarations[..n][j] == declarations[j];
      DeclaratorsComplete(declarations[..n], j, e, anchor);
    }
  }

  lemma {:induction false} StatementComplete(s: Statement, e: Expression, anchor: nat)
    requires StatementReaches(s, e) && IsProcessFlag(e)
    ensures MemberDiagnostic(e.property, e.span, anchor) in StatementDiagnostics(s, anchor)
    decreases s, 0
  {
    match s
    case ExpressionStatement(x, _) =>
      ExpressionComplete(x, e, anchor);
    case VariableDeclaration(declarations, _) =>
      var j :| 0 <= j < |declarations| && declarations[j].init.Some? && Reaches(declarations[j].init.value, e);
      DeclaratorsComplete(declarations, j, e, anchor);
    case BlockStatement(body, _) =>
      var i :| 0 <= i < |body| && StatementReaches(body[i], e);
      BodyComplete(body, i, e, anchor);
    case IfStatement(test, consequent, alternate, _) =>
      if Reaches(test, e) {
        ExpressionComplete(test, e, anchor);
      } else if StatementReaches(consequent, e) {
        StatementComplete(consequent, e, anchor);
      } else {
        StatementComplete(alternate.value, e, anchor);
      }
  }

  lemma {:induction false} BodyComplete(body: seq<Statement>, i: nat, e: Expression, anchor: nat)
    requires i < |body| && StatementReaches(body[i], e) && IsProcessFlag(e)
    ensures MemberDiagnostic(e.property, e.span, anchor) in BodyDiagnostics(body, anchor)
    decreases body, 1
  {
    var n := |body| - 1;
    if i < n {
      assert body[..n][i] == body[i];
      BodyComplete(body[..n], i, e, anchor);
    } else {
      StatementComplete(body[n], e, anchor);
    }
  }
}
