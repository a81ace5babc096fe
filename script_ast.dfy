/** The part of the script syntax tree the script rules look at. The parser itself is not part
    of this model: a program arrives already parsed, with spans relative to the script block.
    Every node kind the rules do not inspect is an `Other` node carrying only its span. */
module ScriptAst {
  import opened Spans
  import opened Text

  datatype Expression =
    | Identifier(name: string, span: Span)
    | StaticMemberExpression(obj: Expression, property: string, span: Span)
    | CallExpression(callee: Expression, arguments: seq<Argument>, span: Span)
    | OtherExpression(span: Span)

  /** A call argument: an ordinary expression or a spread element `...e`. */
  datatype Argument =
    | ExpressionArgument(expression: Expression)
    | SpreadArgument(spread: Expression)

  datatype Declarator = Declarator(init: Option<Expression>)

  datatype Statement =
    | ExpressionStatement(expression: Expression, span: Span)
    | VariableDeclaration(declarations: seq<Declarator>, span: Span)
    | BlockStatement(body: seq<Statement>, span: Span)
    | IfStatement(test: Expression, consequent: Statement, alternate: Option<Statement>, span: Span)
    | OtherStatement(span: Span)

  datatype Program = Program(body: seq<Statement>)

  /** `Argument::as_expression`: the expression of an ordinary argument; a spread element has
      none, so the rules never look inside it. */
  function AsExpression(a: Argument): (r: Option<Expression>)
    ensures r.Some? <==> a.ExpressionArgument?
    ensures r.Some? ==> r.value == a.expression
  {
    match a
    case ExpressionArgument(e) => Some(e)
    case SpreadArgument(_) => None
  }

  /** `e` is `root` itself or lies below it along the edges the script rules follow: a member
      access's object, a call's callee and the expressions of its ordinary arguments. */
  predicate Reaches(root: Expression, e: Expression)
    decreases root
  {
    || root == e
    || (root.StaticMemberExpression? && Reaches(root.obj, e))
    || (root.CallExpression? && (Reaches(root.callee, e) || ArgumentsReach(root.arguments, e)))
  }

  /** Some ordinary argument reaches `e`; a spread argument reaches nothing. */
  predicate ArgumentsReach(arguments: seq<Argument>, e: Expression)
    decreases arguments
  {
    exists i :: 0 <= i < |arguments| && ArgumentReaches(arguments[i], e)
  }

  predicate ArgumentReaches(a: Argument, e: Expression)
    decreases a
  {
    a.ExpressionArgument? && Reaches(a.expression, e)
  }

  /** Some declarator's initialiser reaches `e`. */
  predicate InitialisersReach(declarations: seq<Declarator>, e: Expression)
  {
    exists j :: 0 <= j < |declarations| && declarations[j].init.Some? && Reaches(declarations[j].init.value, e)
  }
}
