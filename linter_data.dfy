/** The linter's data: per-rule configuration, the split single-file component, diagnostics
    with optional fixes, the context handed to every rule and the reported result. */
module LinterData {
  import opened Spans
  import opened Text
  import opened TemplateParser
  import opened ScriptAst

  /** A rule's configured state: `"off"`, `"warn"` or `"error"` (any other text is kept). */
  datatype RuleConfig = State(state: string)
  {
    /** A rule is enabled unless its state is exactly `"off"`; `"warn"` enables it too. */
    predicate IsEnabled()
    {
      state != "off"
    }
  }

  /** A rule missing from the configuration gets the state `"error"`. */
  const DefaultRuleConfig: RuleConfig := State("error")

  datatype LinterConfig = LinterConfig(rules: map<string, RuleConfig>)

  datatype SourceFile = SourceFile(
    path: string,
    originalContent: string,
    scriptContent: string,
    scriptStartOffset: nat,
    templateContent: string,
    templateStartOffset: nat)

  /** Replace the text in `span` of the original file by `replacement`. */
  datatype Fix = Fix(span: Span, replacement: string)

  /** A finding; its span is absolute in the original file. */
  datatype Diagnostic = Diagnostic(message: string, span: Span, fix: Option<Fix>)

  /** What every rule receives; `templateTokens` is `None` when the template block is empty. */
  datatype Context = Context(
    sourceFile: SourceFile,
    program: Program,
    templateTokens: Option<seq<TemplateToken>>)

  datatype DiagnosticWithLocation = DiagnosticWithLocation(
    message: string,
    startLine: nat,
    startColumn: nat,
    endLine: nat,
    endColumn: nat,
    fixAvailable: bool)

  datatype LintResult = LintResult(path: string, diagnostics: seq<DiagnosticWithLocation>, fixedCount: nat)

  /** A diagnostic whose fix replaces exactly the text it reports. */
  predicate FixCoversDiagnostic(d: Diagnostic)
  {
    d.fix.Some? && d.fix.value.span == d.span
  }

  /** The findings of each element of `xs`, in order, `f` giving one element's findings. */
  function Collect<T>(xs: seq<T>, f: T -> seq<Diagnostic>): seq<Diagnostic>
  {
    if |xs| == 0 then [] else Collect(xs[..|xs| - 1], f) + f(xs[|xs| - 1])
  }

  /** Collecting over a concatenation concatenates the findings. */
  lemma {:induction false} CollectAppend<T>(a: seq<T>, b: seq<T>, f: T -> seq<Diagnostic>)
    ensures Collect(a + b, f) == Collect(a, f) + Collect(b, f)
    decreases |b|
  {
    if |b| == 0 {
      assert a + b == a;
    } else {
      var b', x := b[..|b| - 1], b[|b| - 1];
      assert b == b' + [x];
      assert a + b == (a + b') + [x];
      calc {
        Collect(a + b, f);
        { CollectSnoc(a + b', x, f); }
        Collect(a + b', f) + f(x);
        { CollectAppend(a, b', f); }
        (Collect(a, f) + Collect(b', f)) + f(x);
        Collect(a, f) + (Collect(b', f) + f(x));
        { CollectSnoc(b', x, f); }
        Collect(a, f) + Collect(b, f);
      }
    }
  }

  /** One more element adds its findings at the end. */
  lemma CollectSnoc<T>(a: seq<T>, x: T, f: T -> seq<Diagnostic>)
    ensures Collect(a + [x], f) == Collect(a, f) + f(x)
  {
    assert (a + [x])[..|a|] == a;
  }

  /** One more element in front adds its findings first. */
  lemma CollectCons<T>(x: T, b: seq<T>, f: T -> seq<Diagnostic>)
    ensures Collect([x] + b, f) == f(x) + Collect(b, f)
  {
    CollectAppend([x], b, f);
    CollectSnoc([], x, f);
    assert [] + [x] == [x];
  }
}
