/** The lint engine: the registered rules run in registration order on one file's context,
    rules switched off in the configuration are skipped, the fixes of all findings are
    applied right to left, and every finding is located by line and column. */
module Linter {
  import opened Spans
  import opened Text
  import opened TemplateParser
  import opened ScriptAst
  import opened LinterData
  import opened Extraction
  import opened Fixes
  import opened LineCol
  import NoConsole
  import NoProcessEnv
  import NoVHtml
  import RequireVForKey
  import MustacheInterpolationSpacing
  import PreferImportMeta

  /** The six rules; a registered rule is one of these values instead of a boxed trait object. */
  datatype RuleId =
    | NoConsoleRule
    | NoProcessEnvRule
    | NoVHtmlRule
    | RequireVForKeyRule
    | MustacheInterpolationSpacingRule
    | PreferImportMetaRule

  /** The registration order of the command-line program. */
  const Registered: seq<RuleId> := [NoConsoleRule, NoProcessEnvRule, NoVHtmlRule, RequireVForKeyRule,
                                    MustacheInterpolationSpacingRule, PreferImportMetaRule]

  /** `Rule::name`: the key under which the rule is configured. */
  function RuleName(r: RuleId): string
  {
    match r
    case NoConsoleRule => NoConsole.Name
    case NoProcessEnvRule => NoProcessEnv.Name
    case NoVHtmlRule => NoVHtml.Name
    case RequireVForKeyRule => RequireVForKey.Name
    case MustacheInterpolationSpacingRule => MustacheInterpolationSpacing.Name
    case PreferImportMetaRule => PreferImportMeta.Name
  }

  /** No two rules share a configuration key, so one entry of the configuration governs one
      rule only. */
  lemma NamesDistinct(a: RuleId, b: RuleId)
    ensures RuleName(a) == RuleName(b) <==> a == b
  {
    if a != b {
      assert |RuleName(a)| != |RuleName(b)|;
    }
  }

  /** `Rule::run`: what a rule reports for a context. */
  function RuleDiagnostics(r: RuleId, ctx: Context): seq<Diagnostic>
  {
    match r
    case NoConsoleRule => NoConsole.Diagnostics(ctx)
    case NoProcessEnvRule => NoProcessEnv.Diagnostics(ctx)
    case NoVHtmlRule => NoVHtml.Diagnostics(ctx)
    case RequireVForKeyRule => RequireVForKey.Diagnostics(ctx)
    case MustacheInterpolationSpacingRule => MustacheInterpolationSpacing.Diagnostics(ctx)
    case PreferImportMetaRule => PreferImportMeta.Diagnostics(ctx)
  }

  method RunRule(r: RuleId, ctx: Context) returns (diagnostics: seq<Diagnostic>)
    ensures diagnostics == RuleDiagnostics(r, ctx)
  {
    match r
    case NoConsoleRule => diagnostics := NoConsole.Run(ctx);
    case NoProcessEnvRule => diagnostics := NoProcessEnv.Run(ctx);
    case NoVHtmlRule => diagnostics := NoVHtml.Run(ctx);
    case RequireVForKeyRule => diagnostics := RequireVForKey.Run(ctx);
    case MustacheInterpolationSpacingRule => diagnostics := MustacheInterpolationSpacing.Run(ctx);
    case PreferImportMetaRule => diagnostics := PreferImportMeta.Run(ctx);
  }

  /** The configuration lookup of the dispatch loop: a configured rule follows
      `RuleConfig::is_enabled`, a rule missing from the configuration is enabled. */
  function RuleEnabled(config: LinterConfig, name: string): (b: bool)
    ensures !b <==> name in config.rules && config.rules[name].state == "off"
  {
    if name in config.rules then config.rules[name].IsEnabled() else true
  }

  /** Every rule's `run` on one context. */
  function Runner(ctx: Context): RuleId -> seq<Diagnostic>
  {
    r => RuleDiagnostics(r, ctx)
  }

  /** What one rule adds to the findings, `run` giving each rule's own output. */
  function RuleOutput(config: LinterConfig, run: RuleId -> seq<Diagnostic>, r: RuleId): seq<Diagnostic>
  {
    if RuleEnabled(config, RuleName(r)) then run(r) else []
  }

  /** The findings of the dispatch loop: the outputs of the enabled rules, in registration
      order. */
  function Dispatch(rules: seq<RuleId>, config: LinterConfig, run: RuleId -> seq<Diagnostic>): seq<Diagnostic>
  {
    if rules == [] then []
    else Dispatch(rules[..|rules| - 1], config, run) + RuleOutput(config, run, rules[|rules| - 1])
  }

  lemma DispatchPrefix(rules: seq<RuleId>, i: nat, config: LinterConfig, run: RuleId -> seq<Diagnostic>)
    requires i < |rules|
    ensures Dispatch(rules[..i + 1], config, run) == Dispatch(rules[..i], config, run) + RuleOutput(config, run, rules[i])
  {
    assert rules[..i + 1][..i] == rules[..i];
  }

  lemma DispatchSnoc(rules: seq<RuleId>, r: RuleId, config: LinterConfig, run: RuleId -> seq<Diagnostic>)
    ensures Dispatch(rules + [r], config, run) == Dispatch(rules, config, run) + RuleOutput(config, run, r)
  {
    assert (rules + [r])[..|rules|] == rules;
  }

  /** The findings of a concatenation of rule lists are the concatenated findings: each
      rule's output is placed after those of the rules registered before it. */
  lemma {:induction false} DispatchAppend(a: seq<RuleId>, b: seq<RuleId>, config: LinterConfig, run: RuleId -> seq<Diagnostic>)
    ensures Dispatch(a + b, config, run) == Dispatch(a, config, run) + Dispatch(b, config, run)
    decreases |b|
  {
    if b == [] {
      assert a + b == a;
    } else {
      var b', x := b[..|b| - 1], b[|b| - 1];
      assert b == b' + [x];
      assert a + b == (a + b') + [x];
      calc {
        Dispatch(a + b, config, run);
        { DispatchSnoc(a + b', x, config, run); }
        Dispatch(a + b', config, run) + RuleOutput(config, run, x);
        { DispatchAppend(a, b', config, run); }
        (Dispatch(a, config, run) + Dispatch(b', config, run)) + RuleOutput(config, run, x);
        Dispatch(a, config, run) + (Dispatch(b', config, run) + RuleOutput(config, run, x));
        { DispatchSnoc(b', x, config, run); }
        Dispatch(a, config, run) + Dispatch(b, config, run);
      }
    }
  }

  /** A rule switched off contributes nothing, wherever it is registered, and the others'
      findings stay as they are. */
  lemma DisabledRuleSilent(before: seq<RuleId>, r: RuleId, after: seq<RuleId>, config: LinterConfig, run: RuleId -> seq<Diagnostic>)
    requires RuleName(r) in config.rules && config.rules[RuleName(r)].state == "off"
    ensures Dispatch(before + [r] + after, config, run) == Dispatch(before + after, config, run)
  {
    SilentRuleDropped(before, r, after, config, run);
  }

  lemma SilentRuleDropped(before: seq<RuleId>, r: RuleId, after: seq<RuleId>, config: LinterConfig, run: RuleId -> seq<Diagnostic>)
    requires RuleOutput(config, run, r) == []
    ensures Dispatch(before + [r] + after, config, run) == Dispatch(before + after, config, run)
  {
    DispatchAppend(before + [r], after, config, run);
    DispatchSnoc(before, r, config, run);
    DispatchAppend(before, after, config, run);
    DropEmpty(Dispatch(before, config, run), RuleOutput(config, run, r), Dispatch(after, config, run));
  }

  lemma DropEmpty(p: seq<Diagnostic>, s: seq<Diagnostic>, q: seq<Diagnostic>)
    requires s == []
    ensures p + s + q == p + q
  {
  }

  /** With an empty configuration every rule runs: the findings are all rules' outputs. */
  lemma {:induction false} EmptyConfigRunsAll(rules: seq<RuleId>, run: RuleId -> seq<Diagnostic>)
    ensures Dispatch(rules, LinterConfig(map[]), run) == AllOutputs(rules, run)
  {
    if rules != [] {
      EmptyConfigRunsAll(rules[..|rules| - 1], run);
    }
  }

  /** Every rule's findings, in order, with no configuration consulted. */
  function AllOutputs(rules: seq<RuleId>, run: RuleId -> seq<Diagnostic>): seq<Diagnostic>
  {
    if rules == [] then [] else AllOutputs(rules[..|rules| - 1], run) + run(rules[|rules| - 1])
  }

  /** The configuration with the rule called `name` switched off. */
  function Off(config: LinterConfig, name: string): LinterConfig
  {
    LinterConfig(config.rules[name := State("off")])
  }

  /** The rules not called `name`, in order. */
  function Without(rules: seq<RuleId>, name: string): (r: seq<RuleId>)
    ensures forall x :: x in r <==> x in rules && RuleName(x) != name
  {
    if rules == [] then []
    else
      var last := rules[|rules| - 1];
      Without(rules[..|rules| - 1], name) + (if RuleName(last) == name then [] else [last])
  }

  /** Switching one rule off is the same as unregistering it: the remaining rules report
      exactly what they reported before, in the same order. */
  lemma {:induction false} SwitchOffIsUnregister(rules: seq<RuleId>, config: LinterConfig, run: RuleId -> seq<Diagnostic>, name: string)
    ensures Dispatch(rules, Off(config, name), run) == Dispatch(Without(rules, name), config, run)
  {
    if rules != [] {
      var init, last := rules[..|rules| - 1], rules[|rules| - 1];
      SwitchOffIsUnregister(init, config, run, name);
      OffOutput(config, run, name, last);
      if RuleName(last) == name {
        assert Without(rules, name) == Without(init, name) + [];
        assert Without(init, name) + [] == Without(init, name);
      } else {
        DispatchSnoc(Without(init, name), last, config, run);
      }
    }
  }

  /** Switching `name` off silences the rule called `name` and leaves every other rule's
      output as it was. */
  lemma OffOutput(config: LinterConfig, run: RuleId -> seq<Diagnostic>, name: string, r: RuleId)
    ensures RuleOutput(Off(config, name), run, r) == if RuleName(r) == name then [] else RuleOutput(config, run, r)
  {
  }

  /** The dispatch loop of `lint_file`. */
  method RunRules(rules: seq<RuleId>, config: LinterConfig, ctx: Context) returns (diagnostics: seq<Diagnostic>)
    ensures diagnostics == Dispatch(rules, config, Runner(ctx))
  {
    diagnostics := [];
    for i := 0 to |rules|
      invariant diagnostics == Dispatch(rules[..i], config, Runner(ctx))
    {
      var rule := rules[i];
      var ruleName := RuleName(rule);
      var isEnabled := if ruleName in config.rules then config.rules[ruleName].IsEnabled() else true;
      if isEnabled {
        var found := RunRule(rule, ctx);
        diagnostics := diagnostics + found;
      }
      DispatchPrefix(rules, i, config, Runner(ctx));
    }
    assert rules[..|rules|] == rules;
  }

  /** A finding located in the original text: its start and end as line and column. Spans
      count characters here while `get_line_col` takes byte offsets, so each end of the span
      is handed over as the byte offset of that character position. */
  function Locate(original: string, d: Diagnostic): (r: DiagnosticWithLocation)
    ensures r.message == d.message && r.fixAvailable == d.fix.Some?
    ensures (r.startLine, r.startColumn) == LineColOf(original, ByteOffset(original, d.span.start))
    ensures (r.endLine, r.endColumn) == LineColOf(original, ByteOffset(original, d.span.end))
  {
    var (startLine, startColumn) := LineColOf(original, ByteOffset(original, d.span.start));
    var (endLine, endColumn) := LineColOf(original, ByteOffset(original, d.span.end));
    DiagnosticWithLocation(d.message, startLine, startColumn, endLine, endColumn, d.fix.Some?)
  }

  /** A located start is the line and column of the character the span starts at: one more
      than the newlines before it, and one more than the characters since the last of them
      (a start past the end is located after the whole text). */
  lemma LocateCountsCharacters(original: string, d: Diagnostic)
    ensures var before := original[..if d.span.start < |original| then d.span.start else |original|];
      && Locate(original, d).startLine == 1 + multiset(before)['\n']
      && Locate(original, d).startColumn == 1 + LastLineLength(before)
  {
    VisitedAtByteOffset(original, d.span.start);
    var before := original[..if d.span.start < |original| then d.span.start else |original|];
    NewlineCountIsMultiplicity(before);
  }

  /** A finding on the `a` of `"éa"` is in column 2, although it starts at byte 2. */
  lemma LocateMultiByteExample()
    ensures var r := Locate("éa", Diagnostic("m", Span(1, 2), None));
      r.startLine == 1 && r.startColumn == 2 && r.endLine == 1 && r.endColumn == 3
  {
    var s := "éa";
    VisitedAtByteOffset(s, 1);
    VisitedAtByteOffset(s, 2);
    assert s[..1] == [s[0]];
    assert s[..2] == s;
  }

  /** The enrichment step of `lint_file`: every finding, in order, with its location. */
  method Enrich(original: string, diagnostics: seq<Diagnostic>) returns (located: seq<DiagnosticWithLocation>)
    ensures |located| == |diagnostics|
    ensures forall i :: 0 <= i < |diagnostics| ==> located[i] == Locate(original, diagnostics[i])
  {
    located := [];
    for i := 0 to |diagnostics|
      invariant |located| == i
      invariant forall j :: 0 <= j < i ==> located[j] == Locate(original, diagnostics[j])
    {
      var d := diagnostics[i];
      var startLine, startColumn := GetLineCol(original, ByteOffset(original, d.span.start));
      var endLine, endColumn := GetLineCol(original, ByteOffset(original, d.span.end));
      var entry := DiagnosticWithLocation(d.message, startLine, startColumn, endLine, endColumn, d.fix.Some?);
      assert entry == Locate(original, d);
      located := located + [entry];
    }
  }

  /** The file split into its blocks, as the extraction step of `lint_file` builds it. */
  function SourceFileOf(path: string, original: string): SourceFile
  {
    var (script, scriptStart) := Block(original, ScriptOpen, ScriptClose);
    var (template, templateStart) := Block(original, TemplateOpen, TemplateClose);
    SourceFile(path, original, script, scriptStart, template, templateStart)
  }

  /** The context every rule receives. `program` stands for what the script parser builds from
      the script block, `tokens` for what the tokenizer yields on the template block; a file
      with an empty template block has no token list at all. */
  function ContextOf(path: string, original: string, program: Program, tokens: seq<TemplateToken>): Context
  {
    var sourceFile := SourceFileOf(path, original);
    Context(sourceFile, program, if sourceFile.templateContent != [] then Some(tokens) else None)
  }

  class Linter {
    var rules: seq<RuleId>
    const config: LinterConfig

    /** `Linter::new`: no rules yet. */
    constructor (config: LinterConfig)
      ensures this.rules == [] && this.config == config
    {
      this.rules := [];
      this.config := config;
    }

    /** `Linter::add_rule`: the rule runs after those registered before it. */
    method AddRule(rule: RuleId)
      modifies this
      ensures rules == old(rules) + [rule]
    {
      rules := rules + [rule];
    }

    /** The findings `lint_file` reports for a file with the text `original`. */
    function Findings(path: string, original: string, program: Program, tokens: seq<TemplateToken>): seq<Diagnostic>
      reads this
    {
      Dispatch(rules, config, Runner(ContextOf(path, original, program, tokens)))
    }

    /** `lint_file`. `contents` is what reading the file gives (None when the read fails);
        `writeSucceeds` is the outcome of writing the fixed text back, and `written` the text
        handed to that write. With `fix` the fixes of all findings are applied, which
        requires each of them to end no earlier than it starts. */
    method LintFile(path: string, contents: Option<string>, program: Program, tokens: seq<TemplateToken>,
                    fix: bool, writeSucceeds: bool)
      returns (result: Option<LintResult>, written: Option<string>)
      requires contents.Some? && fix ==> AllWellFormed(FixesOf(Findings(path, contents.value, program, tokens)))
      ensures contents.None? ==> result == None && written == None
      ensures contents.Some? ==>
        var original := contents.value;
        var ds := Findings(path, original, program, tokens);
        var fixes := FixesOf(ds);
        && result.Some? && result.value.path == path
        && |result.value.diagnostics| == |ds|
        && (forall i :: 0 <= i < |ds| ==> result.value.diagnostics[i] == Locate(original, ds[i]))
        && (written.Some? <==> fix && fixes != [])
        && (written.Some? ==> written.value == ApplyInOrder(original, SortByStartDesc(fixes)))
        && result.value.fixedCount == if fix && fixes != [] && writeSucceeds then |fixes| else 0
    {
      if contents.None? {
        return None, None;
      }
      var original := contents.value;
      var sourceFile := ExtractBlocks(path, original);
      var templateTokens := if sourceFile.templateContent != [] then Some(tokens) else None;
      var ctx := Context(sourceFile, program, templateTokens);
      assert ctx == ContextOf(path, original, program, tokens);
      var diagnostics := RunRules(rules, config, ctx);
      var fixedCount := 0;
      written := None;
      if fix {
        fixedCount, written := ApplyFixes(sourceFile, diagnostics, writeSucceeds);
      }
      var located := Enrich(original, diagnostics);
      result := Some(LintResult(path, located, fixedCount));
    }
  }
}
