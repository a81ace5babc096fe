# A verified model of the self-made-linter core

self-made-linter is a linter for Vue single-file components (with Nuxt-specific rules).
It reads a `.vue` file and cuts out the `<script>` and `<template>` blocks. The script is
parsed into an AST and the template is tokenized. Six rules run over the results; each
reports diagnostics with absolute spans and, for some, a textual fix. The linter then
applies the fixes right to left and gives every diagnostic a 1-based line and column.

This project models that pipeline in Dafny and proves what its parts promise:

- `Extraction`: the first-match, non-nested block extraction. The block is a function of
  the text, the method repeats the Rust searches, and lemmas state its shape and miss cases.
- `TemplateParser`: the `SpannedEmitter` callback object, as a class with the same fields.
  Span reconstruction uses explicit `(offset, length)` fragments instead of pointer
  comparison. Attribute flushing is last-value-wins. Tokens go into a FIFO queue.
- `ScriptAst`: the few oxc node shapes the script rules look at.
- `LinterData`: configuration, `SourceFile`, `Diagnostic`, `Fix`, `Context` and the result
  records.
- One module per rule: `NoConsole`, `NoProcessEnv`, `NoVHtml`, `RequireVForKey`,
  `MustacheInterpolationSpacing` and `PreferImportMeta`. Each rule's `Run` method keeps the
  source's loops and accumulator. Each is proved equal to a recursive specification
  function, and lemmas state what that function reports.
- `Fixes`: `apply_fixes`. This covers the stable descending sort (modelled as a stable
  insertion sort), skipping out-of-range fixes, the returned count and the write failure.
  One lemma shows applying non-overlapping fixes right to left equals replacing them all
  at once.
- `LineCol`: `get_line_col`. It walks `char_indices`, so it compares *byte* indices with the
  offset while counting *characters*. The model uses UTF-8 widths to keep that difference.
- `MustacheFixes`: end-to-end facts about the mustache rule. Applying its fixes with
  `apply_fixes` gives exactly the fixed text, and the rule reports nothing on that text.
- `Linter`: rule dispatch, enabling rules through the configuration, and locating
  diagnostics. `lint_file` is a method of a `Linter` class holding the registered rules and
  the configuration.

Text is `seq<char>`, and spans count characters. That is the source's byte offset for
ASCII text. `LineCol` models byte indices explicitly, and `Locate` converts each span end
from a character position to its UTF-8 byte offset (`LineCol.ByteOffset`) before it calls
`get_line_col`, so locations come out as the source reports them for any text.

Inputs the model receives as parameters:

- `LintFile` gets four parameters in place of I/O and external code:
  - the file contents, where `None` means the read failed;
  - the parsed script `Program`;
  - the template tokens;
  - whether the write of the fixed file succeeds (`writeSucceeds`).
- `ApplyFixes` returns the text it would write, as `written`.

## Model

| member | source | states |
|---|---|---|
| LinterData.RuleConfig.IsEnabled | src/linter.rs:33-37 | a rule state enables the rule unless it is exactly `"off"` |
| Linter.RuleEnabled | src/linter.rs:195-199 | a rule is disabled exactly when its name is configured and that entry's state is `"off"`; an unconfigured rule is enabled |
| Linter.NamesDistinct | src/linter.rs:193 | two rules share a configuration key only if they are the same rule, so one entry governs one rule |
| Linter.RunRule | src/linter.rs:202 | the dynamic `rule.run(&ctx)` call gives the selected rule's own diagnostics |
| Linter.RunRules | src/linter.rs:191-204 | the dispatch loop yields the enabled rules' outputs, concatenated in registration order |
| Linter.DispatchPrefix | src/linter.rs:192-203 | one loop iteration appends the current rule's output, or nothing when it is disabled |
| Linter.DispatchSnoc | src/linter.rs:192-203 | registering one more rule appends exactly that rule's output to the findings |
| Linter.DispatchAppend | src/linter.rs:191-204 | the findings of two rule lists run one after the other are the two findings concatenated |
| Linter.DisabledRuleSilent | src/linter.rs:195-203 | a rule switched off contributes nothing wherever it is registered, and the other rules' findings are unchanged |
| Linter.SilentRuleDropped | src/linter.rs:201-203 | a rule whose output is empty can be removed from the list without changing the findings |
| Linter.EmptyConfigRunsAll | src/linter.rs:195-199 | with an empty configuration every registered rule runs, so the findings are all outputs in order |
| Linter.OffOutput | src/linter.rs:195-201 | switching one name off silences that rule and leaves every other rule's output as it was |
| Linter.SwitchOffIsUnregister | src/linter.rs:191-204 | switching a rule off gives the same findings as never registering it |
| Linter.Without | src/linter.rs:192 | the rules kept are exactly the registered rules not called `name` |
| Linter.Locate | src/linter.rs:213-226 | a located diagnostic keeps the message and fix availability; its start and end positions are what `get_line_col` gives for the byte offsets of the span's start and end |
| Linter.LocateCountsCharacters | src/linter.rs:213-226 | the located start line is one more than the newlines before the span's start character, and the column one more than the characters since the last of them |
| Linter.LocateMultiByteExample | src/linter.rs:213-226 | a finding on the `a` of `"éa"` (byte offset 2) is located at line 1, column 2 to column 3 |
| Linter.Enrich | src/linter.rs:213-227 | the enriched list has one entry per diagnostic, in order, each the located diagnostic (`get_line_col` called on byte offsets) |
| Linter.Linter.constructor | src/linter.rs:103-105 | a new linter has no rules and the given configuration |
| Linter.Linter.AddRule | src/linter.rs:107-109 | the rule is appended to the registered rules |
| Linter.Linter.LintFile | src/linter.rs:111-234 | an unreadable file gives no result and no write; otherwise the result has the path and one located diagnostic per rule finding, a write happens iff fixing is on and some finding has a fix, it holds the fixes applied in descending-start order, and the count is the number of fixes when the write succeeds and 0 otherwise |
| Extraction.Block | src/linter.rs:130-153 | when the opening tag, the first `>` after it and the first closing tag after that are found, the block is the text between `>` and the closing tag and the offset is one past `>`; on any miss it is `("", 0)` |
| Extraction.FoundIffOffsetPositive | src/linter.rs:125-153 | the offset is non-zero exactly when a block was located, and a zero offset comes with empty content |
| Extraction.FoundBlockShape | src/linter.rs:131-137 | a found block lies in the file at its offset, right after a `>`, is followed by the closing tag, and contains no closing tag itself |
| Extraction.NoCloseInside | src/linter.rs:135-137 | text before the first occurrence of the closing tag contains no occurrence of it |
| Extraction.ExtractBlock | src/linter.rs:131-139 | the three searches with mutable locals compute the block and offset of `Block` |
| Extraction.ExtractBlocks | src/linter.rs:125-163 | the source file keeps path and contents, and its script and template parts are the two blocks with their offsets |
| Text.Find | src/linter.rs:131-135 | a found index is the first occurrence at or after the start; no index means no occurrence there |
| Text.FirstFromUnique | src/linter.rs:131-135 | the first occurrence is unique |
| Text.TrimSpec | src/rules/vue/mustache_interpolation_spacing.rs:36 | trimming removes exactly the leading and trailing whitespace and keeps the middle as a slice |
| Text.TrimOfTrimmed | src/rules/vue/mustache_interpolation_spacing.rs:36 | text without outer whitespace trims to itself |
| Text.TrimPadded | src/rules/vue/mustache_interpolation_spacing.rs:36-42 | trimming `" " + t + " "` gives back `t` |
| Text.TrimEmptyIffAllWhitespace | src/rules/vue/mustache_interpolation_spacing.rs:36-39 | the trimmed text is empty exactly when every character is whitespace |
| Fixes.FixesOf | src/linter.rs:237 | there are never more fixes than diagnostics |
| Fixes.FixesOfMembers | src/linter.rs:237 | a fix is collected exactly when some diagnostic carries it |
| Fixes.FixesOfAppend | src/linter.rs:237 | the fixes of concatenated diagnostics are the concatenated fixes, in order |
| Fixes.ApplyFix | src/linter.rs:250-258 | a fix ending past the buffer leaves it unchanged; otherwise the prefix before `start` and the suffix after `end` are kept and the range becomes the replacement |
| Fixes.InsertByStartDesc | src/linter.rs:244 | insertion adds exactly the one fix to the multiset |
| Fixes.SortByStartDesc | src/linter.rs:244 | sorting is a permutation |
| Fixes.SortByStartDescCorrect | src/linter.rs:244 | the sort gives non-increasing starts, is a permutation, and is stable: fixes with equal starts keep their emission order |
| Fixes.InsertSorted | src/linter.rs:244 | inserting into a sorted list keeps it sorted by descending start |
| Fixes.InsertWithStart | src/linter.rs:244 | inserting a fix puts it after every fix with the same start (the stability step) |
| Fixes.SortIncreasingIsReverse | src/linter.rs:244 | fixes emitted with strictly increasing starts are sorted into reverse order |
| Fixes.Reverse | src/linter.rs:244 | the reverse has the same length with positions mirrored |
| Fixes.RightToLeftIsSimultaneous | src/linter.rs:247-259 | applying non-overlapping in-range fixes right to left on one buffer equals replacing every range of the original at once |
| Fixes.ApplyInOrderSnoc | src/linter.rs:249-259 | the loop applies one more fix to the buffer left by the previous ones |
| Fixes.ApplyFixes | src/linter.rs:236-267 | no fixes gives 0 and no write; otherwise the written text is the original with the stably sorted fixes applied in turn, and the count is the number of proposed fixes if the write succeeds and 0 otherwise |
| Fixes.SkipOutOfRange | src/linter.rs:254-256 | a fix past the buffer is skipped and the batch goes on with the next fix |
| LineCol.Utf8Width | src/linter.rs:273 | each character advances the byte index by 1 to 4, and by 1 exactly for ASCII |
| LineCol.ByteIndex | src/linter.rs:273 | the byte index of a character is strictly increasing |
| LineCol.VisitedCount | src/linter.rs:273-276 | the loop stops at the first character whose byte index equals the offset, or runs to the end |
| LineCol.LineColOf | src/linter.rs:270-285 | the line is 1 plus the newlines among the visited characters; the column is 1 plus the characters since the last visited newline |
| LineCol.GetLineCol | src/linter.rs:270-285 | the loop computes `LineColOf` |
| LineCol.NewlineCountIsMultiplicity | src/linter.rs:277-279 | the counter bumped on each newline equals the number of newlines |
| LineCol.LineColAtStart | src/linter.rs:270-285 | offset 0 is line 1, column 1 |
| LineCol.AsciiVisited | src/linter.rs:273-276 | in ASCII text the loop visits `offset` characters, or all of them when the offset is past the end |
| LineCol.AsciiByteIndex | src/linter.rs:273 | in ASCII text the byte index of a character is its position |
| LineCol.VisitedAtByteOffset | src/linter.rs:273-276 | at the byte offset of character position `k`, the loop visits exactly the `k` characters before it, or the whole text when `k` is past its end |
| LineCol.MultiByteExample | src/linter.rs:273-276 | in `"éa"`, byte offset 2 (the `a`) is column 2, while offset 1 falls inside the two-byte `é`, is never hit, and gives the column after the whole text |
| TemplateParser.Widen | src/template_parser.rs:84-97 | a fragment outside the template leaves the accumulator as it was; one inside lowers the start to its offset and raises the end to its end, if needed |
| TemplateParser.WidenCommutes | src/template_parser.rs:84-97 | the accumulator does not depend on the order in which fragments arrive |
| TemplateParser.Accumulate | src/template_parser.rs:84-97 | the accumulated start is the `usize::MAX` sentinel or inside the template |
| TemplateParser.AccumulateBounds | src/template_parser.rs:84-97 | the start stays at the sentinel exactly when no fragment was inside; otherwise the accumulator is the smallest start and largest end of the fragments inside |
| TemplateParser.SpanOf | src/template_parser.rs:110-123 | an untouched accumulator gives `Span(0, 0)`; the end is never before the start; a tag's start moves one left when positive |
| TemplateParser.TokenSpanWithinTemplate | src/template_parser.rs:84-123 | a token span built from in-template fragments lies within the template |
| TemplateParser.TagSpanStartsAtOpenBracket | src/template_parser.rs:121 | a tag whose leftmost fragment starts at p > 0 gets a span starting at p - 1, the `<` |
| TemplateParser.Flush | src/template_parser.rs:169-173 | an empty pending name leaves the attributes unchanged; otherwise the name is inserted with its value and the other keys are kept |
| TemplateParser.FlushLastValueWins | src/template_parser.rs:169-173 | flushing the same name twice keeps the second value |
| TemplateParser.SpannedEmitter.constructor | src/template_parser.rs:57-74 | a new emitter remembers the template length and starts with a cleared token state, an empty queue and no errors |
| TemplateParser.SpannedEmitter.UpdateSpan | src/template_parser.rs:84-97 | the fragment is recorded and the accumulator is widened by it |
| TemplateParser.SpannedEmitter.ResetCurrent | src/template_parser.rs:99-108 | the accumulator goes back to the sentinel and 0, and name, attributes, pending attribute, self-closing and end-tag flags are cleared |
| TemplateParser.SpannedEmitter.CreateSpan | src/template_parser.rs:110-123 | the span is the token span of the fragments observed since the last reset |
| TemplateParser.SpannedEmitter.EmitString | src/template_parser.rs:129-137 | exactly one text token with the text's span is appended, then the state is reset |
| TemplateParser.SpannedEmitter.EmitEof | src/template_parser.rs:139-141 | an end-of-file token is appended |
| TemplateParser.SpannedEmitter.EmitError | src/template_parser.rs:143-145 | the error is recorded |
| TemplateParser.SpannedEmitter.PopToken | src/template_parser.rs:147-149 | tokens leave the queue in the order they were appended; an empty queue gives none |
| TemplateParser.SpannedEmitter.Finish | src/template_parser.rs:77-82 | all queued tokens are returned in order and the queue is emptied |
| TemplateParser.SpannedEmitter.InitStartTag | src/template_parser.rs:153-156 | the state is reset and the next tag is a start tag |
| TemplateParser.SpannedEmitter.InitEndTag | src/template_parser.rs:158-161 | the state is reset and the next tag is an end tag |
| TemplateParser.SpannedEmitter.InitComment | src/template_parser.rs:163-165 | the state is reset |
| TemplateParser.SpannedEmitter.EmitCurrentTag | src/template_parser.rs:167-194 | an end tag is queued iff `init_end_tag` came last; otherwise a start tag with the flushed attributes and the self-closing flag; then the state is reset |
| TemplateParser.SpannedEmitter.EmitCurrentComment | src/template_parser.rs:196-211 | exactly one comment token with the buffered text is queued, then the state is reset |
| TemplateParser.SpannedEmitter.EmitCurrentDoctype | src/template_parser.rs:213-215 | the state is reset and nothing is queued |
| TemplateParser.SpannedEmitter.SetSelfClosing | src/template_parser.rs:217 | the tag is marked self-closing |
| TemplateParser.SpannedEmitter.PushTagName | src/template_parser.rs:220-223 | the fragment widens the span and extends the tag name |
| TemplateParser.SpannedEmitter.PushComment | src/template_parser.rs:225-229 | the fragment widens the span and extends the comment text held in the name buffer |
| TemplateParser.SpannedEmitter.InitAttribute | src/template_parser.rs:234-240 | a pending attribute with a non-empty name is flushed into the map and cleared; an empty name leaves the value buffered |
| TemplateParser.SpannedEmitter.PushAttributeName | src/template_parser.rs:242-245 | the fragment widens the span and extends the pending name |
| TemplateParser.SpannedEmitter.PushAttributeValue | src/template_parser.rs:247-250 | the fragment widens the span and extends the pending value |
| TemplateParser.VForListItemExample | src/template_parser.rs:153-194 | the callbacks for `<li v-for="i in items">` queue a start tag with that attribute and a span from `<` to the end of the value |
| NoConsole.StatementDiagnostic | src/rules/no_console.rs:24-31 | the message names `console.<prop>`, the span is the statement span shifted by the script offset, and the fix covers that span with `/* console.<prop> */` |
| NoConsole.Run | src/rules/no_console.rs:12-40 | the loop over top-level statements computes the rule's specification |
| NoConsole.BodyDiagnosticsAppend | src/rules/no_console.rs:15-37 | the findings of consecutive statement lists concatenate, in program order |
| NoConsole.SingleStatementDiagnostics | src/rules/no_console.rs:16-20 | one statement gives one diagnostic iff it is a `console.x(...)` call statement, otherwise none |
| NoConsole.BodyDiagnosticsSound | src/rules/no_console.rs:15-32 | every diagnostic comes from a top-level console call statement, and its fix covers its span |
| NoConsole.BodyDiagnosticsCount | src/rules/no_console.rs:15-37 | there are exactly as many diagnostics as console call statements |
| NoConsole.NestedCallIgnored | src/rules/no_console.rs:15-16 | a console call inside a block statement is not reported |
| NoConsole.ConsoleLogExample | src/rules/no_console.rs:24-31 | the statement `console.log('x');` (17 characters) at script offset 50 gives span [50, 67) with the comment fix |
| NoProcessEnv.MemberDiagnostic | src/rules/no_process_env.rs:46-54 | the diagnostic's span is the member span shifted by the script offset, and the fix replaces that span with `import.meta.env` |
| NoProcessEnv.CheckExpression | src/rules/no_process_env.rs:40-71 | the recursive check appends the expression's findings to the accumulator |
| NoProcessEnv.CheckArguments | src/rules/no_process_env.rs:63-67 | the argument loop appends the findings of the expression arguments in order |
| NoProcessEnv.CheckStatement | src/rules/no_process_env.rs:26-38 | only expression statements and declarator initialisers are checked |
| NoProcessEnv.CheckDeclarations | src/rules/no_process_env.rs:30-34 | the declarator loop appends each initialiser's findings in order |
| NoProcessEnv.Run | src/rules/no_process_env.rs:12-23 | the loop over top-level statements computes the rule's specification |
| NoProcessEnv.ExpressionDiagnosticsRewrite | src/rules/no_process_env.rs:44-59 | every diagnostic of an expression carries the `import.meta.env` fix on its own span |
| NoProcessEnv.BodyDiagnosticsRewrite | src/rules/no_process_env.rs:18-20 | every diagnostic of a program carries that fix |
| NoProcessEnv.BodyDiagnosticsAppend | src/rules/no_process_env.rs:18-20 | findings of consecutive statements concatenate in program order |
| NoProcessEnv.BodyDiagnosticsExact | src/rules/no_process_env.rs:12-71 | a diagnostic is reported iff it is the diagnostic of a `process.env` member that is visited (reached from a top-level expression statement or declarator initialiser through member objects, callees and non-spread arguments) |
| NoProcessEnv.ExpressionSound | src/rules/no_process_env.rs:40-71 | every diagnostic of an expression belongs to a `process.env` member it reaches |
| NoProcessEnv.ArgumentsSound | src/rules/no_process_env.rs:63-67 | every diagnostic of an argument list belongs to a `process.env` member some ordinary argument reaches |
| NoProcessEnv.ArgumentSound | src/rules/no_process_env.rs:63-67 | every diagnostic of an argument belongs to a `process.env` member the argument reaches |
| NoProcessEnv.DeclaratorsSound | src/rules/no_process_env.rs:30-34 | every diagnostic of a declaration belongs to a `process.env` member some initialiser reaches |
| NoProcessEnv.BodySound | src/rules/no_process_env.rs:12-38 | every diagnostic of a program belongs to a visited `process.env` member |
| NoProcessEnv.ExpressionComplete | src/rules/no_process_env.rs:40-71 | every `process.env` member an expression reaches is reported |
| NoProcessEnv.ArgumentsComplete | src/rules/no_process_env.rs:63-67 | every `process.env` member an ordinary argument reaches is reported |
| NoProcessEnv.ArgumentComplete | src/rules/no_process_env.rs:63-67 | every `process.env` member an ordinary argument reaches is reported for that argument |
| NoProcessEnv.DeclaratorsComplete | src/rules/no_process_env.rs:30-34 | every `process.env` member an initialiser reaches is reported |
| NoProcessEnv.BodyComplete | src/rules/no_process_env.rs:12-38 | every visited `process.env` member is reported |
| NoProcessEnv.NestedAccessReportedOnce | src/rules/no_process_env.rs:57-59 | `process.env.FOO` is reported once, on the inner `process.env` |
| NoProcessEnv.CallVisitsCalleeThenArguments | src/rules/no_process_env.rs:61-67 | a call reports its callee first, then its expression arguments; spread arguments are skipped |
| NoProcessEnv.OtherStatementsNotVisited | src/rules/no_process_env.rs:26-37 | `process.env` inside an `if` or a block statement is not reported |
| PreferImportMeta.MemberDiagnostic | src/rules/nuxt/prefer_import_meta.rs:59-69 | the message names `import.meta.<prop>` and `process.<prop>`, the span is the member span shifted by the script offset, and the fix replaces that span with `import.meta.<prop>` |
| PreferImportMeta.CheckExpression | src/rules/nuxt/prefer_import_meta.rs:51-85 | the recursive check appends the expression's findings to the accumulator |
| PreferImportMeta.CheckArguments | src/rules/nuxt/prefer_import_meta.rs:77-81 | the argument loop appends the findings of the expression arguments in order |
| PreferImportMeta.CheckStatement | src/rules/nuxt/prefer_import_meta.rs:25-49 | the recursive statement check appends the statement's findings to the accumulator |
| PreferImportMeta.CheckDeclarations | src/rules/nuxt/prefer_import_meta.rs:28-34 | the declarator loop appends each initialiser's findings in order |
| PreferImportMeta.CheckBody | src/rules/nuxt/prefer_import_meta.rs:35-39 | the loop over a block's statements appends their findings in order |
| PreferImportMeta.Run | src/rules/nuxt/prefer_import_meta.rs:13-22 | the loop over top-level statements computes the rule's specification |
| PreferImportMeta.ExpressionDiagnosticsRewrite | src/rules/nuxt/prefer_import_meta.rs:53-73 | every diagnostic of an expression carries a fix on its own span whose replacement is `import.meta.client` or `import.meta.server` |
| PreferImportMeta.StatementDiagnosticsRewrite | src/rules/nuxt/prefer_import_meta.rs:25-49 | every diagnostic of a statement, nested ones included, carries such a fix |
| PreferImportMeta.BodyDiagnosticsRewrite | src/rules/nuxt/prefer_import_meta.rs:17-19 | every diagnostic of a program carries such a fix |
| PreferImportMeta.BodyDiagnosticsAppend | src/rules/nuxt/prefer_import_meta.rs:17-19 | findings of consecutive statements concatenate in program order |
| PreferImportMeta.BodyDiagnosticsExact | src/rules/nuxt/prefer_import_meta.rs:13-85 | a diagnostic is reported iff it is the diagnostic of a `process.client` or `process.server` member that is visited (reached through expression statements, initialisers, block bodies, an if's test, consequent and alternate, member objects, callees and non-spread arguments) |
| PreferImportMeta.ExpressionSound | src/rules/nuxt/prefer_import_meta.rs:51-85 | every diagnostic of an expression belongs to a `process.client`/`process.server` member it reaches |
| PreferImportMeta.ArgumentsSound | src/rules/nuxt/prefer_import_meta.rs:77-81 | every diagnostic of an argument list belongs to such a member some ordinary argument reaches |
| PreferImportMeta.ArgumentSound | src/rules/nuxt/prefer_import_meta.rs:77-81 | every diagnostic of an argument belongs to such a member the argument reaches |
| PreferImportMeta.DeclaratorsSound | src/rules/nuxt/prefer_import_meta.rs:28-34 | every diagnostic of a declaration belongs to such a member some initialiser reaches |
| PreferImportMeta.StatementSound | src/rules/nuxt/prefer_import_meta.rs:25-49 | every diagnostic of a statement belongs to such a member the statement visits |
| PreferImportMeta.BodySound | src/rules/nuxt/prefer_import_meta.rs:13-22 | every diagnostic of a statement list belongs to such a visited member |
| PreferImportMeta.ExpressionComplete | src/rules/nuxt/prefer_import_meta.rs:51-85 | every `process.client`/`process.server` member an expression reaches is reported |
| PreferImportMeta.ArgumentsComplete | src/rules/nuxt/prefer_import_meta.rs:77-81 | every such member an ordinary argument reaches is reported |
| PreferImportMeta.ArgumentComplete | src/rules/nuxt/prefer_import_meta.rs:77-81 | every such member an ordinary argument reaches is reported for that argument |
| PreferImportMeta.DeclaratorsComplete | src/rules/nuxt/prefer_import_meta.rs:28-34 | every such member an initialiser reaches is reported |
| PreferImportMeta.StatementComplete | src/rules/nuxt/prefer_import_meta.rs:25-49 | every such member a statement visits is reported |
| PreferImportMeta.BodyComplete | src/rules/nuxt/prefer_import_meta.rs:13-22 | every such member visited in a statement list is reported |
| PreferImportMeta.OnlyClientAndServer | src/rules/nuxt/prefer_import_meta.rs:55-58 | `process.client` is reported with its fix, and `process.env` is not reported by this rule |
| PreferImportMeta.IfVisitsTestConsequentAlternate | src/rules/nuxt/prefer_import_meta.rs:35-46 | an `if` reports its test, then its consequent (descending into a block), then its alternate |
| NoVHtml.TagDiagnostic | src/rules/no_v_html.rs:21-28 | the diagnostic has the XSS message, no fix, and the tag span shifted by the template offset |
| NoVHtml.Run | src/rules/no_v_html.rs:12-35 | the loop over tokens computes the rule's specification; no tokens give no diagnostics |
| NoVHtml.TokensDiagnosticsAppend | src/rules/no_v_html.rs:16-31 | findings of consecutive token lists concatenate in token order |
| NoVHtml.SingleTokenDiagnostics | src/rules/no_v_html.rs:17-18 | one token gives a diagnostic iff it is a start tag with `v-html`; other tokens never do |
| NoVHtml.TokensDiagnosticsSound | src/rules/no_v_html.rs:16-29 | every diagnostic has the message, no fix, and the shifted span of a flagged start tag |
| NoVHtml.TokensDiagnosticsComplete | src/rules/no_v_html.rs:16-29 | every flagged start tag is reported |
| NoVHtml.TokensDiagnosticsCount | src/rules/no_v_html.rs:16-29 | there are exactly as many diagnostics as flagged start tags |
| RequireVForKey.TagDiagnostic | src/rules/vue/require_v_for_key.rs:25-32 | the diagnostic has the message, no fix, and the tag span shifted by the template offset |
| RequireVForKey.Run | src/rules/vue/require_v_for_key.rs:12-40 | the loop over tokens computes the rule's specification; no tokens give no diagnostics |
| RequireVForKey.TokensDiagnosticsAppend | src/rules/vue/require_v_for_key.rs:16-34 | findings of consecutive token lists concatenate in token order |
| RequireVForKey.SingleTokenDiagnostics | src/rules/vue/require_v_for_key.rs:17-23 | one token gives a diagnostic iff it is a start tag with `v-for` and neither `:key` nor `v-bind:key` |
| RequireVForKey.TokensDiagnosticsSound | src/rules/vue/require_v_for_key.rs:16-33 | every diagnostic has the message, no fix, and the shifted span of a flagged start tag |
| RequireVForKey.TokensDiagnosticsComplete | src/rules/vue/require_v_for_key.rs:16-33 | every flagged start tag is reported |
| RequireVForKey.TokensDiagnosticsCount | src/rules/vue/require_v_for_key.rs:16-33 | there are exactly as many diagnostics as flagged start tags |
| RequireVForKey.ListItemWithoutKey | src/rules/vue/require_v_for_key.rs:19-32 | `<li v-for>` without a key is reported once at the shifted span; with `:key` it is not |
| MustacheInterpolationSpacing.CloseFrom | src/rules/vue/mustache_interpolation_spacing.rs:20 | a found `}}` lies at or after the scan position and inside the text |
| MustacheInterpolationSpacing.CloseFromSound | src/rules/vue/mustache_interpolation_spacing.rs:20 | the scan stops at the first `}}` with no newline before it, and finds nothing exactly when there is no such `}}` |
| MustacheInterpolationSpacing.MatchAt | src/rules/vue/mustache_interpolation_spacing.rs:20 | a match at p spans at least `{{}}` and stays inside the text |
| MustacheInterpolationSpacing.MatchAtSound | src/rules/vue/mustache_interpolation_spacing.rs:20 | the match found at p is the shortest `{{…}}` there, and it is the only one |
| MustacheInterpolationSpacing.CapturesBounded | src/rules/vue/mustache_interpolation_spacing.rs:26 | every capture lies after the scan start and inside the text |
| MustacheInterpolationSpacing.CapturesAreMatches | src/rules/vue/mustache_interpolation_spacing.rs:26 | every capture is a shortest `{{…}}` match |
| MustacheInterpolationSpacing.CapturesOrdered | src/rules/vue/mustache_interpolation_spacing.rs:26 | captures are in increasing order and do not overlap |
| MustacheInterpolationSpacing.CapturesCover | src/rules/vue/mustache_interpolation_spacing.rs:26 | captures are leftmost: no match starts in a gap between them |
| MustacheInterpolationSpacing.AcceptedIffPadded | src/rules/vue/mustache_interpolation_spacing.rs:36-42 | an inner text passes exactly when it is all whitespace or is its trimmed text with one space on each side |
| MustacheInterpolationSpacing.MatchDiagnostic | src/rules/vue/mustache_interpolation_spacing.rs:36-55 | a match is reported iff its inner text fails; then the span is token start + match start/end + template offset and the fix rewrites exactly that span to `{{ trimmed }}` |
| MustacheInterpolationSpacing.CheckMatch | src/rules/vue/mustache_interpolation_spacing.rs:27-56 | the per-match check computes the match's diagnostic |
| MustacheInterpolationSpacing.CheckText | src/rules/vue/mustache_interpolation_spacing.rs:26-58 | the loop over captures collects the text's diagnostics |
| MustacheInterpolationSpacing.Run | src/rules/vue/mustache_interpolation_spacing.rs:14-64 | the loop over text tokens computes the rule's specification |
| MustacheInterpolationSpacing.TokensDiagnosticsAppend | src/rules/vue/mustache_interpolation_spacing.rs:22-60 | findings of consecutive token lists concatenate in token order |
| MustacheInterpolationSpacing.RewrittenAccepted | src/rules/vue/mustache_interpolation_spacing.rs:53 | the rewrite `{{ t }}` is one whole match, and its inner text passes |
| MustacheInterpolationSpacing.FixAccepted | src/rules/vue/mustache_interpolation_spacing.rs:36-53 | the rewrite of any failing inner text is one whole match that passes (idempotence of the fix) |
| MustacheInterpolationSpacing.Examples | src/rules/vue/mustache_interpolation_spacing.rs:36-55 | `{{ name }}`, `{{}}` and `{{   }}` pass; `{{name}}` at token start 5 and template offset 10 is reported at [15, 23) with fix `{{ name }}` |
| MustacheFixes.FixedFirst | src/rules/vue/mustache_interpolation_spacing.rs:26-53 | the fixed text starts with the same character as the original |
| MustacheFixes.CapturesShift | src/rules/vue/mustache_interpolation_spacing.rs:26 | prefixing the text shifts the captures of its tail by the prefix length |
| MustacheFixes.NoDiagnosticsIffAccepted | src/rules/vue/mustache_interpolation_spacing.rs:36-56 | a text gets no diagnostics exactly when all its captures pass |
| MustacheFixes.FixedAllAccepted | src/rules/vue/mustache_interpolation_spacing.rs:26-53 | every capture of the fixed text passes |
| MustacheFixes.FixedIsClean | src/rules/vue/mustache_interpolation_spacing.rs:26-56 | the rule reports nothing on the fixed text |
| MustacheFixes.PlanIsReported | src/rules/vue/mustache_interpolation_spacing.rs:44-55 | the fixes planned for the text are exactly the fixes the rule reports |
| MustacheFixes.PlanPlaced | src/linter.rs:244-259 | the planned fixes are ascending and non-overlapping, and replacing them all at once gives the fixed text |
| MustacheFixes.ApplyPlaced | src/linter.rs:244-259 | such fixes are sorted into reverse order, and applying them right to left gives the fixed text |
| MustacheFixes.ApplyRuleFixes | src/linter.rs:236-259 | applying the rule's own fixes to a file holding the text gives the file with the text replaced by its fixed form |

## Left out

- Reading and writing files and `eprintln!` are not modelled. The file contents and whether
  the write succeeds are parameters of `LintFile` and `ApplyFixes`. `ApplyFixes` returns
  the text it would write as `written`.
- The oxc parser is not modelled. The parsed `Program` is a parameter, with spans relative
  to the script text, and `ScriptAst` has only the node shapes the rules match on. Any
  other node is `OtherExpression` or `OtherStatement`.
- The html5gum tokenizer (the tokenizer of section 13.2.5 of the WHATWG HTML Living
  Standard) is not modelled. Only the emitter callbacks it drives are. `LintFile` receives
  the template tokens as a parameter.
- `update_span` compares raw pointers in the source. Each callback instead receives the
  fragment's offset within the template text explicitly, and a fragment counts only when
  `offset < base_len`.
- The callbacks that only return a constant or do nothing are not modelled:
  - `set_last_start_tag`, `set_force_quirks`
  - `push_doctype_name`, `init_doctype`
  - the four doctype identifier callbacks
  - `current_is_appropriate_end_tag_token`
- `emit_error` records a `TokenizerError` value, not html5gum's error type.
- The regex engine is not modelled. The lazy `\{\{(.*?)\}\}` search is a hand-written
  scanner with the same leftmost, shortest, non-overlapping matches; `.` excludes `'\n'`.
- `String::from_utf8_lossy` is not modelled; text is taken to be well-formed. Spans
  count characters; only locating them converts to byte offsets.
- `LintFile`, `ApplyFixes` and `ApplyFix` require `start <= end` of every fix. The source's
  bound check does not reject `start > end`, and `replace_range` panics on it. A panic on
  a range that is not on a character boundary is not modelled either.
- Spans are unbounded naturals. The `u32` arithmetic of the rules' offset shifts
  (`span.start + offset as u32`) could overflow, and that is not modelled.
- `usize::MAX` is the 64-bit value, kept as the accumulator's sentinel.
- `HashMap` and `BTreeMap` are maps. Iteration order never matters in the core.
- serde deserialisation of the configuration is not modelled. Rules are an enumeration
  `RuleId` with `RuleName` and `RuleDiagnostics` instead of boxed trait objects.
- The list of six rules in `Registered` follows the registration in src/main.rs:31-42. The
  rest of `main.rs` and `cli.rs` is not modelled: argument parsing, directory walking, rayon
  parallelism, printing and loading the config file.
- `slice::sort_by` is modelled as a stable insertion sort by descending start. Only its
  result is modelled, and the library guarantees that result.
- MustacheFixes.ApplyRuleFixes: stated for one text token and that rule's fixes alone, not
  for a whole file with every rule's fixes mixed in.

A few behaviours of the code are easy to misread. The model follows the code in each:

- `apply_fixes` returns the number of fixes *proposed*, skipped ones included, not the
  number applied.
- `apply_fixes` writes the file whenever there is at least one fix, even if every fix was
  skipped.
- A tag's span ends at the end of its last in-template fragment. For
  `<li v-for="i in items">` that is the end of the attribute value, so the closing quote
  and `>` are outside the span (`TemplateParser.VForListItemExample`).
- A found block always has a positive offset. So a missing block (offset 0) is told apart
  from an empty block that was found (`Extraction.FoundIffOffsetPositive`).
