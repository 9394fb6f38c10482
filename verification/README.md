# cairo-lint plugin core, modelled in Dafny

This project models the plugin file of `cairo-lint-core`. That file holds three pieces of logic:

- **`diagnostic_kind_from_message`** maps a rendered diagnostic message back to the lint kind that produced it (`DestructMatch`, `MatchForEquality`, `EraseOp` or `Unknown`). It tries exact string matches in order.
- **The `CairoLint` analyzer plugin** resolves a module's items. It walks the pre-order descendants of every free function and hands each `match` expression to the single-match rule. The rule receives the diagnostic vector by `&mut`.
- **The `EraseOp` analyzer plugin** walks the same descendants. It hands each binary expression to the erasing-operation check and pushes every diagnostic the check returns.

The compiler's semantic database is replaced by the values its queries return (`semantic_db.dfy`):
- a module's item list, or the `DiagnosticAdded` error its resolution reported;
- for every free function, the result of looking it up and walking its syntax node: the pre-order sequence of the descendants of the whole function node (the node itself, its signature and its body). Each descendant is tagged with its kind and carries an identity that stands for its stable pointer, so two nested expressions that start at the same place are still distinct nodes.

The two rules are parameters of the scanners:
- `SingleMatchRule` maps the diagnostics so far and a node to the diagnostics afterwards.
- `EraseCheck` maps a node to an optional diagnostic.

What each rule does is deliberately left open. Properties that depend on a rule's behaviour take it as a hypothesis:
- `AppendsOnly`: the rule keeps what was already in the vector and only appends.
- `AddsAtMost`: the rule appends at most a given number of diagnostics per node.
- `EmitsOnly`: the rule appends only diagnostics carrying given messages.

Files:
- `wrappers.dfy`: Option and Result.
- `semantic_db.dfy`: syntax kinds, nodes, module items, diagnostics, and `LookupsResolve`.
- `dispatch.dfy`: reference definitions of what a scan computes, over flat sequences, with their lemmas:
  - `OfKind`: the nodes of one kind among a sequence of nodes.
  - `Dispatched`: those nodes over all free functions, in item order.
  - `RunRule`: what a `&mut` rule leaves in the vector.
  - `Collect`: the `Some` results of a check.
- `plugin.dfy`:
  - the classifier;
  - the two scanners, as methods with nested loops proved equal to `CairoLintScan` and `EraseOpScan`;
  - the properties of the scanners.

The classifier matches the literal `"operation can be simplifield to zero"`, misspelling included. It does not refer to the erasing-operation rule's own message constant, unlike the two single-match arms. The model keeps the literal as written and carries the rule's message as a separate value (`RuleMessages.eraseOp`). The EraseOp round trip therefore holds only when the two agree. A rule that emits the correctly spelt sentence, "operation can be simplified to zero", has its diagnostics classified as `Unknown`.

## Model

| member | source | states |
|---|---|---|
| Plugin.DiagnosticKindFromMessage | crates/cairo-lint-core/src/plugin.rs:29-36 | The result is DestructMatch iff the message is the destruct-match constant. It is MatchForEquality iff the message is the match-for-equality constant and not the destruct-match one. It is EraseOp iff the message is the literal "operation can be simplifield to zero" and neither constant. It is Unknown iff the message is none of the three. The function is total. |
| Plugin.KindRoundTrip | crates/cairo-lint-core/src/plugin.rs:29-35 | If the three rules' messages are distinct, each single-match message classifies back to its kind. The erasing rule's message classifies as EraseOp when it is the classifier's literal, and as Unknown otherwise. A message classified DestructMatch or MatchForEquality is that kind's message. A message classified EraseOp is the erasing rule's message iff that message is the literal. |
| Plugin.DestructMatchWinsTies | crates/cairo-lint-core/src/plugin.rs:30-32 | If the two single-match constants coincide, that message is DestructMatch and no message is ever MatchForEquality, because arms are tried in source order. |
| Plugin.EraseOpSpellingIsExact | crates/cairo-lint-core/src/plugin.rs:33-34 | Only the misspelt literal classifies as EraseOp. The correctly spelt "simplified" sentence is Unknown unless it is one of the single-match constants. |
| Plugin.CairoLintDiagnostics | crates/cairo-lint-core/src/plugin.rs:39-68 | The result is empty when item resolution fails. Otherwise it is what the single-match rule leaves in an initially empty vector after visiting each `match` expression descendant of each free function, in item order and then traversal order. The method demands that every free function's lookup succeeds, because the source unwraps that lookup. |
| Plugin.CairoLintEmptyWithoutMatches | crates/cairo-lint-core/src/plugin.rs:44-66 | A module with no free function, or whose free functions contain no `match` expression, yields no diagnostic, whatever the rule. |
| Plugin.CairoLintOnlyConsultsMatches | crates/cairo-lint-core/src/plugin.rs:50-60 | Two rules that agree on every `match` expression node give the same result. No other node kind, `ItemExternFunction` included, ever reaches the rule. |
| Plugin.NonFunctionItemIsInert | crates/cairo-lint-core/src/plugin.rs:44-65 | Inserting an extern function or any other non-free-function item anywhere in the item list leaves the dispatched nodes unchanged, for both scanners. |
| Plugin.CairoLintGrows | crates/cairo-lint-core/src/plugin.rs:44-61 | With a rule that only appends, the scan of `a + b` continues from the scan of `a` over `b`'s match nodes, so the earlier diagnostics are a prefix of the later result. |
| Plugin.CairoLintBound | crates/cairo-lint-core/src/plugin.rs:50-57 | With a rule that adds at most `m` diagnostics per node, the result has at most `m` times as many diagnostics as there are dispatched `match` nodes. |
| Plugin.CairoLintKinds | crates/cairo-lint-core/src/plugin.rs:52-57 | If the rule only appends diagnostics carrying its two messages, every reported diagnostic classifies as DestructMatch or MatchForEquality. |
| Plugin.EraseOpDiagnostics | crates/cairo-lint-core/src/plugin.rs:72-92 | A failed item resolution is treated as an empty item list, so the result is empty. Otherwise the result is the `Some` results of the check over the binary-expression descendants of the free functions, in item order and then traversal order. The method demands that every free function's lookup succeeds. |
| Plugin.EraseOpResults | crates/cairo-lint-core/src/plugin.rs:80-86 | The result has exactly one diagnostic per binary node the check fires on, and the i-th diagnostic is the check's result on the i-th such node. Nothing is dropped, deduplicated or reordered. The result is never longer than the number of binary nodes. |
| Plugin.EraseOpAppend | crates/cairo-lint-core/src/plugin.rs:76-89 | Scanning `a + b` reports `a`'s diagnostics followed by `b`'s, so later items never remove or reorder earlier diagnostics. |
| Plugin.EraseOpOnlyConsultsBinaries | crates/cairo-lint-core/src/plugin.rs:80-86 | Two checks that agree on every binary-expression node give the same result, so no other node kind reaches the check. |
| Plugin.EraseOpMessages | crates/cairo-lint-core/src/plugin.rs:83-85 | If every diagnostic the check returns carries one message, every diagnostic of the scan carries that message. |
| Plugin.EraseOpKinds | crates/cairo-lint-core/src/plugin.rs:29-35 | If the check only reports the erasing rule's message, that message is the classifier's literal, and the three messages are distinct, then every reported diagnostic classifies as EraseOp. |
| Plugin.EraseOpCorrectSpellingIsUnknown | crates/cairo-lint-core/src/plugin.rs:33-34 | If the check reports the correctly spelt "operation can be simplified to zero", and neither single-match constant is that sentence, every reported diagnostic classifies as Unknown. |
| Plugin.EraseOpEmptyWithoutBinaries | crates/cairo-lint-core/src/plugin.rs:76-89 | A module with no free function, or whose free functions contain no binary expression, yields no diagnostic, whatever the check. |
| Dispatch.OfKindMembership | crates/cairo-lint-core/src/plugin.rs:50-60 | A node is among a sequence's nodes of kind `k` iff it is in the sequence and has kind `k`. |
| Dispatch.DispatchedMembership | crates/cairo-lint-core/src/plugin.rs:44-61 | A node is dispatched iff it has kind `k` and is a descendant of some free function of the module. |
| Dispatch.DispatchedKinds | crates/cairo-lint-core/src/plugin.rs:51-52 | Every dispatched node has the kind the scanner dispatches on. |
| Dispatch.DispatchedEmpty | crates/cairo-lint-core/src/plugin.rs:44-66 | Nothing is dispatched iff no free function has a descendant of kind `k`. |
| Dispatch.DispatchedAppend | crates/cairo-lint-core/src/plugin.rs:76-89 | The nodes dispatched over `a + b` are those over `a` followed by those over `b`. |
| Dispatch.RunRuleAppend | crates/cairo-lint-core/src/plugin.rs:50-57 | Running the rule over `a + b` is running it over `b` from the vector that the run over `a` left. |
| Dispatch.RunRuleAgree | crates/cairo-lint-core/src/plugin.rs:51-57 | Two rules that agree on nodes of kind `k` leave the same vector after a run over nodes of kind `k`. |
| Dispatch.RunRuleGrows | crates/cairo-lint-core/src/plugin.rs:52-57 | A rule that only appends keeps the starting vector as a prefix of the final one. |
| Dispatch.RunRuleBound | crates/cairo-lint-core/src/plugin.rs:52-57 | A rule adding at most `m` diagnostics per node adds at most `m` times the node count. |
| Dispatch.RunRuleMessages | crates/cairo-lint-core/src/plugin.rs:52-57 | If the vector starts with, and the rule only appends, diagnostics carrying the given messages, the final vector carries only those messages. |
| Dispatch.Collect | crates/cairo-lint-core/src/plugin.rs:80-86 | Collecting the check's results never yields more diagnostics than there are nodes. |
| Dispatch.CollectIsFiringResults | crates/cairo-lint-core/src/plugin.rs:83-85 | The collected diagnostics are, one for one and in order, the check's results on the nodes it fires on. |
| Dispatch.CollectAppend | crates/cairo-lint-core/src/plugin.rs:80-86 | Collecting over `a + b` gives the diagnostics of `a` followed by those of `b`. |
| Dispatch.CollectAgree | crates/cairo-lint-core/src/plugin.rs:81-83 | Two checks that agree on nodes of kind `k` collect the same diagnostics over nodes of kind `k`. |
| Dispatch.PushingRule | crates/cairo-lint-core/src/plugin.rs:83-85 | Pushing the check's `Some` result onto the vector is a rule that only appends and adds at most one diagnostic per node. |
| Dispatch.CollectIsRunRule | crates/cairo-lint-core/src/plugin.rs:80-86 | Collecting the check's results equals running the pushing rule. `EraseOp` therefore follows the same accumulation scheme as `CairoLint`, with a rule that only appends. |

## Left out

- The bodies of `single_match::check_single_match` and `EraseOp::check_expr`: `lints/single_match.rs` and `erasing_op.rs` are not part of this model. The rules are function parameters, and nothing is assumed about their matching logic.
- Plugin.DiagnosticKindFromMessage: takes the rules' message constants as a parameter (`RuleMessages`), because their values live in `lints/single_match.rs` and `erasing_op.rs`, which are not part of this model. It reads only the two single-match ones. Its contract therefore holds for every choice of the constants.
- Plugin.KindRoundTrip: the EraseOp round trip is promised only when the erasing rule's message equals the classifier's literal. The rule's actual constant is in `erasing_op.rs`, which is not part of this model, so whether the two agree is left open.
- The semantic database (`module_items`, `module_free_function_by_id`, `as_syntax_node().descendants`, `from_syntax_node`, `upcast`) is replaced by its results. The descendant sequence is an input: the tree walk that produces it is not modelled.
- The function lookup panics through the double `unwrap()` when it fails. This is modelled as the scanners' precondition `LookupsResolve`, not as behaviour. `Dispatched` contributes nothing for a free function whose lookup fails, but the scanners never reach that case.
- `cairo_lint_plugin_suite`, which registers both plugins in a `PluginSuite`: a registration wrapper with no logic of its own.
- Diagnostic rendering, stable pointers and spans: a diagnostic is an opaque record of pointer, message and severity, and a syntax node's stable pointer is an opaque identity.
- The module identifier passed to the single-match rule and the database handle are closed over by the rule parameters.
