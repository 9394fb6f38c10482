/**
 * The lint plugin of `cairo-lint-core`: the classifier that recovers a lint's kind from a
 * diagnostic's message, and the two analyzer plugins that scan a module, `CairoLint`
 * (single-match rule on `match` expressions) and `EraseOp` (erasing-operation check on
 * binary expressions). The rules themselves are parameters.
 */
module Plugin {
  import opened Wrappers
  import opened SemanticDb
  import opened Dispatch

  // ---------------------------------------------------------------------------------------
  // Diagnostic kinds
  // ---------------------------------------------------------------------------------------

  datatype CairoLintKind = DestructMatch | MatchForEquality | EraseOp | Unknown

  /**
   * The message constants the rules own: the two the single-match rule emits and the one
   * the erasing-operation rule emits. The classifier reads only the first two; for the
   * erasing operation it compares against a literal of its own, `ERASE_OP_MESSAGE`.
   */
  datatype RuleMessages = RuleMessages(destructMatch: string, matchForEquality: string, eraseOp: string)

  /** The message the classifier takes for an erasing operation, spelled as the plugin spells it. */
  const ERASE_OP_MESSAGE: string := "operation can be simplifield to zero"

  /**
   * The kind of lint a diagnostic message belongs to: the arms are exact string matches tried
   * in order, so when two constants coincide the earlier arm wins; any other message is Unknown.
   */
  function DiagnosticKindFromMessage(consts: RuleMessages, message: string): (k: CairoLintKind)
    ensures k == DestructMatch <==> message == consts.destructMatch
    ensures k == MatchForEquality <==> message != consts.destructMatch && message == consts.matchForEquality
    ensures k == EraseOp <==>
      message != consts.destructMatch && message != consts.matchForEquality && message == ERASE_OP_MESSAGE
    ensures k == Unknown <==> message !in {consts.destructMatch, consts.matchForEquality, ERASE_OP_MESSAGE}
  {
    if message == consts.destructMatch then DestructMatch
    else if message == consts.matchForEquality then MatchForEquality
    else if message == ERASE_OP_MESSAGE then EraseOp
    else Unknown
  }

  /** The message the rule behind each known kind emits; Unknown has none. */
  function MessageOf(consts: RuleMessages, k: CairoLintKind): (m: Option<string>)
    ensures m.None? <==> k == Unknown
  {
    match k
    case DestructMatch => Some(consts.destructMatch)
    case MatchForEquality => Some(consts.matchForEquality)
    case EraseOp => Some(consts.eraseOp)
    case Unknown => None
  }

  /** The three rules' messages are pairwise distinct, and neither single-match message is the classifier's erasing literal. */
  predicate DistinctMessages(consts: RuleMessages) {
    consts.destructMatch != consts.matchForEquality &&
    consts.destructMatch != consts.eraseOp &&
    consts.matchForEquality != consts.eraseOp &&
    consts.destructMatch != ERASE_OP_MESSAGE &&
    consts.matchForEquality != ERASE_OP_MESSAGE
  }

  /**
   * How far classification inverts the rules' messages. With distinct messages, each
   * single-match message classifies back to its kind, while the erasing rule's message
   * classifies as EraseOp exactly when it is the classifier's literal and as Unknown
   * otherwise. Conversely, a message classified as a known kind is that kind's message,
   * for the erasing operation again only when the rule's message is the literal.
   */
  lemma KindRoundTrip(consts: RuleMessages, k: CairoLintKind, message: string)
    ensures DistinctMessages(consts) && (k == DestructMatch || k == MatchForEquality) ==>
      DiagnosticKindFromMessage(consts, MessageOf(consts, k).value) == k
    ensures DistinctMessages(consts) ==>
      DiagnosticKindFromMessage(consts, MessageOf(consts, EraseOp).value) ==
        (if consts.eraseOp == ERASE_OP_MESSAGE then EraseOp else Unknown)
    ensures DiagnosticKindFromMessage(consts, message) in {DestructMatch, MatchForEquality} ==>
      MessageOf(consts, DiagnosticKindFromMessage(consts, message)) == Some(message)
    ensures DiagnosticKindFromMessage(consts, message) == EraseOp ==>
      (MessageOf(consts, EraseOp) == Some(message) <==> consts.eraseOp == ERASE_OP_MESSAGE)
  {
  }

  /** If the two single-match constants coincided, that message would be classified DestructMatch. */
  lemma DestructMatchWinsTies(consts: RuleMessages)
    requires consts.destructMatch == consts.matchForEquality
    ensures DiagnosticKindFromMessage(consts, consts.matchForEquality) == DestructMatch
    ensures forall m :: DiagnosticKindFromMessage(consts, m) != MatchForEquality
  {
  }

  /**
   * Only the exact (misspelt) literal is an erasing operation: the correctly spelt sentence
   * is Unknown unless it happens to be one of the single-match constants.
   */
  lemma EraseOpSpellingIsExact(consts: RuleMessages, message: string)
    ensures DiagnosticKindFromMessage(consts, message) == EraseOp ==> message == "operation can be simplifield to zero"
    ensures consts.destructMatch != "operation can be simplified to zero" &&
            consts.matchForEquality != "operation can be simplified to zero" ==>
      DiagnosticKindFromMessage(consts, "operation can be simplified to zero") == Unknown
  {
    assert |"operation can be simplified to zero"| != |ERASE_OP_MESSAGE|;
  }

  // ---------------------------------------------------------------------------------------
  // The CairoLint analyzer plugin
  // ---------------------------------------------------------------------------------------

  /**
   * The diagnostics `CairoLint` reports for a module: none when its items do not resolve,
   * otherwise what the single-match rule leaves in an initially empty vector after visiting
   * each `match` expression of each free function, in item and traversal order.
   */
  function CairoLintScan(moduleItems: ModuleItems, rule: SingleMatchRule): seq<Diagnostic> {
    match moduleItems
    case Failure(_) => []
    case Success(items) => RunRule(rule, [], Dispatched(items, ExprMatch))
  }

  /** `CairoLint::diagnostics`: walks the items and their descendants, handing `match` expressions to the rule. */
  method CairoLintDiagnostics(moduleItems: ModuleItems, checkSingleMatch: SingleMatchRule) returns (diags: seq<Diagnostic>)
    requires moduleItems.Success? ==> LookupsResolve(moduleItems.value)
    ensures moduleItems.Failure? ==> diags == []
    ensures diags == CairoLintScan(moduleItems, checkSingleMatch)
  {
    diags := [];
    if moduleItems.Failure? {
      return diags;
    }
    var items := moduleItems.value;
    ghost var visited: seq<SyntaxNode> := [];
    for i := 0 to |items|
      invariant visited == Dispatched(items[..i], ExprMatch)
      invariant diags == RunRule(checkSingleMatch, [], visited)
    {
      DispatchedStep(items, i, ExprMatch);
      match items[i]
      case FreeFunction(lookup) =>
        var descendants := lookup.value;
        ghost var before := visited;
        assert descendants[..0] == [];
        for j := 0 to |descendants|
          invariant visited == before + OfKind(descendants[..j], ExprMatch)
          invariant diags == RunRule(checkSingleMatch, [], visited)
        {
          OfKindStep(descendants, j, ExprMatch);
          var descendant := descendants[j];
          match descendant.kind
          case ExprMatch =>
            RunRuleStep(checkSingleMatch, [], visited, descendant);
            AppendAssoc(before, OfKind(descendants[..j], ExprMatch), descendant);
            diags := checkSingleMatch(diags, descendant);
            visited := visited + [descendant];
          case ItemExternFunction =>
          case _ =>
        }
        assert descendants[..|descendants|] == descendants;
      case ExternFunction =>
      case _ =>
    }
    assert items[..|items|] == items;
  }

  /**
   * Items that are not free functions contribute nothing: inserting an extern function or
   * any other item anywhere in a module leaves both scanners' dispatched nodes unchanged.
   */
  lemma NonFunctionItemIsInert(a: seq<ModuleItem>, x: ModuleItem, b: seq<ModuleItem>, k: SyntaxKind)
    requires !x.FreeFunction?
    ensures Dispatched(a + [x] + b, k) == Dispatched(a + b, k)
  {
    assert [x][..0] == [];
    assert Dispatched([x], k) == [];
    DispatchedAppend(a, [x], k);
    assert Dispatched(a + [x], k) == Dispatched(a, k);
    DispatchedAppend(a + [x], b, k);
    DispatchedAppend(a, b, k);
  }

  /**
   * A module in which no free function has a `match` expression among its descendants,
   * in particular one without free functions, gets no diagnostic from `CairoLint`,
   * whatever the rule does.
   */
  lemma CairoLintEmptyWithoutMatches(items: seq<ModuleItem>, rule: SingleMatchRule)
    requires forall i :: 0 <= i < |items| && items[i].FreeFunction? ==>
      forall n :: n in Walked(items[i]) ==> n.kind != ExprMatch
    ensures CairoLintScan(Success(items), rule) == []
  {
    DispatchedEmpty(items, ExprMatch);
  }

  /**
   * Only `match` expressions reach the rule: two rules that agree on every `match`
   * expression node yield the same diagnostics, whatever they would do on other kinds.
   */
  lemma CairoLintOnlyConsultsMatches(moduleItems: ModuleItems, r1: SingleMatchRule, r2: SingleMatchRule)
    requires forall acc: seq<Diagnostic>, n: SyntaxNode :: n.kind == ExprMatch ==> r1(acc, n) == r2(acc, n)
    ensures CairoLintScan(moduleItems, r1) == CairoLintScan(moduleItems, r2)
  {
    if moduleItems.Success? {
      DispatchedKinds(moduleItems.value, ExprMatch);
      RunRuleAgree(r1, r2, ExprMatch, [], Dispatched(moduleItems.value, ExprMatch));
    }
  }

  /**
   * With a rule that only appends, scanning more items never removes or reorders the
   * diagnostics of the earlier ones: the scan of `a` is a prefix of the scan of `a + b`,
   * which continues from it over the `match` expressions of `b`.
   */
  lemma CairoLintGrows(a: seq<ModuleItem>, b: seq<ModuleItem>, rule: SingleMatchRule)
    requires AppendsOnly(rule)
    ensures CairoLintScan(Success(a + b), rule) ==
      RunRule(rule, CairoLintScan(Success(a), rule), Dispatched(b, ExprMatch))
    ensures CairoLintScan(Success(a), rule) <= CairoLintScan(Success(a + b), rule)
  {
    DispatchedAppend(a, b, ExprMatch);
    RunRuleAppend(rule, [], Dispatched(a, ExprMatch), Dispatched(b, ExprMatch));
    RunRuleGrows(rule, CairoLintScan(Success(a), rule), Dispatched(b, ExprMatch));
  }

  /** A rule adding at most `m` diagnostics per `match` expression gives at most `m` per dispatched node. */
  lemma CairoLintBound(items: seq<ModuleItem>, rule: SingleMatchRule, m: nat)
    requires AddsAtMost(rule, m)
    ensures |CairoLintScan(Success(items), rule)| <= m * |Dispatched(items, ExprMatch)|
  {
    RunRuleBound(rule, m, [], Dispatched(items, ExprMatch));
  }

  /**
   * When the rule only appends diagnostics carrying its own two messages, every diagnostic
   * of the scan classifies as DestructMatch or MatchForEquality.
   */
  lemma CairoLintKinds(moduleItems: ModuleItems, rule: SingleMatchRule, consts: RuleMessages)
    requires EmitsOnly(rule, {consts.destructMatch, consts.matchForEquality})
    ensures forall d :: d in CairoLintScan(moduleItems, rule) ==>
      DiagnosticKindFromMessage(consts, d.message) in {DestructMatch, MatchForEquality}
  {
    if moduleItems.Success? {
      RunRuleMessages(rule, {consts.destructMatch, consts.matchForEquality}, [], Dispatched(moduleItems.value, ExprMatch));
    }
  }

  // ---------------------------------------------------------------------------------------
  // The EraseOp analyzer plugin
  // ---------------------------------------------------------------------------------------

  /** The resolved items, or the empty list when resolution failed (Rust's `unwrap_or_default`). */
  function ItemsOrDefault(moduleItems: ModuleItems): seq<ModuleItem> {
    if moduleItems.Success? then moduleItems.value else []
  }

  /**
   * The diagnostics `EraseOp` reports for a module: its items, or none when they do not
   * resolve, and then the `Some` results of the check on each binary expression of each
   * free function, in item and traversal order.
   */
  function EraseOpScan(moduleItems: ModuleItems, check: EraseCheck): seq<Diagnostic> {
    Collect(check, Dispatched(ItemsOrDefault(moduleItems), ExprBinary))
  }

  /** `EraseOp::diagnostics`: walks the items and their descendants, pushing each diagnostic the check yields on a binary expression. */
  method EraseOpDiagnostics(moduleItems: ModuleItems, checkExpr: EraseCheck) returns (diagnostics: seq<Diagnostic>)
    requires moduleItems.Success? ==> LookupsResolve(moduleItems.value)
    ensures moduleItems.Failure? ==> diagnostics == []
    ensures diagnostics == EraseOpScan(moduleItems, checkExpr)
  {
    diagnostics := [];
    var items := if moduleItems.Success? then moduleItems.value else [];
    ghost var visited: seq<SyntaxNode> := [];
    for i := 0 to |items|
      invariant visited == Dispatched(items[..i], ExprBinary)
      invariant diagnostics == Collect(checkExpr, visited)
    {
      DispatchedStep(items, i, ExprBinary);
      if items[i].FreeFunction? {
        var descendants := items[i].descendants.value;
        ghost var before := visited;
        assert descendants[..0] == [];
        for j := 0 to |descendants|
          invariant visited == before + OfKind(descendants[..j], ExprBinary)
          invariant diagnostics == Collect(checkExpr, visited)
        {
          OfKindStep(descendants, j, ExprBinary);
          var descendant := descendants[j];
          if descendant.kind.ExprBinary? {
            CollectStep(checkExpr, visited, descendant);
            AppendAssoc(before, OfKind(descendants[..j], ExprBinary), descendant);
            visited := visited + [descendant];
            var diagnostic := checkExpr(descendant);
            if diagnostic.Some? {
              diagnostics := diagnostics + [diagnostic.value];
            }
          }
        }
        assert descendants[..|descendants|] == descendants;
      }
    }
    assert items[..|items|] == items;
  }

  /**
   * The scan is exactly the `Some` results of the check over the dispatched binary
   * expressions, in order, one per node the check fires on and never more diagnostics
   * than binary expressions.
   */
  lemma EraseOpResults(moduleItems: ModuleItems, check: EraseCheck)
    ensures |EraseOpScan(moduleItems, check)| == |Firing(check, Dispatched(ItemsOrDefault(moduleItems), ExprBinary))|
    ensures |EraseOpScan(moduleItems, check)| <= |Dispatched(ItemsOrDefault(moduleItems), ExprBinary)|
    ensures forall i :: 0 <= i < |EraseOpScan(moduleItems, check)| ==>
      check(Firing(check, Dispatched(ItemsOrDefault(moduleItems), ExprBinary))[i]) == Some(EraseOpScan(moduleItems, check)[i])
  {
    CollectIsFiringResults(check, Dispatched(ItemsOrDefault(moduleItems), ExprBinary));
  }

  /**
   * Scanning `a + b` reports the diagnostics of `a` followed by those of `b`: earlier
   * diagnostics are never removed or reordered by later items.
   */
  lemma EraseOpAppend(a: seq<ModuleItem>, b: seq<ModuleItem>, check: EraseCheck)
    ensures EraseOpScan(Success(a + b), check) == EraseOpScan(Success(a), check) + EraseOpScan(Success(b), check)
  {
    DispatchedAppend(a, b, ExprBinary);
    CollectAppend(check, Dispatched(a, ExprBinary), Dispatched(b, ExprBinary));
  }

  /**
   * Only binary expressions reach the check: two checks that agree on every binary
   * expression node yield the same diagnostics, whatever they would do on other kinds.
   */
  lemma EraseOpOnlyConsultsBinaries(moduleItems: ModuleItems, c1: EraseCheck, c2: EraseCheck)
    requires forall n: SyntaxNode :: n.kind == ExprBinary ==> c1(n) == c2(n)
    ensures EraseOpScan(moduleItems, c1) == EraseOpScan(moduleItems, c2)
  {
    DispatchedKinds(ItemsOrDefault(moduleItems), ExprBinary);
    CollectAgree(c1, c2, ExprBinary, Dispatched(ItemsOrDefault(moduleItems), ExprBinary));
  }

  /** A scan carries only the message its check reports. */
  lemma EraseOpMessages(moduleItems: ModuleItems, check: EraseCheck, m: string)
    requires forall n :: check(n).Some? ==> check(n).value.message == m
    ensures forall d :: d in EraseOpScan(moduleItems, check) ==> d.message == m
  {
    var nodes := Dispatched(ItemsOrDefault(moduleItems), ExprBinary);
    CollectIsFiringResults(check, nodes);
    forall d | d in EraseOpScan(moduleItems, check)
      ensures d.message == m
    {
      var i :| 0 <= i < |Collect(check, nodes)| && Collect(check, nodes)[i] == d;
      assert check(Firing(check, nodes)[i]) == Some(d);
    }
  }

  /**
   * When the check only reports the erasing rule's message, that message is the
   * classifier's literal and the messages are distinct, every diagnostic of the scan
   * classifies as EraseOp.
   */
  lemma EraseOpKinds(moduleItems: ModuleItems, check: EraseCheck, consts: RuleMessages)
    requires forall n :: check(n).Some? ==> check(n).value.message == consts.eraseOp
    requires DistinctMessages(consts) && consts.eraseOp == ERASE_OP_MESSAGE
    ensures forall d :: d in EraseOpScan(moduleItems, check) ==>
      DiagnosticKindFromMessage(consts, d.message) == EraseOp
  {
    EraseOpMessages(moduleItems, check, consts.eraseOp);
  }

  /**
   * A check reporting the correctly spelt sentence has all its diagnostics classified as
   * Unknown, unless that sentence is one of the single-match constants.
   */
  lemma EraseOpCorrectSpellingIsUnknown(moduleItems: ModuleItems, check: EraseCheck, consts: RuleMessages)
    requires forall n :: check(n).Some? ==> check(n).value.message == "operation can be simplified to zero"
    requires consts.destructMatch != "operation can be simplified to zero"
    requires consts.matchForEquality != "operation can be simplified to zero"
    ensures forall d :: d in EraseOpScan(moduleItems, check) ==>
      DiagnosticKindFromMessage(consts, d.message) == Unknown
  {
    EraseOpMessages(moduleItems, check, "operation can be simplified to zero");
    EraseOpSpellingIsExact(consts, "operation can be simplified to zero");
  }

  /** A module whose free functions contain no binary expression yields no diagnostic, whatever the check. */
  lemma EraseOpEmptyWithoutBinaries(items: seq<ModuleItem>, check: EraseCheck)
    requires forall i :: 0 <= i < |items| && items[i].FreeFunction? ==>
      forall n :: n in Walked(items[i]) ==> n.kind != ExprBinary
    ensures EraseOpScan(Success(items), check) == []
  {
    DispatchedEmpty(items, ExprBinary);
    EraseOpResults(Success(items), check);
  }
}
