/**
 * Reference definitions of what the two scanners of the lint plugin compute, written
 * over flat sequences: which descendants a scanner dispatches, what a rule that takes the
 * diagnostic vector by `&mut` leaves in it, and what collecting a check's `Some` results
 * yields. All are defined on the last element so that they follow a loop over a prefix.
 */
module Dispatch {
  import opened Wrappers
  import opened SemanticDb

  /** Those of `nodes` whose kind is `k`, in traversal order. */
  function OfKind(nodes: seq<SyntaxNode>, k: SyntaxKind): (r: seq<SyntaxNode>)
    ensures |r| <= |nodes|
  {
    if nodes == [] then []
    else OfKind(nodes[..|nodes| - 1], k) + (if nodes[|nodes| - 1].kind == k then [nodes[|nodes| - 1]] else [])
  }

  /** A node is among the nodes of kind `k` exactly when it is one of the nodes and has kind `k`. */
  lemma {:induction false} OfKindMembership(nodes: seq<SyntaxNode>, k: SyntaxKind, n: SyntaxNode)
    ensures n in OfKind(nodes, k) <==> n in nodes && n.kind == k
  {
    if nodes != [] {
      var init, last := nodes[..|nodes| - 1], nodes[|nodes| - 1];
      assert nodes == init + [last];
      OfKindMembership(init, k, n);
    }
  }

  /** The descendants a scanner walks for one item: a free function's descendants; nothing for any other item. */
  function Walked(item: ModuleItem): seq<SyntaxNode> {
    if item.FreeFunction? && item.descendants.Some? then item.descendants.value else []
  }

  /**
   * The nodes of kind `k` that a scanner visits: for each free function in item order,
   * the nodes of kind `k` among its descendants in traversal order. Extern functions and
   * every other item contribute nothing. (The scanners abort on a free function whose
   * lookup fails, so they are only ever run where every lookup succeeds.)
   */
  function Dispatched(items: seq<ModuleItem>, k: SyntaxKind): seq<SyntaxNode> {
    if items == [] then []
    else Dispatched(items[..|items| - 1], k) + OfKind(Walked(items[|items| - 1]), k)
  }

  /** Dispatching over two item lists one after the other is dispatching over their concatenation. */
  lemma {:induction false} DispatchedAppend(a: seq<ModuleItem>, b: seq<ModuleItem>, k: SyntaxKind)
    ensures Dispatched(a + b, k) == Dispatched(a, k) + Dispatched(b, k)
  {
    if b == [] {
      assert a + b == a;
    } else {
      var init := b[..|b| - 1];
      assert (a + b)[..|a + b| - 1] == a + init;
      assert (a + b)[|a + b| - 1] == b[|b| - 1];
      DispatchedAppend(a, init, k);
    }
  }

  /**
   * A node is dispatched exactly when it has kind `k` and is a descendant of some free
   * function of the module.
   */
  lemma {:induction false} DispatchedMembership(items: seq<ModuleItem>, k: SyntaxKind, n: SyntaxNode)
    ensures n in Dispatched(items, k) <==>
      n.kind == k && exists i :: 0 <= i < |items| && items[i].FreeFunction? && n in Walked(items[i])
  {
    if items != [] {
      var init, last := items[..|items| - 1], items[|items| - 1];
      DispatchedMembership(init, k, n);
      OfKindMembership(Walked(last), k, n);
      if exists i :: 0 <= i < |items| && items[i].FreeFunction? && n in Walked(items[i]) {
        var i :| 0 <= i < |items| && items[i].FreeFunction? && n in Walked(items[i]);
        if i < |items| - 1 {
          assert init[i] == items[i];
        }
      }
    }
  }

  /** Every dispatched node has the kind dispatched on. */
  lemma DispatchedKinds(items: seq<ModuleItem>, k: SyntaxKind)
    ensures forall n :: n in Dispatched(items, k) ==> n.kind == k
  {
    forall n | n in Dispatched(items, k)
      ensures n.kind == k
    {
      DispatchedMembership(items, k, n);
    }
  }

  /**
   * Nothing is dispatched exactly when no free function of the module has a descendant of
   * kind `k`: in particular when the module has no free functions at all.
   */
  lemma DispatchedEmpty(items: seq<ModuleItem>, k: SyntaxKind)
    ensures Dispatched(items, k) == [] <==>
      forall i :: 0 <= i < |items| && items[i].FreeFunction? ==>
        forall n :: n in Walked(items[i]) ==> n.kind != k
  {
    var r := Dispatched(items, k);
    if r != [] {
      DispatchedMembership(items, k, r[0]);
    }
    forall i, n | 0 <= i < |items| && items[i].FreeFunction? && n in Walked(items[i]) && n.kind == k
      ensures r != []
    {
      DispatchedMembership(items, k, n);
    }
  }

  /**
   * Appending one more node after a concatenation. A solver hint with no content of its
   * own: stated inline, this step makes the scanners' inner-loop proofs several times dearer.
   */
  lemma AppendAssoc(a: seq<SyntaxNode>, b: seq<SyntaxNode>, n: SyntaxNode)
    ensures a + (b + [n]) == (a + b) + [n]
  {
  }

  /** Extending a prefix of the nodes by one node extends its nodes of kind `k` by that node when it has kind `k`. */
  lemma OfKindStep(nodes: seq<SyntaxNode>, j: nat, k: SyntaxKind)
    requires j < |nodes|
    ensures nodes[j].kind == k ==> OfKind(nodes[..j + 1], k) == OfKind(nodes[..j], k) + [nodes[j]]
    ensures nodes[j].kind != k ==> OfKind(nodes[..j + 1], k) == OfKind(nodes[..j], k)
  {
    assert nodes[..j + 1][..j] == nodes[..j];
    assert OfKind(nodes[..j], k) + [] == OfKind(nodes[..j], k);
  }

  /** Extending an item prefix by one item extends the dispatched nodes by what that item contributes. */
  lemma DispatchedStep(items: seq<ModuleItem>, i: nat, k: SyntaxKind)
    requires i < |items|
    ensures Dispatched(items[..i + 1], k) == Dispatched(items[..i], k) + OfKind(Walked(items[i]), k)
  {
    assert items[..i + 1][..i] == items[..i];
  }

  /**
   * A single-match rule: given the diagnostics collected so far and a `match` expression
   * node, the diagnostics afterwards. It receives the vector by `&mut`, so nothing about its
   * shape forbids it from rewriting what is already there.
   */
  type SingleMatchRule = (seq<Diagnostic>, SyntaxNode) -> seq<Diagnostic>

  /** What applying `rule` to each of `nodes` in turn leaves in a vector that started as `acc`. */
  function RunRule(rule: SingleMatchRule, acc: seq<Diagnostic>, nodes: seq<SyntaxNode>): seq<Diagnostic>
  {
    if nodes == [] then acc
    else rule(RunRule(rule, acc, nodes[..|nodes| - 1]), nodes[|nodes| - 1])
  }

  /** Running over one more node applies the rule once more. */
  lemma RunRuleStep(rule: SingleMatchRule, acc: seq<Diagnostic>, visited: seq<SyntaxNode>, n: SyntaxNode)
    ensures RunRule(rule, acc, visited + [n]) == rule(RunRule(rule, acc, visited), n)
  {
    assert (visited + [n])[..|visited|] == visited;
  }

  /** Two rules that agree on every node of kind `k` agree on a run over nodes of kind `k`. */
  lemma {:induction false} RunRuleAgree(r1: SingleMatchRule, r2: SingleMatchRule, k: SyntaxKind, acc: seq<Diagnostic>, nodes: seq<SyntaxNode>)
    requires forall n :: n in nodes ==> n.kind == k
    requires forall a: seq<Diagnostic>, n: SyntaxNode :: n.kind == k ==> r1(a, n) == r2(a, n)
    ensures RunRule(r1, acc, nodes) == RunRule(r2, acc, nodes)
  {
    if nodes != [] {
      var init := nodes[..|nodes| - 1];
      assert forall n :: n in init ==> n in nodes;
      RunRuleAgree(r1, r2, k, acc, init);
      assert nodes[|nodes| - 1] in nodes;
    }
  }

  /** The rule only appends: what was in the vector before stays, in place and in order. */
  ghost predicate AppendsOnly(rule: SingleMatchRule) {
    forall acc, n :: acc <= rule(acc, n)
  }

  /** The rule adds at most `m` diagnostics per node. */
  ghost predicate AddsAtMost(rule: SingleMatchRule, m: nat) {
    forall acc, n :: |rule(acc, n)| <= |acc| + m
  }

  /** The rule only appends, and every diagnostic it appends carries one of `messages`. */
  ghost predicate EmitsOnly(rule: SingleMatchRule, messages: set<string>) {
    forall acc, n :: acc <= rule(acc, n) &&
      forall j :: |acc| <= j < |rule(acc, n)| ==> rule(acc, n)[j].message in messages
  }

  /** Running over `a` and then over `b` is running over `a + b`. */
  lemma {:induction false} RunRuleAppend(rule: SingleMatchRule, acc: seq<Diagnostic>, a: seq<SyntaxNode>, b: seq<SyntaxNode>)
    ensures RunRule(rule, acc, a + b) == RunRule(rule, RunRule(rule, acc, a), b)
  {
    if b == [] {
      assert a + b == a;
    } else {
      var init := b[..|b| - 1];
      assert (a + b)[..|a + b| - 1] == a + init;
      assert (a + b)[|a + b| - 1] == b[|b| - 1];
      RunRuleAppend(rule, acc, a, init);
    }
  }

  /** A rule that only appends never removes or reorders what the vector held before the run. */
  lemma {:induction false} RunRuleGrows(rule: SingleMatchRule, acc: seq<Diagnostic>, nodes: seq<SyntaxNode>)
    requires AppendsOnly(rule)
    ensures acc <= RunRule(rule, acc, nodes)
  {
    if nodes != [] {
      var init := nodes[..|nodes| - 1];
      RunRuleGrows(rule, acc, init);
      var mid := RunRule(rule, acc, init);
      assert mid <= rule(mid, nodes[|nodes| - 1]);
    }
  }

  /** A rule adding at most `m` diagnostics per node adds at most `m` times the node count. */
  lemma {:induction false} RunRuleBound(rule: SingleMatchRule, m: nat, acc: seq<Diagnostic>, nodes: seq<SyntaxNode>)
    requires AddsAtMost(rule, m)
    ensures |RunRule(rule, acc, nodes)| <= |acc| + m * |nodes|
  {
    if nodes != [] {
      var init := nodes[..|nodes| - 1];
      RunRuleBound(rule, m, acc, init);
      var mid := RunRule(rule, acc, init);
      assert |rule(mid, nodes[|nodes| - 1])| <= |mid| + m;
    }
  }

  /** If every diagnostic before the run and every one the rule appends carries one of `messages`, so does every diagnostic after it. */
  lemma {:induction false} RunRuleMessages(rule: SingleMatchRule, messages: set<string>, acc: seq<Diagnostic>, nodes: seq<SyntaxNode>)
    requires EmitsOnly(rule, messages)
    requires forall d :: d in acc ==> d.message in messages
    ensures forall d :: d in RunRule(rule, acc, nodes) ==> d.message in messages
  {
    if nodes != [] {
      var init := nodes[..|nodes| - 1];
      RunRuleMessages(rule, messages, acc, init);
      var mid := RunRule(rule, acc, init);
      var after := rule(mid, nodes[|nodes| - 1]);
      assert mid <= after;
      forall d | d in after
        ensures d.message in messages
      {
        var j :| 0 <= j < |after| && after[j] == d;
        if j < |mid| {
          assert mid[j] == d;
        }
      }
    }
  }

  /** The erase-operation check: a binary expression node yields a diagnostic or none. */
  type EraseCheck = SyntaxNode -> Option<Diagnostic>

  /** The diagnostics a check yields for one node: its `Some` result, or nothing. */
  function Yield(o: Option<Diagnostic>): (r: seq<Diagnostic>)
    ensures |r| <= 1
    ensures o.Some? <==> |r| == 1
    ensures forall d :: d in r <==> o == Some(d)
  {
    match o
    case Some(d) => [d]
    case None => []
  }

  /** The `Some` results of `check` over `nodes`, pushed in order. */
  function Collect(check: EraseCheck, nodes: seq<SyntaxNode>): (r: seq<Diagnostic>)
    ensures |r| <= |nodes|
  {
    if nodes == [] then []
    else Collect(check, nodes[..|nodes| - 1]) + Yield(check(nodes[|nodes| - 1]))
  }

  /** Collecting over one more node appends that node's result, if any. */
  lemma CollectStep(check: EraseCheck, visited: seq<SyntaxNode>, n: SyntaxNode)
    ensures check(n).Some? ==> Collect(check, visited + [n]) == Collect(check, visited) + [check(n).value]
    ensures check(n).None? ==> Collect(check, visited + [n]) == Collect(check, visited)
  {
    assert (visited + [n])[..|visited|] == visited;
    assert Collect(check, visited) + [] == Collect(check, visited);
  }

  /** Two checks that agree on every node of kind `k` collect the same diagnostics over nodes of kind `k`. */
  lemma {:induction false} CollectAgree(c1: EraseCheck, c2: EraseCheck, k: SyntaxKind, nodes: seq<SyntaxNode>)
    requires forall n :: n in nodes ==> n.kind == k
    requires forall n: SyntaxNode :: n.kind == k ==> c1(n) == c2(n)
    ensures Collect(c1, nodes) == Collect(c2, nodes)
  {
    if nodes != [] {
      var init := nodes[..|nodes| - 1];
      assert forall n :: n in init ==> n in nodes;
      CollectAgree(c1, c2, k, init);
      assert nodes[|nodes| - 1] in nodes;
    }
  }

  /** The nodes of `nodes` on which `check` fires, in order. */
  function Firing(check: EraseCheck, nodes: seq<SyntaxNode>): (r: seq<SyntaxNode>)
    ensures |r| <= |nodes|
    ensures forall n :: n in r <==> n in nodes && check(n).Some?
  {
    if nodes == [] then []
    else
      var init, last := nodes[..|nodes| - 1], nodes[|nodes| - 1];
      assert nodes == init + [last];
      Firing(check, init) + (if check(last).Some? then [last] else [])
  }

  /**
   * The collected diagnostics are exactly the results of the nodes the check fires on, one
   * per such node and in the same order: none is dropped, merged or reordered.
   */
  lemma {:induction false} CollectIsFiringResults(check: EraseCheck, nodes: seq<SyntaxNode>)
    ensures |Collect(check, nodes)| == |Firing(check, nodes)|
    ensures forall i :: 0 <= i < |Firing(check, nodes)| ==>
      check(Firing(check, nodes)[i]) == Some(Collect(check, nodes)[i])
  {
    if nodes != [] {
      CollectIsFiringResults(check, nodes[..|nodes| - 1]);
    }
  }

  /** Collecting over `a + b` is collecting over `a`, then over `b`. */
  lemma {:induction false} CollectAppend(check: EraseCheck, a: seq<SyntaxNode>, b: seq<SyntaxNode>)
    ensures Collect(check, a + b) == Collect(check, a) + Collect(check, b)
  {
    if b == [] {
      assert a + b == a;
    } else {
      var init := b[..|b| - 1];
      assert (a + b)[..|a + b| - 1] == a + init;
      assert (a + b)[|a + b| - 1] == b[|b| - 1];
      CollectAppend(check, a, init);
    }
  }

  /** The check seen as a rule on the diagnostic vector: it pushes its `Some` result. */
  function PushingRule(check: EraseCheck): (rule: SingleMatchRule)
    ensures AppendsOnly(rule) && AddsAtMost(rule, 1)
  {
    assert forall acc: seq<Diagnostic>, n: SyntaxNode :: |acc + Yield(check(n))| <= |acc| + 1;
    (acc: seq<Diagnostic>, n: SyntaxNode) => acc + Yield(check(n))
  }

  /**
   * Collecting the check's results is running the pushing rule: both scanners share one
   * scheme, and the erase-operation one is an instance with a rule that only appends.
   */
  lemma {:induction false} CollectIsRunRule(check: EraseCheck, acc: seq<Diagnostic>, nodes: seq<SyntaxNode>)
    ensures RunRule(PushingRule(check), acc, nodes) == acc + Collect(check, nodes)
  {
    if nodes != [] {
      CollectIsRunRule(check, acc, nodes[..|nodes| - 1]);
    }
  }
}
