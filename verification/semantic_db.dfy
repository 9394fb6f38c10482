/**
 * The data the compiler's semantic database hands to a lint plugin, as plain values.
 *
 * The database queries themselves (`module_items`, `module_free_function_by_id`,
 * `as_syntax_node().descendants`) are replaced by the values they return: a module's item
 * list (or the error that resolving it reported) and, for every free function, the
 * pre-order sequence of the syntax nodes below it.
 */
module SemanticDb {
  import opened Wrappers

  /** The syntax kinds the scanners name; every other kind of the grammar is `OtherKind`. */
  datatype SyntaxKind = ExprMatch | ExprBinary | ItemExternFunction | OtherKind(tag: nat)

  /**
   * A syntax node: its kind, and its identity in the tree (standing in for its stable
   * pointer). Distinct nodes have distinct identities, even when they start at the same
   * place in the file, as an outer binary expression and its left operand do.
   */
  datatype SyntaxNode = SyntaxNode(kind: SyntaxKind, id: nat)

  /**
   * An item declared in a module. A free function carries the result of looking it up and
   * walking its syntax node: `None` when the lookup fails, otherwise the descendants of the
   * whole function node in pre-order (the node itself, its signature and its body).
   */
  datatype ModuleItem =
    | FreeFunction(descendants: Option<seq<SyntaxNode>>)
    | ExternFunction
    | OtherItem(tag: nat)

  /** The error a failed query reports (the compiler's `DiagnosticAdded`). */
  datatype DiagnosticAdded = DiagnosticAdded

  /** The result of resolving a module's items (the compiler's `Maybe<Arc<[ModuleItemId]>>`). */
  type ModuleItems = Result<seq<ModuleItem>, DiagnosticAdded>

  datatype Severity = Error | Warning

  /** A plugin diagnostic: where it points, what it says and how severe it is. */
  datatype Diagnostic = Diagnostic(stablePtr: nat, message: string, severity: Severity)

  /**
   * Every free function's lookup succeeds. The scanners unwrap the lookup and
   * abort the analysis otherwise, so this is what they demand of their callers.
   */
  predicate LookupsResolve(items: seq<ModuleItem>) {
    forall i :: 0 <= i < |items| && items[i].FreeFunction? ==> items[i].descendants.Some?
  }
}
