/** The planner from end to end: lower an expression, rewrite it, compact the graph. */
module PlannerPipeline {
  import opened Operators
  import opened ExpressionGraph
  import opened SqlLowering
  import opened RewriteRules
  import opened RewriteSafety
  import opened GraphCompaction

  /**
   Whatever rules are applied to a lowered expression, one after the other, and whatever else the
   graph holds, the root of the compacted graph has the value SQL gives the expression, provided the
   expression has one.
   */
  lemma PlanKeepsMeaning(
      g: Graph, p: Pools, context: map<string, nat>, root: nat, e: SqlExpr,
      rules: seq<Rule>, h: Graph, root': nat,
      c: Graph, numbering: map<nat, nat>, order: seq<nat>,
      scope: Scope, m: Interp)
    requires Topological(g) && ContextInRange(context, g) && Lowered(g, p, context, root, e)
    requires m.pools == p && InScope(g, context, scope, m) && !Meaning(e, scope, m).Fault?
    requires WellFormed(g) && IsOptimisation(g, root, rules, h, root')
    requires IsCopy(h, c, numbering) && Numbers(numbering, order) && root' in numbering
    ensures WellFormed(c) && numbering[root'] < |c.ops|
    ensures Den(c, numbering[root'], m) == Meaning(e, scope, m)
  {
    DenotesIsDen(g, root, Meaning(e, scope, m), m);
    OptimisationKeepsMeaning(g, root, rules, h, root', m);
    CopyKeepsMeaning(h, c, numbering, order, root', m);
  }
}
