/**
 The rewrite rules of the planner.  `Rewrite` says which nodes a rule appends and what it returns,
 in closed form; the methods grow the graph the way the planner does, and are proved to agree with it.
 A rule that ends in an exception has already grown the graph, and that growth is part of the result.
 */
module RewriteRules {
  import opened Outcomes
  import opened Operators
  import opened ExpressionGraph
  import opened PlannerGraph
  import opened TreeRewrites

  datatype Rule = DeMorganRule | MergeNumericRule | MergeLogicRule | ReduceNotNopRule | PullDfRule

  datatype Rewritten = Rewritten(graph: Graph, outcome: Outcome<nat>)

  // ---------------------------------------------------------------- what each rule does

  function Negated(o: Operation): Operation {
    o.(op := NegatedOperation(o.op))
  }

  /** How many leading nodes of a row have an operator that can be negated. */
  function NegatablePrefix(g: Graph, row: seq<nat>): (k: nat)
    requires RowInRange(row, |g.ops|)
    ensures k <= |row|
    ensures forall i :: 0 <= i < k ==> Negatable(g.ops[row[i]].op)
    ensures k < |row| ==> !Negatable(g.ops[row[k]].op)
  {
    if row == [] || !Negatable(g.ops[row[0]].op) then 0
    else
      assert forall i :: 0 <= i < |row[1..]| ==> row[1..][i] == row[i + 1];
      1 + NegatablePrefix(g, row[1..])
  }

  function NegatedOps(g: Graph, row: seq<nat>): (os: seq<Operation>)
    requires RowInRange(row, |g.ops|)
    ensures |os| == |row|
    ensures forall i :: 0 <= i < |row| ==> os[i] == Negated(g.ops[row[i]])
  {
    seq(|row|, i requires 0 <= i < |row| => Negated(g.ops[row[i]]))
  }

  function RowsOf(g: Graph, row: seq<nat>): (rs: seq<seq<nat>>)
    requires RowInRange(row, |g.rows|)
    ensures |rs| == |row|
    ensures forall i :: 0 <= i < |row| ==> rs[i] == g.rows[row[i]]
  {
    seq(|row|, i requires 0 <= i < |row| => g.rows[row[i]])
  }

  function Consecutive(start: nat, k: nat): (row: seq<nat>)
    ensures |row| == k && forall i :: 0 <= i < k ==> row[i] == start + i
  {
    seq(k, i requires 0 <= i => start + i)
  }

  /** The graph once the first `k` children of `node` have been cloned with negated operators under a new parent. */
  function DeMorganGrowth(g: Graph, node: nat, k: nat): Graph
    requires Closed(g) && node < |g.ops| && k <= |g.rows[node]|
  {
    var o, cs := g.ops[node], g.rows[node][..k];
    assert RowInRange(cs, |g.ops|) by { assert RowInRange(g.rows[node], |g.ops|); }
    Graph(g.ops + [o.(op := DeMorganOp(o.op))] + NegatedOps(g, cs),
          g.rows + [Consecutive(|g.ops| + 1, k)] + RowsOf(g, cs))
  }

  function Cloned(g: Graph, from: Graph, node: nat): Graph
    requires node < |from.ops| && node < |from.rows|
  {
    Append(g, from.ops[node], from.rows[node])
  }

  function SpliceRow(g: Graph, op: ColumnOp, row: seq<nat>): seq<nat>
    requires Closed(g) && RowInRange(row, |g.ops|)
  {
    if row == [] then []
    else
      assert RowInRange(row[1..], |g.ops|);
      (if g.ops[row[0]].op == op then g.rows[row[0]] else [row[0]]) + SpliceRow(g, op, row[1..])
  }

  /** The first data frame id in a row that is not 0, the id of constants; 0 if there is none. */
  function FirstDf(g: Graph, row: seq<nat>): int
    requires RowInRange(row, |g.ops|)
  {
    if row == [] then 0
    else if g.ops[row[0]].df != 0 then g.ops[row[0]].df
    else
      assert RowInRange(row[1..], |g.ops|);
      FirstDf(g, row[1..])
  }

  lemma {:induction false} FirstDfIsFirst(g: Graph, row: seq<nat>, i: nat)
    requires RowInRange(row, |g.ops|) && i <= |row|
    requires forall j :: 0 <= j < i ==> g.ops[row[j]].df == 0
    ensures i == |row| ==> FirstDf(g, row) == 0
    ensures i < |row| && g.ops[row[i]].df != 0 ==> FirstDf(g, row) == g.ops[row[i]].df
    decreases |row|
  {
    if i > 0 {
      assert RowInRange(row[1..], |g.ops|) && forall j :: 0 <= j < i - 1 ==> row[1..][j] == row[j + 1];
      FirstDfIsFirst(g, row[1..], i - 1);
    }
  }

  function DeMorganResult(g: Graph, node: nat): Rewritten
    requires Closed(g) && node < |g.ops|
  {
    var row := g.rows[node];
    assert RowInRange(row, |g.ops|);
    if DeMorganOp(g.ops[node].op).Invalid? then Rewritten(Cloned(g, g, node), Thrown)
    else
      var k := NegatablePrefix(g, row);
      var h := DeMorganGrowth(g, node, k);
      if k == |row| then Rewritten(h, Done(|g.ops|)) else Rewritten(Cloned(h, g, row[k]), Thrown)
  }

  function MergeResult(op: ColumnOp, g: Graph, node: nat): Rewritten
    requires Closed(g) && node < |g.ops|
  {
    assert RowInRange(g.rows[node], |g.ops|);
    Rewritten(Append(g, g.ops[node], SpliceRow(g, op, g.rows[node])), Done(|g.ops|))
  }

  function MergeLogicResult(g: Graph, node: nat): Rewritten
    requires Closed(g) && node < |g.ops|
  {
    var op := SplicedOp(g.ops[node].op);
    if op.Invalid? then Rewritten(Cloned(g, g, node), Thrown) else MergeResult(op, g, node)
  }

  function ReduceNotNopResult(g: Graph, node: nat): Rewritten
    requires Closed(g) && node < |g.ops|
  {
    var op, row := g.ops[node].op, g.rows[node];
    if !(op.Not? || op.Nop?) || |row| != 1 then Rewritten(g, Thrown)
    else
      assert RowInRange(row, |g.ops|);
      var child := row[0];
      if op.Nop? then Rewritten(g, Done(child))
      else if !Negatable(g.ops[child].op) then Rewritten(Cloned(g, g, child), Thrown)
      else Rewritten(Append(g, Negated(g.ops[child]), g.rows[child]), Done(|g.ops|))
  }

  function PullDfResult(g: Graph, node: nat): Rewritten
    requires Closed(g) && node < |g.ops|
  {
    var o, row := g.ops[node], g.rows[node];
    assert RowInRange(row, |g.ops|);
    if o.df == 0 then Rewritten(g, Thrown)
    else Rewritten(Append(g, o.(df := FirstDf(g, row)), row), Done(|g.ops|))
  }

  function Rewrite(rule: Rule, g: Graph, node: nat): Rewritten
    requires Closed(g) && node < |g.ops|
  {
    match rule
    case DeMorganRule => DeMorganResult(g, node)
    case MergeNumericRule => MergeResult(g.ops[node].op, g, node)
    case MergeLogicRule => MergeLogicResult(g, node)
    case ReduceNotNopRule => ReduceNotNopResult(g, node)
    case PullDfRule => PullDfResult(g, node)
  }

  // ---------------------------------------------------------------- on which nodes the rules return

  /** An AND, OR, NAND or NOR whose children all have an operator with an opposite. */
  predicate FlipsAll(g: Graph, node: nat)
    requires Closed(g) && node < |g.ops|
  {
    var op, row := g.ops[node].op, g.rows[node];
    assert RowInRange(row, |g.ops|);
    && (op.And? || op.Or? || op.Nand? || op.Nor?)
    && forall i :: 0 <= i < |row| ==> HasOpposite(g.ops[row[i]].op)
  }

  lemma DeMorganReturns(g: Graph, node: nat)
    requires Closed(g) && node < |g.ops|
    ensures DeMorganResult(g, node).outcome.Done? <==> FlipsAll(g, node)
  {
    var row := g.rows[node];
    assert RowInRange(row, |g.ops|);
    forall i | 0 <= i < |row|
      ensures Negatable(g.ops[row[i]].op) <==> HasOpposite(g.ops[row[i]].op)
    {
      NegatableExactly(g.ops[row[i]].op);
    }
  }

  /** On which nodes each rule returns, operator by operator. */
  lemma RulesReturn(rule: Rule, g: Graph, node: nat)
    requires Closed(g) && node < |g.ops|
    ensures var op, row := g.ops[node].op, g.rows[node];
            Rewrite(rule, g, node).outcome.Done? <==>
              match rule
              case DeMorganRule => FlipsAll(g, node)
              case MergeNumericRule => true
              case MergeLogicRule => op.And? || op.Or? || op.Xor? || op.Nand? || op.Nor? || op.Xnor?
              case ReduceNotNopRule =>
                && |row| == 1 && (op.Nop? || (op.Not? && row[0] < |g.ops| && HasOpposite(g.ops[row[0]].op)))
              case PullDfRule => g.ops[node].df != 0
  {
    DeMorganReturns(g, node);
    assert RowInRange(g.rows[node], |g.ops|);
    if |g.rows[node]| == 1 {
      NegatableExactly(g.ops[g.rows[node][0]].op);
    }
  }

  /** How many nodes a rule appends, also where it throws. */
  lemma RulesAppend(rule: Rule, g: Graph, node: nat)
    requires Closed(g) && node < |g.ops|
    ensures RowInRange(g.rows[node], |g.ops|)
    ensures var op, row, r := g.ops[node].op, g.rows[node], Rewrite(rule, g, node);
            var added := |r.graph.ops| - |g.ops|;
            match rule
            case DeMorganRule =>
              && (r.outcome.Done? ==> added == 1 + |row|)
              && (!(op.And? || op.Or? || op.Nand? || op.Nor?) ==> added == 1)
              && ((op.And? || op.Or? || op.Nand? || op.Nor?) && r.outcome.Thrown? ==>
                    && 2 <= added <= 1 + |row| && !HasOpposite(g.ops[row[added - 2]].op)
                    && forall i :: 0 <= i < added - 2 ==> HasOpposite(g.ops[row[i]].op))
            case MergeNumericRule => added == 1
            case MergeLogicRule => added == 1
            case ReduceNotNopRule => added == if op.Not? && |row| == 1 then 1 else 0
            case PullDfRule => added == if g.ops[node].df != 0 then 1 else 0
  {
    var row := g.rows[node];
    assert RowInRange(row, |g.ops|);
    forall i | 0 <= i < |row|
      ensures Negatable(g.ops[row[i]].op) <==> HasOpposite(g.ops[row[i]].op)
    {
      NegatableExactly(g.ops[row[i]].op);
    }
  }

  // ---------------------------------------------------------------- the rules as the planner runs them

  method CloneNode(q: QueryGraph, node: nat) returns (newNode: nat)
    requires node < |q.operations| && node < |q.graphMapping|
    modifies q`operations, q`graphMapping
    ensures newNode == |old(q.operations)|
    ensures q.View() == Cloned(old(q.View()), old(q.View()), node)
  {
    newNode := |q.operations|;
    q.operations := q.operations + [q.operations[node]];
    q.graphMapping := q.graphMapping + [q.graphMapping[node]];
  }

  method DeMorganApply(q: QueryGraph, node: nat) returns (r: Outcome<nat>)
    requires Closed(q.View()) && node < |q.operations|
    modifies q`operations, q`graphMapping
    ensures Rewritten(q.View(), r) == DeMorganResult(old(q.View()), node)
    ensures r.Done? <==> FlipsAll(old(q.View()), node)
  {
    ghost var g := q.View();
    DeMorganReturns(g, node);
    var newNode := CloneNode(q, node);
    var flipped := DeMorganOp(q.operations[newNode].op);
    if flipped.Invalid? {
      return Thrown;
    }
    q.operations := q.operations[newNode := q.operations[newNode].(op := flipped)];
    var oldChildren := q.graphMapping[node];
    assert RowInRange(oldChildren, |g.ops|);
    q.graphMapping := q.graphMapping[newNode := []];
    DeMorganGrowthStart(g, node);
    var negated := AppendNegatedChildren(q, newNode, oldChildren, g, node);
    r := if negated then Done(newNode) else Thrown;
  }

  lemma DeMorganGrowthStart(g: Graph, node: nat)
    requires Closed(g) && node < |g.ops|
    ensures var o := g.ops[node];
            DeMorganGrowth(g, node, 0) == Append(g, o.(op := DeMorganOp(o.op)), [])
  {
  }

  /** The loop of `DeMorganApply`; false if it ends in the exception. */
  method AppendNegatedChildren(q: QueryGraph, newNode: nat, oldChildren: seq<nat>, ghost g: Graph, ghost node: nat)
    returns (negated: bool)
    requires Closed(g) && node < |g.ops| && newNode == |g.ops| && oldChildren == g.rows[node]
    requires RowInRange(oldChildren, |g.ops|)
    requires q.View() == DeMorganGrowth(g, node, 0)
    modifies q`operations, q`graphMapping
    ensures var k := NegatablePrefix(g, oldChildren); var h := DeMorganGrowth(g, node, k);
            && negated == (k == |oldChildren|)
            && q.View() == if negated then h else Cloned(h, g, oldChildren[k])
  {
    for i := 0 to |oldChildren|
      invariant q.View() == DeMorganGrowth(g, node, i)
      invariant forall j :: 0 <= j < i ==> Negatable(g.ops[oldChildren[j]].op)
    {
      negated := NegateNextChild(q, newNode, oldChildren[i], g, node, i);
      if !negated {
        PrefixEndsAt(g, oldChildren, i);
        return;
      }
    }
    PrefixEndsAt(g, oldChildren, |oldChildren|);
    negated := true;
  }

  lemma PrefixEndsAt(g: Graph, row: seq<nat>, i: nat)
    requires RowInRange(row, |g.ops|) && i <= |row|
    requires forall j :: 0 <= j < i ==> Negatable(g.ops[row[j]].op)
    requires i < |row| ==> !Negatable(g.ops[row[i]].op)
    ensures NegatablePrefix(g, row) == i
  {
  }

  /** One turn of the loop of `DeMorganApply`. */
  method NegateNextChild(q: QueryGraph, newNode: nat, child: nat, ghost g: Graph, ghost node: nat, ghost i: nat)
    returns (negated: bool)
    requires Closed(g) && node < |g.ops| && newNode == |g.ops|
    requires i < |g.rows[node]| && child == g.rows[node][i] && child < |g.ops|
    requires q.View() == DeMorganGrowth(g, node, i)
    modifies q`operations, q`graphMapping
    ensures negated <==> Negatable(g.ops[child].op)
    ensures q.View() == if negated then DeMorganGrowth(g, node, i + 1) else Cloned(DeMorganGrowth(g, node, i), g, child)
  {
    ghost var h := q.View();
    DeMorganGrowthStep(g, node, i);
    negated := AppendNegatedChild(q, newNode, child);
    assert !negated ==> Cloned(h, h, child) == Cloned(h, g, child);
  }

  /** Appends a clone of a child with the opposite operator; false if it has none. */
  method AppendNegatedChild(q: QueryGraph, parent: nat, child: nat) returns (negated: bool)
    requires parent < |q.operations| && child < |q.operations| == |q.graphMapping|
    modifies q`operations, q`graphMapping
    ensures negated <==> Negatable(old(q.operations)[child].op)
    ensures !negated ==> q.View() == Cloned(old(q.View()), old(q.View()), child)
    ensures negated ==> q.View() == WithNegatedChild(old(q.View()), parent, child)
  {
    var newChild := CloneNode(q, child);
    var negatedOp := NegatedOperation(q.operations[newChild].op);
    if negatedOp.Invalid? {
      return false;
    }
    q.operations := q.operations[newChild := q.operations[newChild].(op := negatedOp)];
    q.graphMapping := q.graphMapping[parent := q.graphMapping[parent] + [newChild]];
    negated := true;
  }

  function WithNegatedChild(h: Graph, parent: nat, child: nat): Graph
    requires parent < |h.ops| && child < |h.ops| == |h.rows|
  {
    Graph(h.ops + [Negated(h.ops[child])],
          h.rows[parent := h.rows[parent] + [|h.ops|]] + [h.rows[child]])
  }

  lemma DeMorganGrowthStep(g: Graph, node: nat, k: nat)
    requires Closed(g) && node < |g.ops| && k < |g.rows[node]|
    ensures RowInRange(g.rows[node], |g.ops|)
    ensures var child := g.rows[node][k]; var h := DeMorganGrowth(g, node, k);
            && |h.ops| == |h.rows| == |g.ops| + 1 + k
            && h.ops[child] == g.ops[child] && h.rows[child] == g.rows[child]
            && DeMorganGrowth(g, node, k + 1) == WithNegatedChild(h, |g.ops|, child)
  {
    var cs, ds := g.rows[node][..k], g.rows[node][..k + 1];
    assert ds == cs + [g.rows[node][k]];
    assert RowInRange(g.rows[node], |g.ops|) && RowInRange(cs, |g.ops|) && RowInRange(ds, |g.ops|);
    assert NegatedOps(g, ds) == NegatedOps(g, cs) + [Negated(g.ops[g.rows[node][k]])];
    assert RowsOf(g, ds) == RowsOf(g, cs) + [g.rows[g.rows[node][k]]];
    assert Consecutive(|g.ops| + 1, k + 1) == Consecutive(|g.ops| + 1, k) + [|g.ops| + 1 + k];
  }

  lemma SpliceRowStep(g: Graph, op: ColumnOp, row: seq<nat>, i: nat)
    requires Closed(g) && i < |row| && RowInRange(row[i..], |g.ops|)
    ensures RowInRange(row[i + 1..], |g.ops|) && row[i] < |g.ops|
    ensures SpliceRow(g, op, row[i..])
            == (if g.ops[row[i]].op == op then g.rows[row[i]] else [row[i]]) + SpliceRow(g, op, row[i + 1..])
  {
    assert row[i..][0] == row[i] && row[i..][1..] == row[i + 1..];
  }

  method MergeChildren(q: QueryGraph, newNode: nat, nodeOp: ColumnOp, ghost g: Graph, ghost o: Operation)
    requires Closed(g) && newNode == |g.ops| && |q.graphMapping| == newNode + 1
    requires q.View() == Append(g, o, q.graphMapping[newNode])
    requires RowInRange(q.graphMapping[newNode], |g.ops|)
    modifies q`graphMapping
    ensures q.View() == Append(g, o, SpliceRow(g, nodeOp, old(q.graphMapping[newNode])))
  {
    var oldChildren := q.graphMapping[newNode];
    ghost var spliced := SpliceRow(g, nodeOp, oldChildren);
    q.graphMapping := q.graphMapping[newNode := []];
    assert oldChildren[0..] == oldChildren;
    for i := 0 to |oldChildren|
      invariant |q.graphMapping| == newNode + 1 && q.operations == g.ops + [o]
      invariant q.graphMapping[..newNode] == g.rows
      invariant RowInRange(oldChildren[i..], |g.ops|)
      invariant spliced == q.graphMapping[newNode] + SpliceRow(g, nodeOp, oldChildren[i..])
    {
      SpliceRowStep(g, nodeOp, oldChildren, i);
      var child := oldChildren[i];
      assert q.graphMapping[child] == g.rows[child];
      var more := if q.operations[child].op == nodeOp then q.graphMapping[child] else [child];
      AppendAssociates(q.graphMapping[newNode], more, SpliceRow(g, nodeOp, oldChildren[i + 1..]));
      q.graphMapping := q.graphMapping[newNode := q.graphMapping[newNode] + more];
    }
    assert oldChildren[|oldChildren|..] == [];
    assert q.graphMapping[newNode] == spliced;
    assert q.graphMapping == q.graphMapping[..newNode] + [q.graphMapping[newNode]];
  }

  lemma AppendAssociates(a: seq<nat>, b: seq<nat>, c: seq<nat>)
    ensures a + (b + c) == (a + b) + c
  {
  }

  method MergeCommutativeNumericApply(q: QueryGraph, node: nat) returns (r: Outcome<nat>)
    requires Closed(q.View()) && node < |q.operations|
    modifies q`operations, q`graphMapping
    ensures Rewritten(q.View(), r) == MergeResult(old(q.operations)[node].op, old(q.View()), node)
  {
    ghost var g := q.View();
    assert RowInRange(g.rows[node], |g.ops|);
    var newNode := CloneNode(q, node);
    MergeChildren(q, newNode, q.operations[node].op, g, g.ops[node]);
    r := Done(newNode);
  }

  method MergeCommutativeLogicApply(q: QueryGraph, node: nat) returns (r: Outcome<nat>)
    requires Closed(q.View()) && node < |q.operations|
    modifies q`operations, q`graphMapping
    ensures Rewritten(q.View(), r) == MergeLogicResult(old(q.View()), node)
  {
    ghost var g := q.View();
    assert RowInRange(g.rows[node], |g.ops|);
    var newNode := CloneNode(q, node);
    var nodeOp := q.operations[node].op;
    match nodeOp {
      case And | Or | Xor =>
      case Nand => nodeOp := And;
      case Nor => nodeOp := Or;
      case Xnor => nodeOp := Xor;
      case _ => return Thrown;
    }
    MergeChildren(q, newNode, nodeOp, g, g.ops[node]);
    r := Done(newNode);
  }

  method ReduceNotNopApply(q: QueryGraph, node: nat) returns (r: Outcome<nat>)
    requires Closed(q.View()) && node < |q.operations|
    modifies q`operations, q`graphMapping
    ensures Rewritten(q.View(), r) == ReduceNotNopResult(old(q.View()), node)
  {
    var negate: bool;
    match q.operations[node].op {
      case Not => negate := true;
      case Nop => negate := false;
      case _ => return Thrown;
    }
    var children := q.graphMapping[node];
    if |children| != 1 {
      return Thrown;
    }
    assert RowInRange(children, |q.operations|);
    if !negate {
      return Done(children[0]);
    }
    var newChild := CloneNode(q, children[0]);
    var negatedOp := NegatedOperation(q.operations[newChild].op);
    if negatedOp.Invalid? {
      return Thrown;
    }
    q.operations := q.operations[newChild := q.operations[newChild].(op := negatedOp)];
    r := Done(newChild);
  }

  /** Whether `PullDfApply` is worth applying: the children agree on a data frame, and it is not the node's own. */
  method PullDfApplies(q: QueryGraph, node: nat) returns (applies: bool)
    requires Closed(q.View()) && node < |q.operations|
    ensures applies <==> PullableDf(q.View(), node)
  {
    var g := q.View();
    var nodeDf := q.operations[node].df;
    if nodeDf == 0 {
      return false;
    }
    var row := q.graphMapping[node];
    assert RowInRange(row, |g.ops|);
    var common := 0;
    for i := 0 to |row|
      invariant common == 0 ==> forall j :: 0 <= j < i ==> g.ops[row[j]].df == 0
      invariant forall j :: 0 <= j < i ==> g.ops[row[j]].df in {0, common}
      invariant common != 0 ==> exists j :: 0 <= j < i && g.ops[row[j]].df == common
    {
      var childDf := q.operations[row[i]].df;
      if childDf != 0 && childDf != common {
        if common != 0 {
          var j :| 0 <= j < i && g.ops[row[j]].df == common;
          return false;
        } else {
          common := childDf;
        }
      }
    }
    applies := common != 0 && common != nodeDf;
    assert common != 0 ==> CommonDf(g, row, common);
  }

  /** The children of a node have exactly one data frame between them, constants aside, and the node has another. */
  ghost predicate PullableDf(g: Graph, node: nat)
    requires Closed(g) && node < |g.ops|
  {
    && g.ops[node].df != 0
    && exists df :: df != 0 && df != g.ops[node].df && CommonDf(g, g.rows[node], df)
  }

  ghost predicate CommonDf(g: Graph, row: seq<nat>, df: int) {
    && RowInRange(row, |g.ops|)
    && (exists j :: 0 <= j < |row| && g.ops[row[j]].df == df)
    && (forall j :: 0 <= j < |row| ==> g.ops[row[j]].df in {0, df})
  }

  method PullDfApply(q: QueryGraph, node: nat) returns (r: Outcome<nat>)
    requires Closed(q.View()) && node < |q.operations|
    modifies q`operations, q`graphMapping
    ensures Rewritten(q.View(), r) == PullDfResult(old(q.View()), node)
  {
    ghost var g := q.View();
    if q.operations[node].df == 0 {
      return Thrown;
    }
    var newNode := CloneNode(q, node);
    var common := 0;
    var row := q.graphMapping[newNode];
    assert RowInRange(row, |g.ops|);
    var i := 0;
    while i < |row|
      invariant 0 <= i <= |row|
      invariant q.View() == Cloned(g, g, node)
      invariant common == 0 && RowInRange(row[i..], |g.ops|)
      invariant FirstDf(g, row) == FirstDf(g, row[i..])
    {
      assert row[i..][1..] == row[i + 1..];
      var childDf := q.operations[row[i]].df;
      if childDf != 0 {
        common := childDf;
        break;
      }
      i := i + 1;
    }
    q.operations := q.operations[newNode := q.operations[newNode].(df := common)];
    r := Done(newNode);
  }
}
