/**
 What every rule application, and so every run of them, keeps: old nodes, closedness, acyclicity and
 the value of every node that was there; and what the node a rule returns stands for.
 */
module RewriteSafety {
  import opened Outcomes
  import opened Operators
  import opened ExpressionGraph
  import opened PlannerGraph
  import opened TreeRewrites
  import opened RewriteRules

  // ---------------------------------------------------------------- one application keeps the graph well-formed

  lemma AppendSafe(g: Graph, rank: seq<nat>, o: Operation, row: seq<nat>, bound: nat)
    requires Closed(g) && Ranked(g, rank)
    requires RowInRange(row, |g.ops|) && RowBelow(row, rank, bound)
    ensures Closed(Append(g, o, row)) && Ranked(Append(g, o, row), rank + [bound])
  {
    var h, rank' := Append(g, o, row), rank + [bound];
    forall n | 0 <= n < |h.rows|
      ensures RowInRange(h.rows[n], |h.ops|) && RowBelow(h.rows[n], rank', rank'[n])
    {
      if n < |g.rows| {
        assert RowInRange(g.rows[n], |g.ops|) && RowBelow(g.rows[n], rank, rank[n]);
      }
    }
  }

  lemma ClonedSafe(g: Graph, rank: seq<nat>, from: Graph, node: nat)
    requires Closed(g) && Ranked(g, rank) && Closed(from) && Extends(from, g) && node < |from.ops|
    ensures Closed(Cloned(g, from, node)) && Ranked(Cloned(g, from, node), rank + [rank[node]])
  {
    assert g.rows[node] == from.rows[node];
    assert RowInRange(g.rows[node], |g.ops|) && RowBelow(g.rows[node], rank, rank[node]);
    AppendSafe(g, rank, from.ops[node], from.rows[node], rank[node]);
  }

  lemma {:induction false} SpliceRowBelow(g: Graph, rank: seq<nat>, op: ColumnOp, row: seq<nat>, bound: nat)
    requires Closed(g) && Ranked(g, rank) && RowInRange(row, |g.ops|) && RowBelow(row, rank, bound)
    ensures RowInRange(SpliceRow(g, op, row), |g.ops|) && RowBelow(SpliceRow(g, op, row), rank, bound)
  {
    if row != [] {
      assert RowInRange(row[1..], |g.ops|) && RowBelow(row[1..], rank, bound);
      SpliceRowBelow(g, rank, op, row[1..], bound);
      assert RowInRange(g.rows[row[0]], |g.ops|) && RowBelow(g.rows[row[0]], rank, rank[row[0]]);
    }
  }

  function RanksOf(rank: seq<nat>, row: seq<nat>): (r: seq<nat>)
    requires RowInRange(row, |rank|)
    ensures |r| == |row| && forall i :: 0 <= i < |row| ==> r[i] == rank[row[i]]
  {
    seq(|row|, i requires 0 <= i < |row| => rank[row[i]])
  }

  /** The new parent has a smaller id than its children, so ids no longer order the graph; ranks do. */
  lemma DeMorganGrowthSafe(g: Graph, rank: seq<nat>, node: nat, k: nat)
    requires Closed(g) && Ranked(g, rank) && node < |g.ops| && k <= |g.rows[node]|
    ensures RowInRange(g.rows[node], |rank|)
    ensures var h := DeMorganGrowth(g, node, k);
            && Closed(h) && Extends(g, h)
            && |h.rows[|g.ops|]| == k && (forall i :: 0 <= i < k ==> h.rows[|g.ops|][i] > |g.ops|)
            && Ranked(h, rank + [rank[node]] + RanksOf(rank, g.rows[node][..k]))
  {
    var h, cs := DeMorganGrowth(g, node, k), g.rows[node][..k];
    assert RowInRange(g.rows[node], |g.ops|) && RowBelow(g.rows[node], rank, rank[node]);
    var rank' := rank + [rank[node]] + RanksOf(rank, cs);
    var size := |g.ops|;
    forall n | 0 <= n < |h.rows|
      ensures RowInRange(h.rows[n], |h.ops|) && RowBelow(h.rows[n], rank', rank'[n])
    {
      if n < size {
        assert RowInRange(g.rows[n], size) && RowBelow(g.rows[n], rank, rank[n]);
      } else if n > size {
        var child := cs[n - size - 1];
        assert RowInRange(g.rows[child], size) && RowBelow(g.rows[child], rank, rank[child]);
      }
    }
  }

  lemma DeMorganSafe(g: Graph, node: nat)
    requires WellFormed(g) && node < |g.ops|
    ensures var h := DeMorganResult(g, node).graph; WellFormed(h) && Extends(g, h)
  {
    var rank :| Ranked(g, rank);
    var row := g.rows[node];
    assert RowInRange(row, |g.ops|);
    if DeMorganOp(g.ops[node].op).Invalid? {
      ClonedSafe(g, rank, g, node);
    } else {
      var k := NegatablePrefix(g, row);
      DeMorganGrowthSafe(g, rank, node, k);
      if k < |row| {
        ClonedSafe(DeMorganGrowth(g, node, k), rank + [rank[node]] + RanksOf(rank, row[..k]), g, row[k]);
      }
    }
  }

  lemma MergeSafe(op: ColumnOp, g: Graph, node: nat)
    requires WellFormed(g) && node < |g.ops|
    ensures var h := MergeResult(op, g, node).graph; WellFormed(h) && Extends(g, h)
  {
    var rank :| Ranked(g, rank);
    assert RowInRange(g.rows[node], |g.ops|) && RowBelow(g.rows[node], rank, rank[node]);
    SpliceRowBelow(g, rank, op, g.rows[node], rank[node]);
    AppendSafe(g, rank, g.ops[node], SpliceRow(g, op, g.rows[node]), rank[node]);
  }

  /**
   Whatever the rule, the node and the way the application ends, old nodes stay as they are, every
   child id is in range, the graph stays acyclic, and a node returned exists.
   */
  lemma RewriteSafe(rule: Rule, g: Graph, node: nat)
    requires WellFormed(g) && node < |g.ops|
    ensures var r := Rewrite(rule, g, node);
            && WellFormed(r.graph) && Extends(g, r.graph)
            && (r.outcome.Done? ==> r.outcome.value < |r.graph.ops|)
  {
    var rank :| Ranked(g, rank);
    var o, row := g.ops[node], g.rows[node];
    assert RowInRange(row, |g.ops|) && RowBelow(row, rank, rank[node]);
    match rule
    case DeMorganRule => DeMorganSafe(g, node);
    case MergeNumericRule => MergeSafe(o.op, g, node);
    case MergeLogicRule =>
      if SplicedOp(o.op).Invalid? {
        ClonedSafe(g, rank, g, node);
      } else {
        MergeSafe(SplicedOp(o.op), g, node);
      }
    case ReduceNotNopRule =>
      if (o.op.Not? || o.op.Nop?) && |row| == 1 {
        ClonedSafe(g, rank, g, row[0]);
        AppendSafe(g, rank, Negated(g.ops[row[0]]), g.rows[row[0]], rank[row[0]]);
      }
    case PullDfRule =>
      if o.df != 0 {
        AppendSafe(g, rank, o.(df := FirstDf(g, row)), row, rank[node]);
      }
  }

  // ---------------------------------------------------------------- when ids stay in order

  /** De Morgan's rule clones a child under a parent it has made before. */
  predicate ClonesUnderParent(rule: Rule, g: Graph, node: nat)
    requires Closed(g) && node < |g.ops|
  {
    assert RowInRange(g.rows[node], |g.ops|);
    && rule.DeMorganRule? && !DeMorganOp(g.ops[node].op).Invalid?
    && g.rows[node] != [] && Negatable(g.ops[g.rows[node][0]].op)
  }

  lemma AppendTopological(g: Graph, o: Operation, row: seq<nat>)
    requires Topological(g) && RowInRange(row, |g.ops|)
    ensures Topological(Append(g, o, row)) && Closed(Append(g, o, row))
  {
    var h := Append(g, o, row);
    forall n | 0 <= n < |h.rows|
      ensures RowInRange(h.rows[n], n) && RowInRange(h.rows[n], |h.ops|)
    {
      if n < |g.rows| {
        assert RowInRange(g.rows[n], n);
      }
    }
  }

  lemma {:induction false} SpliceRowInRange(g: Graph, op: ColumnOp, row: seq<nat>)
    requires Closed(g) && RowInRange(row, |g.ops|)
    ensures RowInRange(SpliceRow(g, op, row), |g.ops|)
  {
    if row != [] {
      assert RowInRange(row[1..], |g.ops|) && RowInRange(g.rows[row[0]], |g.ops|);
      SpliceRowInRange(g, op, row[1..]);
    }
  }

  /** A parent older than its clones breaks the order, and appending to such a graph does not mend it. */
  lemma GrowthBreaksOrder(g: Graph, h: Graph, node: nat, k: nat)
    requires Closed(g) && node < |g.ops| && 0 < k <= |g.rows[node]|
    requires Extends(DeMorganGrowth(g, node, k), h)
    ensures !Topological(h)
  {
    var grown := DeMorganGrowth(g, node, k);
    assert grown.rows[|g.ops|] == h.rows[|g.ops|] == Consecutive(|g.ops| + 1, k);
    assert !RowInRange(h.rows[|g.ops|], |g.ops|) by {
      assert h.rows[|g.ops|][0] == |g.ops| + 1;
    }
  }

  lemma DeMorganTopological(g: Graph, node: nat)
    requires Topological(g) && Closed(g) && node < |g.ops|
    ensures Topological(DeMorganResult(g, node).graph) <==> !ClonesUnderParent(DeMorganRule, g, node)
  {
    var o, row, h := g.ops[node], g.rows[node], DeMorganResult(g, node).graph;
    assert RowInRange(row, |g.ops|);
    if DeMorganOp(o.op).Invalid? {
      AppendTopological(g, o, row);
    } else {
      var k := NegatablePrefix(g, row);
      var grown := DeMorganGrowth(g, node, k);
      if k > 0 {
        assert Extends(grown, h);
        GrowthBreaksOrder(g, h, node, k);
      } else {
        DeMorganGrowthStart(g, node);
        AppendTopological(g, o.(op := DeMorganOp(o.op)), []);
        if row != [] {
          assert RowInRange(g.rows[row[0]], |g.ops|) && RowInRange(g.rows[row[0]], |grown.ops|);
          AppendTopological(grown, g.ops[row[0]], g.rows[row[0]]);
        }
      }
    }
  }

  /**
   A rule leaves parents after their children, the order the visitor appends in, exactly when it is not
   De Morgan's rule on an operator that can be flipped, with a first child that can be negated.
   */
  lemma RewriteKeepsOrderExactly(rule: Rule, g: Graph, node: nat)
    requires Topological(g) && Closed(g) && node < |g.ops|
    ensures Topological(Rewrite(rule, g, node).graph) <==> !ClonesUnderParent(rule, g, node)
  {
    var o, row := g.ops[node], g.rows[node];
    assert RowInRange(row, |g.ops|);
    match rule
    case DeMorganRule => DeMorganTopological(g, node);
    case MergeNumericRule => MergeTopological(o.op, g, node);
    case MergeLogicRule =>
      AppendTopological(g, o, row);
      MergeTopological(SplicedOp(o.op), g, node);
    case ReduceNotNopRule =>
      if (o.op.Not? || o.op.Nop?) && |row| == 1 {
        var child := row[0];
        assert RowInRange(g.rows[child], |g.ops|);
        AppendTopological(g, g.ops[child], g.rows[child]);
        AppendTopological(g, Negated(g.ops[child]), g.rows[child]);
      }
    case PullDfRule =>
      AppendTopological(g, o.(df := FirstDf(g, row)), row);
  }

  lemma MergeTopological(op: ColumnOp, g: Graph, node: nat)
    requires Topological(g) && Closed(g) && node < |g.ops|
    ensures Topological(MergeResult(op, g, node).graph)
  {
    assert RowInRange(g.rows[node], |g.ops|);
    SpliceRowInRange(g, op, g.rows[node]);
    AppendTopological(g, g.ops[node], SpliceRow(g, op, g.rows[node]));
  }

  // ---------------------------------------------------------------- runs

  /** One call of a rule on a node. */
  datatype Call = Call(rule: Rule, node: nat)

  /** A run of calls, each on a node the graph has by then, leads from `g` to `h`; any of them may throw. */
  ghost predicate IsRun(g: Graph, calls: seq<Call>, h: Graph)
    requires WellFormed(g)
    decreases |calls|
  {
    if calls == [] then g == h
    else
      && calls[0].node < |g.ops|
      && (RewriteSafe(calls[0].rule, g, calls[0].node);
          IsRun(Rewrite(calls[0].rule, g, calls[0].node).graph, calls[1..], h))
  }

  /**
   Safety of whole runs: no sequence of rule applications, thrown or not, changes an old node, leaves
   a child id out of range, closes a cycle, or changes the value of a node that was there.
   */
  lemma {:induction false} RunSafe(g: Graph, calls: seq<Call>, h: Graph)
    requires WellFormed(g) && IsRun(g, calls, h)
    ensures WellFormed(h) && Extends(g, h)
    ensures forall n: nat, m: Interp :: n < |g.ops| ==> Den(h, n, m) == Den(g, n, m)
    decreases |calls|
  {
    if calls != [] {
      RewriteSafe(calls[0].rule, g, calls[0].node);
      RunSafe(Rewrite(calls[0].rule, g, calls[0].node).graph, calls[1..], h);
    }
    forall n: nat, m: Interp | n < |g.ops|
      ensures Den(h, n, m) == Den(g, n, m)
    {
      DenExtends(g, h, n, m);
    }
  }

  // ---------------------------------------------------------------- arithmetic keeps its operands

  lemma {:induction false} SpliceRowLength(g: Graph, op: ColumnOp, row: seq<nat>)
    requires Closed(g) && RowInRange(row, |g.ops|) && Wide(g) && IsArithmetic(op)
    ensures |SpliceRow(g, op, row)| >= |row|
  {
    if row != [] {
      assert RowInRange(row[1..], |g.ops|);
      SpliceRowLength(g, op, row[1..]);
    }
  }

  lemma RewriteKeepsWide(rule: Rule, g: Graph, node: nat)
    requires Closed(g) && Wide(g) && node < |g.ops|
    ensures Wide(Rewrite(rule, g, node).graph)
  {
    var row := g.rows[node];
    assert RowInRange(row, |g.ops|);
    match rule
    case DeMorganRule =>
      if !DeMorganOp(g.ops[node].op).Invalid? {
        DeMorganGrowthWide(g, node, NegatablePrefix(g, row));
      }
    case MergeNumericRule =>
      if IsArithmetic(g.ops[node].op) {
        SpliceRowLength(g, g.ops[node].op, row);
      }
    case MergeLogicRule =>
    case ReduceNotNopRule =>
    case PullDfRule =>
  }

  lemma DeMorganGrowthWide(g: Graph, node: nat, k: nat)
    requires Closed(g) && Wide(g) && node < |g.ops| && k <= |g.rows[node]|
    requires !DeMorganOp(g.ops[node].op).Invalid?
    ensures Wide(DeMorganGrowth(g, node, k))
  {
    var h, size := DeMorganGrowth(g, node, k), |g.ops|;
    forall n | 0 <= n < |h.ops|
      ensures IsArithmetic(h.ops[n].op) ==> |h.rows[n]| >= 2
    {
      assert RowInRange(g.rows[node], size);
      if n < size {
        assert h.ops[n] == g.ops[n];
      } else if n > size {
        assert h.ops[n] == Negated(g.ops[g.rows[node][n - size - 1]]);
      }
    }
  }

  /** No run of rules makes an arithmetic node with fewer than two operands. */
  lemma {:induction false} RunKeepsWide(g: Graph, calls: seq<Call>, h: Graph)
    requires WellFormed(g) && Wide(g) && IsRun(g, calls, h)
    ensures Wide(h)
    decreases |calls|
  {
    if calls != [] {
      RewriteSafe(calls[0].rule, g, calls[0].node);
      RewriteKeepsWide(calls[0].rule, g, calls[0].node);
      RunKeepsWide(Rewrite(calls[0].rule, g, calls[0].node).graph, calls[1..], h);
    }
  }

  // ---------------------------------------------------------------- the node a rule returns

  lemma NegatableArgs(g: Graph, row: seq<nat>, es: seq<Expr>)
    requires RowInRange(row, |g.ops|) && RepresentsAll(g, row, es)
    ensures NegatablePrefix(g, row) == |row| <==> AllNegatable(es)
  {
    var k := NegatablePrefix(g, row);
    if k < |row| {
      assert !Negatable(es[k].op.op);
    } else {
      assert forall i :: 0 <= i < |row| ==> g.ops[row[i]] == es[i].op;
    }
  }

  lemma DeMorganGrowthRepresents(g: Graph, node: nat, e: Expr)
    requires WellFormed(g) && Represents(g, node, e)
    ensures Represents(DeMorganGrowth(g, node, |g.rows[node]|), |g.ops|, DeMorganTree(e))
  {
    var row, size, h := g.rows[node], |g.ops|, DeMorganGrowth(g, node, |g.rows[node]|);
    assert RowInRange(row, size) && row[..|row|] == row;
    assert Extends(g, h);
    assert h.ops[size] == DeMorganTree(e).op && h.rows[size] == Consecutive(size + 1, |row|);
    forall i | 0 <= i < |row|
      ensures Represents(h, h.rows[size][i], NegateRoot(e.args[i]))
    {
      var child := row[i];
      assert Represents(g, child, e.args[i]);
      RepresentsAllExtends(g, h, g.rows[child], e.args[i].args);
      assert h.ops[size + 1 + i] == Negated(g.ops[child]) && h.rows[size + 1 + i] == g.rows[child];
    }
  }

  /**
   `DeMorganApply` returns exactly when the operator and all its operands can be negated, with the tree
   of De Morgan's rule.
   */
  lemma DeMorganRepresents(g: Graph, node: nat, e: Expr)
    requires WellFormed(g) && Represents(g, node, e)
    ensures var r := DeMorganResult(g, node);
            && (r.outcome.Done? <==> !DeMorganOp(e.op.op).Invalid? && AllNegatable(e.args))
            && (r.outcome.Done? ==> Represents(r.graph, r.outcome.value, DeMorganTree(e)))
  {
    assert RowInRange(g.rows[node], |g.ops|);
    NegatableArgs(g, g.rows[node], e.args);
    DeMorganGrowthRepresents(g, node, e);
  }

  lemma {:induction false} SpliceRowRepresents(g: Graph, op: ColumnOp, row: seq<nat>, es: seq<Expr>)
    requires Closed(g) && RowInRange(row, |g.ops|) && RepresentsAll(g, row, es)
    ensures RepresentsAll(g, SpliceRow(g, op, row), Splice(op, es))
    decreases |row|
  {
    if row != [] {
      assert RowInRange(row[1..], |g.ops|) && RepresentsAll(g, row[1..], es[1..]);
      SpliceRowRepresents(g, op, row[1..], es[1..]);
      assert Represents(g, row[0], es[0]);
      assert RepresentsAll(g, g.rows[row[0]], es[0].args);
      RepresentsAllConcat(g, if es[0].op.op == op then g.rows[row[0]] else [row[0]],
                          SpliceRow(g, op, row[1..]),
                          if es[0].op.op == op then es[0].args else [es[0]],
                          Splice(op, es[1..]));
    }
  }

  lemma RepresentsAllConcat(g: Graph, r: seq<nat>, s: seq<nat>, ds: seq<Expr>, es: seq<Expr>)
    requires RepresentsAll(g, r, ds) && RepresentsAll(g, s, es)
    ensures RepresentsAll(g, r + s, ds + es)
  {
  }

  lemma MergeRepresents(op: ColumnOp, g: Graph, node: nat, e: Expr)
    requires WellFormed(g) && Represents(g, node, e)
    ensures var r := MergeResult(op, g, node);
            r.outcome.Done? && Represents(r.graph, r.outcome.value, MergeTree(op, e))
  {
    var r := MergeResult(op, g, node);
    assert RowInRange(g.rows[node], |g.ops|);
    SpliceRowRepresents(g, op, g.rows[node], e.args);
    RepresentsAllExtends(g, r.graph, SpliceRow(g, op, g.rows[node]), Splice(op, e.args));
  }

  /** `ReduceNotNopApply` returns exactly on a NOP, or a NOT whose operand can be negated, with the tree of the rule. */
  lemma ReduceRepresents(g: Graph, node: nat, e: Expr)
    requires WellFormed(g) && Represents(g, node, e)
    ensures var r := ReduceNotNopResult(g, node);
            && (r.outcome.Done? <==> NotOrNop(e) && (e.op.op.Nop? || Negatable(e.args[0].op.op)))
            && (r.outcome.Done? ==> Represents(r.graph, r.outcome.value, ReduceTree(e)))
  {
    var r := ReduceNotNopResult(g, node);
    if r.outcome.Done? {
      var child := g.rows[node][0];
      assert Represents(g, child, e.args[0]);
      if e.op.op.Not? {
        RepresentsAllExtends(g, r.graph, g.rows[child], e.args[0].args);
      }
    }
  }

  lemma PullDfRepresents(g: Graph, node: nat, e: Expr)
    requires WellFormed(g) && Represents(g, node, e)
    ensures var r := PullDfResult(g, node);
            && (r.outcome.Done? <==> e.op.df != 0)
            && (r.outcome.Done? ==>
                  Represents(r.graph, r.outcome.value, Node(e.op.(df := FirstDf(g, g.rows[node])), e.args)))
  {
    var r := PullDfResult(g, node);
    if r.outcome.Done? {
      RepresentsAllExtends(g, r.graph, g.rows[node], e.args);
    }
  }

  lemma {:induction false} FirstDfIsCommon(g: Graph, row: seq<nat>, df: int)
    requires CommonDf(g, row, df) && df != 0
    ensures FirstDf(g, row) == df
  {
    assert RowInRange(row, |g.ops|);
    if g.ops[row[0]].df == 0 {
      var j :| 0 <= j < |row| && g.ops[row[j]].df == df;
      assert row[1..][j - 1] == row[j];
      FirstDfIsCommon(g, row[1..], df);
    }
  }

  /** Where the check says so, pulling a data frame gives the node its children's; after that the check says no. */
  lemma PullDfSettles(g: Graph, node: nat)
    requires WellFormed(g) && node < |g.ops| && PullableDf(g, node)
    ensures var r := PullDfResult(g, node);
            && r.outcome.Done? && Closed(r.graph) && r.outcome.value < |r.graph.ops|
            && CommonDf(g, g.rows[node], r.graph.ops[r.outcome.value].df)
            && !PullableDf(r.graph, r.outcome.value)
  {
    var r := PullDfResult(g, node);
    RewriteSafe(PullDfRule, g, node);
    var df :| df != 0 && df != g.ops[node].df && CommonDf(g, g.rows[node], df);
    FirstDfIsCommon(g, g.rows[node], df);
    var row := g.rows[node];
    var j :| 0 <= j < |row| && g.ops[row[j]].df == df;
    assert r.graph.ops[row[j]].df == df;
  }

  // ---------------------------------------------------------------- meaning of the node a rule returns

  /** The planner's rules, where they are meant to be used: the numeric merge on sums and products. */
  predicate Meant(rule: Rule, op: ColumnOp) {
    rule.MergeNumericRule? ==> op.Add? || op.Mul?
  }

  /**
   A rule that returns gives a node with the value of the original, provided the original has one;
   only the NOT/NOP rule needs the proviso.
   */
  lemma RewriteKeepsMeaning(rule: Rule, g: Graph, node: nat, m: Interp)
    requires WellFormed(g) && node < |g.ops| && Meant(rule, g.ops[node].op)
    ensures var r := Rewrite(rule, g, node);
            r.outcome.Done? ==>
              && WellFormed(r.graph) && r.outcome.value < |r.graph.ops|
              && (Den(r.graph, r.outcome.value, m) == Den(g, node, m)
                  || (rule.ReduceNotNopRule? && Den(g, node, m).Fault?))
  {
    var r, e := Rewrite(rule, g, node), Tree(g, node);
    RewriteSafe(rule, g, node);
    if r.outcome.Done? {
      var d := RewrittenTree(rule, g, node, e);
      DenIsEval(r.graph, r.outcome.value, d, m);
      match rule
      case DeMorganRule => DeMorganKeepsValue(e, m);
      case MergeNumericRule => MergeNumericKeepsValue(e, m);
      case MergeLogicRule => MergeLogicKeepsValue(e, m);
      case ReduceNotNopRule => ReduceKeepsValueExactly(e, m);
      case PullDfRule =>
        assert Apply(d.op, EvalAll(e.args, m), m) == Apply(e.op, EvalAll(e.args, m), m);
    }
  }

  /** Some operand of the node has the node's operator, so that the numeric merge changes the node. */
  predicate Splices(g: Graph, node: nat)
    requires Closed(g) && node < |g.ops|
  {
    assert RowInRange(g.rows[node], |g.ops|);
    exists i :: 0 <= i < |g.rows[node]| && g.ops[g.rows[node][i]].op == g.ops[node].op
  }

  lemma {:induction false} SpliceCountPositive(op: ColumnOp, es: seq<Expr>)
    ensures SpliceCount(op, es) > 0 <==> exists i :: 0 <= i < |es| && es[i].op.op == op
  {
    if es != [] {
      SpliceCountPositive(op, es[1..]);
      if i :| 0 <= i < |es| && es[i].op.op == op && i > 0 {
        assert es[1..][i - 1].op.op == op;
      }
      if i :| 0 <= i < |es[1..]| && es[1..][i].op.op == op {
        assert es[i + 1].op.op == op;
      }
    }
  }

  /**
   The numeric merge, without its guard, on every arithmetic node of a graph the visitor and the
   rules have made: it is right under every interpretation if and only if the node is a sum or a
   product, or no operand has the node's operator.
   */
  lemma MergeNumericMeaningExactly(g: Graph, node: nat)
    requires WellFormed(g) && Wide(g) && node < |g.ops| && IsArithmetic(g.ops[node].op)
    ensures var r, op := Rewrite(MergeNumericRule, g, node), g.ops[node].op;
            && r.outcome.Done? && WellFormed(r.graph) && r.outcome.value < |r.graph.ops|
            && ((forall m :: Den(r.graph, r.outcome.value, m) == Den(g, node, m))
                <==> op.Add? || op.Mul? || !Splices(g, node))
  {
    var r, e := Rewrite(MergeNumericRule, g, node), Tree(g, node);
    var op := e.op.op;
    RewriteSafe(MergeNumericRule, g, node);
    SplicesTree(g, node, e);
    MergeNumericExactly(e);
    forall m: Interp
      ensures Den(r.graph, r.outcome.value, m) == Den(g, node, m) <==> Eval(MergeTree(op, e), m) == Eval(e, m)
    {
      MergeRepresents(op, g, node, e);
      DenIsEval(r.graph, r.outcome.value, MergeTree(op, e), m);
    }
    assert g.ops[node] == e.op;
    if op.Add? || op.Mul? || !Splices(g, node) {
      forall m: Interp
        ensures Den(r.graph, r.outcome.value, m) == Den(g, node, m)
      {
        assert Eval(MergeTree(op, e), m) == Eval(e, m);
      }
    } else {
      var m :| Eval(MergeTree(op, e), m) != Eval(e, m);
      assert Den(r.graph, r.outcome.value, m) != Den(g, node, m);
    }
  }

  lemma SplicesTree(g: Graph, node: nat, e: Expr)
    requires WellFormed(g) && Wide(g) && Represents(g, node, e) && IsArithmetic(e.op.op)
    ensures |e.args| >= 2 && TwoOrMore(e.op.op, e.args)
    ensures Splices(g, node) <==> SpliceCount(e.op.op, e.args) > 0
  {
    var row := g.rows[node];
    assert RowInRange(row, |g.ops|);
    assert forall i :: 0 <= i < |row| ==> Represents(g, row[i], e.args[i]) && g.ops[row[i]] == e.args[i].op;
    SpliceCountPositive(e.op.op, e.args);
  }

  /**
   De Morgan's rule on every node: it returns exactly on an AND, OR, NAND or NOR whose operands all have
   an operator with an opposite, and then with a node of the same value.
   */
  lemma DeMorganExactly(g: Graph, node: nat)
    requires WellFormed(g) && node < |g.ops|
    ensures var r := DeMorganResult(g, node);
            && (r.outcome.Done? <==> FlipsAll(g, node))
            && (r.outcome.Done? ==>
                  && WellFormed(r.graph) && r.outcome.value < |r.graph.ops|
                  && forall m :: Den(r.graph, r.outcome.value, m) == Den(g, node, m))
  {
    DeMorganReturns(g, node);
    RewriteSafe(DeMorganRule, g, node);
    var r := DeMorganResult(g, node);
    if r.outcome.Done? {
      forall m: Interp
        ensures Den(r.graph, r.outcome.value, m) == Den(g, node, m)
      {
        RewriteKeepsMeaning(DeMorganRule, g, node, m);
      }
    }
  }

  /** Flattening on every node: it returns exactly on the six logical operators, with a node of the same value. */
  lemma MergeLogicExactly(g: Graph, node: nat)
    requires WellFormed(g) && node < |g.ops|
    ensures var r, op := MergeLogicResult(g, node), g.ops[node].op;
            && (r.outcome.Done? <==> op.And? || op.Or? || op.Xor? || op.Nand? || op.Nor? || op.Xnor?)
            && (r.outcome.Done? ==>
                  && WellFormed(r.graph) && r.outcome.value < |r.graph.ops|
                  && forall m :: Den(r.graph, r.outcome.value, m) == Den(g, node, m))
  {
    RulesReturn(MergeLogicRule, g, node);
    RewriteSafe(MergeLogicRule, g, node);
    var r := MergeLogicResult(g, node);
    if r.outcome.Done? {
      forall m: Interp
        ensures Den(r.graph, r.outcome.value, m) == Den(g, node, m)
      {
        RewriteKeepsMeaning(MergeLogicRule, g, node, m);
      }
    }
  }

  /** The tree of the node a rule returns. */
  lemma RewrittenTree(rule: Rule, g: Graph, node: nat, e: Expr) returns (d: Expr)
    requires WellFormed(g) && Represents(g, node, e) && Rewrite(rule, g, node).outcome.Done?
    ensures Represents(Rewrite(rule, g, node).graph, Rewrite(rule, g, node).outcome.value, d)
    ensures match rule
            case DeMorganRule => !DeMorganOp(e.op.op).Invalid? && AllNegatable(e.args) && d == DeMorganTree(e)
            case MergeNumericRule => d == MergeTree(e.op.op, e)
            case MergeLogicRule => !SplicedOp(e.op.op).Invalid? && d == MergeTree(SplicedOp(e.op.op), e)
            case ReduceNotNopRule => NotOrNop(e) && (e.op.op.Nop? || Negatable(e.args[0].op.op)) && d == ReduceTree(e)
            case PullDfRule => d.args == e.args && exists df :: d.op == e.op.(df := df)
  {
    match rule
    case DeMorganRule =>
      DeMorganRepresents(g, node, e);
      d := DeMorganTree(e);
    case MergeNumericRule =>
      MergeRepresents(e.op.op, g, node, e);
      d := MergeTree(e.op.op, e);
    case MergeLogicRule =>
      MergeRepresents(SplicedOp(e.op.op), g, node, e);
      d := MergeTree(SplicedOp(e.op.op), e);
    case ReduceNotNopRule =>
      ReduceRepresents(g, node, e);
      d := ReduceTree(e);
    case PullDfRule =>
      PullDfRepresents(g, node, e);
      d := Node(e.op.(df := FirstDf(g, g.rows[node])), e.args);
  }

  /** Rules applied one after the other, each to the node the one before returned. */
  ghost predicate IsOptimisation(g: Graph, root: nat, rules: seq<Rule>, h: Graph, root': nat)
    requires WellFormed(g)
    decreases |rules|
  {
    if rules == [] then g == h && root == root'
    else
      && root < |g.ops| && Meant(rules[0], g.ops[root].op)
      && (RewriteSafe(rules[0], g, root);
          var r := Rewrite(rules[0], g, root);
          r.outcome.Done? && IsOptimisation(r.graph, r.outcome.value, rules[1..], h, root'))
  }

  /** However the rules are combined, the expression they end with has the value of the one they started from. */
  lemma {:induction false} OptimisationKeepsMeaning(
      g: Graph, root: nat, rules: seq<Rule>, h: Graph, root': nat, m: Interp)
    requires WellFormed(g) && root < |g.ops| && IsOptimisation(g, root, rules, h, root')
    requires !Den(g, root, m).Fault?
    ensures WellFormed(h) && Extends(g, h) && root' < |h.ops|
    ensures Den(h, root', m) == Den(g, root, m)
    decreases |rules|
  {
    if rules != [] {
      RewriteSafe(rules[0], g, root);
      RewriteKeepsMeaning(rules[0], g, root, m);
      var r := Rewrite(rules[0], g, root);
      OptimisationKeepsMeaning(r.graph, r.outcome.value, rules[1..], h, root', m);
    }
  }

  // ---------------------------------------------------------------- De Morgan twice

  /**
   Applying De Morgan's rule to its own result gives back an expression equal to the original, or throws,
   exactly when an operand is a NOT.
   */
  lemma DeMorganTwiceRestores(g: Graph, node: nat, e: Expr)
    requires WellFormed(g) && Represents(g, node, e) && DeMorganResult(g, node).outcome.Done?
    ensures var r := DeMorganResult(g, node);
            && WellFormed(r.graph) && r.outcome.value < |r.graph.ops|
            && var s := DeMorganResult(r.graph, r.outcome.value);
               && (s.outcome.Done? <==> forall i :: 0 <= i < |e.args| ==> !e.args[i].op.op.Not?)
               && (s.outcome.Done? ==> Represents(s.graph, s.outcome.value, e))
  {
    RewriteSafe(DeMorganRule, g, node);
    DeMorganRepresents(g, node, e);
    var r := DeMorganResult(g, node);
    DeMorganRepresents(r.graph, r.outcome.value, DeMorganTree(e));
    DeMorganTwice(e);
  }

  // ---------------------------------------------------------------- chains of NOT

  /** `k` applications of the NOT/NOP rule, each to the node the one before returned. */
  ghost predicate Reduces(g: Graph, node: nat, k: nat, h: Graph, node': nat)
    requires WellFormed(g)
    decreases k
  {
    if k == 0 then g == h && node == node'
    else
      && node < |g.ops|
      && (RewriteSafe(ReduceNotNopRule, g, node);
          var r := ReduceNotNopResult(g, node);
          r.outcome.Done? && Reduces(r.graph, r.outcome.value, k - 1, h, node'))
  }

  lemma ReduceStep(g: Graph, node: nat, e: Expr) returns (h: Graph, node': nat)
    requires WellFormed(g) && Represents(g, node, e)
    requires NotOrNop(e) && (e.op.op.Nop? || Negatable(e.args[0].op.op))
    ensures WellFormed(h) && Represents(h, node', ReduceTree(e))
    ensures ReduceNotNopResult(g, node) == Rewritten(h, Done(node'))
  {
    ReduceRepresents(g, node, e);
    RewriteSafe(ReduceNotNopRule, g, node);
    var r := ReduceNotNopResult(g, node);
    h, node' := r.graph, r.outcome.value;
  }

  /**
   A chain of `k` NOTs is gone after exactly `k` applications: what is left is the expression itself
   when `k` is even and its negation when `k` is odd.
   */
  lemma {:induction false} NotChainReduces(g: Graph, node: nat, k: nat, c: Expr, e: Expr) returns (h: Graph, node': nat)
    requires WellFormed(g) && Represents(g, node, c) && NotChain(k, c, e)
    requires k % 2 == 1 ==> Negatable(e.op.op)
    ensures WellFormed(h) && Reduces(g, node, k, h, node')
    ensures Represents(h, node', if k % 2 == 0 then e else NegateRoot(e))
    decreases k
  {
    if k == 0 {
      h, node' := g, node;
    } else {
      if k == 1 {
        assert NotChain(0, c.args[0], e);
      } else {
        assert NotChain(k - 1, c.args[0], e);
      }
      var g1, n1 := ReduceStep(g, node, c);
      if k == 1 {
        h, node' := g1, n1;
      } else {
        var g2, n2 := ReduceStep(g1, n1, ReduceTree(c));
        assert NotChain(k - 2, c.args[0].args[0], e);
        h, node' := NotChainReduces(g2, n2, k - 2, c.args[0].args[0], e);
        assert Reduces(g1, n1, k - 1, h, node');
      }
    }
  }
}
