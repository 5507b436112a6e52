/**
 The query graph as a value: two parallel sequences, one record and one row of child ids for each
 node.  A node stands for the expression tree it unfolds to; because the relation between the two
 is by recursion on the tree, it needs no order on node ids.
 */
module ExpressionGraph {
  import opened SqlValues
  import opened Operators

  datatype Graph = Graph(ops: seq<Operation>, rows: seq<seq<nat>>)

  datatype Expr = Node(op: Operation, args: seq<Expr>)

  // ---------------------------------------------------------------- well-formed graphs

  predicate RowInRange(row: seq<nat>, n: nat) {
    forall i :: 0 <= i < |row| ==> row[i] < n
  }

  predicate Closed(g: Graph) {
    && |g.ops| == |g.rows|
    && forall n :: 0 <= n < |g.rows| ==> RowInRange(g.rows[n], |g.ops|)
  }

  predicate RowBelow(row: seq<nat>, rank: seq<nat>, bound: nat) {
    forall i :: 0 <= i < |row| ==> row[i] < |rank| && rank[row[i]] < bound
  }

  /** `rank` strictly decreases along every edge. */
  predicate Ranked(g: Graph, rank: seq<nat>) {
    && |rank| == |g.ops| == |g.rows|
    && forall n :: 0 <= n < |g.rows| ==> RowBelow(g.rows[n], rank, rank[n])
  }

  ghost predicate Acyclic(g: Graph) {
    exists rank :: Ranked(g, rank)
  }

  ghost predicate WellFormed(g: Graph) {
    Closed(g) && Acyclic(g)
  }

  /** Every child id is smaller than its parent id: the order the parser appends nodes in. */
  predicate Topological(g: Graph) {
    && |g.ops| == |g.rows|
    && forall n :: 0 <= n < |g.rows| ==> RowInRange(g.rows[n], n)
  }

  /** Every sum, difference, product and quotient has at least two operands. */
  predicate Wide(g: Graph) {
    forall n :: 0 <= n < |g.ops| && n < |g.rows| && IsArithmetic(g.ops[n].op) ==> |g.rows[n]| >= 2
  }

  lemma TopologicalWellFormed(g: Graph)
    requires Topological(g)
    ensures WellFormed(g)
  {
    var rank := seq(|g.ops|, i => i);
    assert Ranked(g, rank) by {
      forall n | 0 <= n < |g.rows|
        ensures RowBelow(g.rows[n], rank, rank[n])
      {
        assert RowInRange(g.rows[n], n);
      }
    }
    forall n | 0 <= n < |g.rows|
      ensures RowInRange(g.rows[n], |g.ops|)
    {
      assert RowInRange(g.rows[n], n);
    }
  }

  // ---------------------------------------------------------------- a node and its tree

  ghost predicate Represents(g: Graph, n: nat, e: Expr)
    decreases e
  {
    && n < |g.ops| && n < |g.rows|
    && g.ops[n] == e.op
    && |g.rows[n]| == |e.args|
    && forall i :: 0 <= i < |e.args| ==> Represents(g, g.rows[n][i], e.args[i])
  }

  ghost predicate RepresentsAll(g: Graph, row: seq<nat>, es: seq<Expr>) {
    && |row| == |es|
    && forall i :: 0 <= i < |es| ==> Represents(g, row[i], es[i])
  }

  lemma {:induction false} RepresentsUnique(g: Graph, n: nat, d: Expr, e: Expr)
    requires Represents(g, n, d) && Represents(g, n, e)
    ensures d == e
    decreases d
  {
    forall i | 0 <= i < |d.args|
      ensures d.args[i] == e.args[i]
    {
      RepresentsUnique(g, g.rows[n][i], d.args[i], e.args[i]);
    }
    assert d.args == e.args;
  }

  ghost function Unfold(g: Graph, rank: seq<nat>, n: nat): (e: Expr)
    requires Ranked(g, rank) && n < |g.ops|
    ensures Represents(g, n, e)
    decreases rank[n]
  {
    assert RowBelow(g.rows[n], rank, rank[n]);
    Node(g.ops[n], UnfoldRow(g, rank, g.rows[n], rank[n]))
  }

  ghost function UnfoldRow(g: Graph, rank: seq<nat>, row: seq<nat>, bound: nat): (es: seq<Expr>)
    requires Ranked(g, rank) && RowBelow(row, rank, bound)
    ensures RepresentsAll(g, row, es)
    decreases bound, 0, |row|
  {
    if row == [] then []
    else
      assert RowBelow(row[1..], rank, bound);
      assert row[0] in row;
      [Unfold(g, rank, row[0])] + UnfoldRow(g, rank, row[1..], bound)
  }

  ghost function Tree(g: Graph, n: nat): (e: Expr)
    requires WellFormed(g) && n < |g.ops|
    ensures Represents(g, n, e)
  {
    var rank :| Ranked(g, rank);
    Unfold(g, rank, n)
  }

  function Height(e: Expr): (h: nat)
    ensures forall i :: 0 <= i < |e.args| ==> Height(e.args[i]) < h
    decreases e
  {
    1 + HeightAll(e.args)
  }

  function HeightAll(es: seq<Expr>): (h: nat)
    ensures forall i :: 0 <= i < |es| ==> Height(es[i]) <= h
    decreases es
  {
    if es == [] then 0
    else
      var a, b := Height(es[0]), HeightAll(es[1..]);
      if a > b then a else b
  }

  ghost predicate Unfolds(g: Graph, n: nat) {
    exists e :: Represents(g, n, e)
  }

  /** A closed graph is acyclic exactly when every one of its nodes unfolds to a finite tree. */
  lemma AcyclicIffUnfolds(g: Graph)
    requires Closed(g)
    ensures Acyclic(g) <==> forall n: nat :: n < |g.ops| ==> Unfolds(g, n)
  {
    if Acyclic(g) {
      forall n: nat | n < |g.ops|
        ensures Unfolds(g, n)
      {
        assert Represents(g, n, Tree(g, n));
      }
    }
    if forall n: nat :: n < |g.ops| ==> Unfolds(g, n) {
      var trees := TreesOf(g, |g.ops|);
      var rank: seq<nat> := seq(|g.ops|, i requires 0 <= i < |trees| => Height(trees[i]));
      forall n | 0 <= n < |g.rows|
        ensures RowBelow(g.rows[n], rank, rank[n])
      {
        assert RowInRange(g.rows[n], |g.ops|);
        forall i | 0 <= i < |g.rows[n]|
          ensures rank[g.rows[n][i]] < rank[n]
        {
          RepresentsUnique(g, g.rows[n][i], trees[n].args[i], trees[g.rows[n][i]]);
        }
      }
      assert Ranked(g, rank);
    }
  }

  ghost function TreesOf(g: Graph, k: nat): (trees: seq<Expr>)
    requires k <= |g.ops|
    requires forall n: nat :: n < |g.ops| ==> Unfolds(g, n)
    ensures |trees| == k
    ensures forall n: nat :: n < k ==> Represents(g, n, trees[n])
  {
    if k == 0 then []
    else
      var last: nat := k - 1;
      assert Unfolds(g, last);
      var e :| Represents(g, last, e);
      TreesOf(g, k - 1) + [e]
  }

  /** `k` edges lead from node `a` to node `b`. */
  ghost predicate PathOfLength(rows: seq<seq<nat>>, a: nat, b: nat, k: nat)
    decreases k
  {
    if k == 0 then a == b
    else a < |rows| && exists i :: 0 <= i < |rows[a]| && PathOfLength(rows, rows[a][i], b, k - 1)
  }

  lemma {:induction false} RankFallsAlongPath(g: Graph, rank: seq<nat>, a: nat, b: nat, k: nat)
    requires Ranked(g, rank) && a < |g.ops| && PathOfLength(g.rows, a, b, k)
    ensures b < |g.ops| && rank[b] + k <= rank[a]
    decreases k
  {
    if k > 0 {
      var i :| 0 <= i < |g.rows[a]| && PathOfLength(g.rows, g.rows[a][i], b, k - 1);
      assert RowBelow(g.rows[a], rank, rank[a]);
      RankFallsAlongPath(g, rank, g.rows[a][i], b, k - 1);
    }
  }

  lemma {:induction false} PathSnoc(rows: seq<seq<nat>>, a: nat, b: nat, k: nat, c: nat)
    requires b < |rows| && c < |rows[b]| && PathOfLength(rows, a, b, k)
    ensures PathOfLength(rows, a, rows[b][c], k + 1)
    decreases k
  {
    if k == 0 {
      assert PathOfLength(rows, rows[b][c], rows[b][c], 0);
    } else {
      var i :| 0 <= i < |rows[a]| && PathOfLength(rows, rows[a][i], b, k - 1);
      PathSnoc(rows, rows[a][i], b, k - 1, c);
    }
  }

  /** A node that does not unfold has a child that does not. */
  lemma StuckChild(g: Graph, n: nat) returns (c: nat)
    requires Closed(g) && n < |g.ops| && !Unfolds(g, n)
    ensures c < |g.rows[n]| && g.rows[n][c] < |g.ops| && !Unfolds(g, g.rows[n][c])
  {
    var row := g.rows[n];
    assert RowInRange(row, |g.ops|);
    if forall i :: 0 <= i < |row| ==> Unfolds(g, row[i]) {
      var es := RowUnfolds(g, row);
      assert Represents(g, n, Node(g.ops[n], es));
    }
    c :| 0 <= c < |row| && !Unfolds(g, row[c]);
  }

  lemma {:induction false} RowUnfolds(g: Graph, row: seq<nat>) returns (es: seq<Expr>)
    requires forall i :: 0 <= i < |row| ==> Unfolds(g, row[i])
    ensures RepresentsAll(g, row, es)
  {
    if row == [] {
      es := [];
    } else {
      assert Unfolds(g, row[0]);
      var e :| Represents(g, row[0], e);
      var rest := RowUnfolds(g, row[1..]);
      es := [e] + rest;
    }
  }

  function IdsBelow(n: nat): (ids: set<nat>)
    ensures forall i: nat :: i in ids <==> i < n
  {
    if n == 0 then {} else IdsBelow(n - 1) + {n - 1}
  }

  /**
   Following children that do not unfold ends in a cycle: `path` has been followed, `unseen` holds all
   other nodes.
   */
  lemma {:induction false} StuckInCycle(g: Graph, path: seq<nat>, unseen: set<nat>) returns (n: nat, k: nat)
    requires Closed(g) && path != []
    requires var last := path[|path| - 1];
             && last < |g.ops| && !Unfolds(g, last)
             && forall i :: 0 <= i < |path| ==> path[i] < |g.ops| && PathOfLength(g.rows, path[i], last, |path| - 1 - i)
    requires forall n: nat :: n < |g.ops| && n !in path ==> n in unseen
    ensures n < |g.ops| && k > 0 && PathOfLength(g.rows, n, n, k)
    decreases unseen
  {
    var last := path[|path| - 1];
    var c := StuckChild(g, last);
    var child := g.rows[last][c];
    forall i | 0 <= i < |path|
      ensures PathOfLength(g.rows, path[i], child, |path| - i)
    {
      PathSnoc(g.rows, path[i], last, |path| - 1 - i, c);
    }
    if child in path {
      var i :| 0 <= i < |path| && path[i] == child;
      n, k := child, |path| - i;
    } else {
      n, k := StuckInCycle(g, path + [child], unseen - {child});
    }
  }

  /** A closed graph is acyclic exactly when no path comes back to where it started. */
  lemma AcyclicIffNoCycle(g: Graph)
    requires Closed(g)
    ensures Acyclic(g) <==> forall n: nat, k: nat :: n < |g.ops| && PathOfLength(g.rows, n, n, k) ==> k == 0
  {
    if Acyclic(g) {
      var rank :| Ranked(g, rank);
      forall n: nat, k: nat | n < |g.ops| && PathOfLength(g.rows, n, n, k)
        ensures k == 0
      {
        RankFallsAlongPath(g, rank, n, n, k);
      }
    } else {
      AcyclicIffUnfolds(g);
      var n: nat :| n < |g.ops| && !Unfolds(g, n);
      var m, k := StuckInCycle(g, [n], IdsBelow(|g.ops|));
      assert PathOfLength(g.rows, m, m, k) && k != 0;
    }
  }

  // ---------------------------------------------------------------- the value of a node

  function Eval(e: Expr, m: Interp): Val
    decreases e
  {
    Apply(e.op, EvalAll(e.args, m), m)
  }

  function EvalAll(es: seq<Expr>, m: Interp): (vs: seq<Val>)
    ensures |vs| == |es|
    decreases es
  {
    if es == [] then [] else [Eval(es[0], m)] + EvalAll(es[1..], m)
  }

  lemma {:induction false} EvalAllAt(es: seq<Expr>, m: Interp, i: nat)
    requires i < |es|
    ensures EvalAll(es, m)[i] == Eval(es[i], m)
  {
    if i > 0 {
      EvalAllAt(es[1..], m, i - 1);
    }
  }

  lemma {:induction false} EvalAllConcat(xs: seq<Expr>, ys: seq<Expr>, m: Interp)
    ensures EvalAll(xs + ys, m) == EvalAll(xs, m) + EvalAll(ys, m)
  {
    if xs == [] {
      assert xs + ys == ys;
    } else {
      EvalAllConcat(xs[1..], ys, m);
      assert (xs + ys)[1..] == xs[1..] + ys;
    }
  }

  /** The value a node denotes. */
  ghost function Den(g: Graph, n: nat, m: Interp): Val
    requires WellFormed(g) && n < |g.ops|
  {
    Eval(Tree(g, n), m)
  }

  lemma DenIsEval(g: Graph, n: nat, e: Expr, m: Interp)
    requires WellFormed(g) && Represents(g, n, e)
    ensures n < |g.ops| && Den(g, n, m) == Eval(e, m)
  {
    RepresentsUnique(g, n, Tree(g, n), e);
  }

  // ---------------------------------------------------------------- growth

  /** `h` is `g` with nodes appended: nothing that was there has changed. */
  predicate Extends(g: Graph, h: Graph) {
    g.ops <= h.ops && g.rows <= h.rows
  }

  lemma {:induction false} RepresentsExtends(g: Graph, h: Graph, n: nat, e: Expr)
    requires Extends(g, h) && Represents(g, n, e)
    ensures Represents(h, n, e)
    decreases e
  {
    forall i | 0 <= i < |e.args|
      ensures Represents(h, h.rows[n][i], e.args[i])
    {
      RepresentsExtends(g, h, g.rows[n][i], e.args[i]);
    }
  }

  lemma RepresentsAllExtends(g: Graph, h: Graph, row: seq<nat>, es: seq<Expr>)
    requires Extends(g, h) && RepresentsAll(g, row, es)
    ensures RepresentsAll(h, row, es)
  {
    forall i | 0 <= i < |es|
      ensures Represents(h, row[i], es[i])
    {
      RepresentsExtends(g, h, row[i], es[i]);
    }
  }

  /** Growing a graph changes the value of no node that was there. */
  lemma DenExtends(g: Graph, h: Graph, n: nat, m: Interp)
    requires WellFormed(g) && WellFormed(h) && Extends(g, h) && n < |g.ops|
    ensures Den(h, n, m) == Den(g, n, m)
  {
    RepresentsExtends(g, h, n, Tree(g, n));
    DenIsEval(h, n, Tree(g, n), m);
  }
}
