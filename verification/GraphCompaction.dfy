/**
 Compaction: mark what is reachable from a node, number the marked nodes, and copy them to a graph
 of their own.
 */
module GraphCompaction {
  import opened Operators
  import opened ExpressionGraph

  // ---------------------------------------------------------------- marking

  ghost predicate Reachable(rows: seq<seq<nat>>, a: nat, b: nat) {
    exists k :: PathOfLength(rows, a, b, k)
  }

  predicate RowsClosed(rows: seq<seq<nat>>) {
    forall n :: 0 <= n < |rows| ==> RowInRange(rows[n], |rows|)
  }

  function Zeros(marks: seq<int>): nat {
    if marks == [] then 0 else (if marks[0] == 0 then 1 else 0) + Zeros(marks[1..])
  }

  lemma {:induction false} ZerosFall(before: seq<int>, after: seq<int>)
    requires |before| == |after|
    requires forall i :: 0 <= i < |before| && before[i] != 0 ==> after[i] != 0
    ensures Zeros(after) <= Zeros(before)
    ensures forall i :: 0 <= i < |before| && before[i] == 0 && after[i] != 0 ==> Zeros(after) < Zeros(before)
  {
    if before != [] {
      ZerosFall(before[1..], after[1..]);
      forall i | 0 <= i < |before| && before[i] == 0 && after[i] != 0
        ensures Zeros(after) < Zeros(before)
      {
        if i > 0 {
          assert before[1..][i - 1] == 0 && after[1..][i - 1] != 0;
        }
      }
    }
  }

  /** Every child of `n` is marked. */
  ghost predicate ChildrenMarked(rows: seq<seq<nat>>, marks: seq<int>, n: nat)
    requires n < |rows| == |marks| && RowInRange(rows[n], |rows|)
  {
    forall i :: 0 <= i < |rows[n]| ==> marks[rows[n][i]] != 0
  }

  /**
   What a marking walk from `node` with start value `value` does to the marks: it keeps those that
   were there, gives `node` its value, marks only nodes it has a path to, of the length the mark
   says, and leaves no newly marked node with an unmarked child.
   */
  ghost predicate Walked(rows: seq<seq<nat>>, before: seq<int>, after: seq<int>, node: nat, value: int)
    requires RowsClosed(rows) && node < |rows| == |before|
  {
    && |after| == |rows|
    && after[node] == value
    && (forall n: nat :: n < |rows| && n != node && before[n] != 0 ==> after[n] == before[n])
    && (forall n: nat :: n < |rows| && before[n] == 0 && after[n] != 0 ==>
          after[n] >= value && PathOfLength(rows, node, n, after[n] - value))
    && (forall n: nat :: n < |rows| && (n == node || (before[n] == 0 && after[n] != 0)) ==>
          RowInRange(rows[n], |rows|) && ChildrenMarked(rows, after, n))
  }

  /** The marks after walking from `node`, depth first, children from left to right. */
  function Walk(rows: seq<seq<nat>>, marks: seq<int>, node: nat, value: int): (after: seq<int>)
    requires RowsClosed(rows) && |marks| == |rows| && node < |rows| && value > 0
    ensures Covers(marks, after)
    decreases Zeros(marks), if marks[node] != 0 then 2 else 0, 0
  {
    var marked := marks[node := value];
    assert RowInRange(rows[node], |rows|);
    ZerosFall(marks, marked);
    var after := WalkChildren(rows, marked, rows[node], value + 1);
    CoversTransitive(marks, marked, after);
    after
  }

  function WalkChildren(rows: seq<seq<nat>>, marks: seq<int>, row: seq<nat>, value: int): (after: seq<int>)
    requires RowsClosed(rows) && |marks| == |rows| && RowInRange(row, |rows|) && value > 0
    ensures Covers(marks, after)
    decreases Zeros(marks), 1, |row|
  {
    if row == [] then marks
    else
      var child := row[0];
      var middle := if marks[child] == 0 then Walk(rows, marks, child, value) else marks;
      ZerosFall(marks, middle);
      assert RowInRange(row[1..], |rows|);
      var after := WalkChildren(rows, middle, row[1..], value);
      CoversTransitive(marks, middle, after);
      after
  }

  /** No mark has been taken back. */
  predicate Covers(before: seq<int>, after: seq<int>) {
    && |before| == |after|
    && forall i :: 0 <= i < |before| && before[i] != 0 ==> after[i] != 0
  }

  lemma CoversTransitive(a: seq<int>, b: seq<int>, c: seq<int>)
    requires Covers(a, b) && Covers(b, c)
    ensures Covers(a, c)
  {
  }

  method FillVisited(rows: seq<seq<nat>>, visited: array<int>, node: nat, value: int)
    requires RowsClosed(rows) && visited.Length == |rows| && node < |rows| && value > 0
    modifies visited
    ensures visited[..] == Walk(rows, old(visited[..]), node, value)
    decreases Zeros(visited[..]), if visited[node] != 0 then 2 else 0
  {
    ghost var before := visited[..];
    visited[node] := value;
    var row := rows[node];
    assert RowInRange(row, |rows|);
    ghost var marked := visited[..];
    assert marked == before[node := value];
    ZerosFall(before, marked);
    for i := 0 to |row|
      invariant RowInRange(row[i..], |rows|)
      invariant WalkChildren(rows, marked, row, value + 1) == WalkChildren(rows, visited[..], row[i..], value + 1)
      invariant Covers(marked, visited[..])
    {
      var child := row[i];
      ghost var middle := visited[..];
      ZerosFall(marked, middle);
      assert row[i..][0] == child && row[i..][1..] == row[i + 1..];
      if visited[child] == 0 {
        FillVisited(rows, visited, child, value + 1);
      }
    }
    assert row[|row|..] == [];
  }

  /** The walk does what `Walked` says. */
  lemma {:induction false} WalkWalks(rows: seq<seq<nat>>, marks: seq<int>, node: nat, value: int)
    requires RowsClosed(rows) && |marks| == |rows| && node < |rows| && value > 0
    ensures Walked(rows, marks, Walk(rows, marks, node, value), node, value)
    decreases Zeros(marks), if marks[node] != 0 then 2 else 0, 0
  {
    var marked := marks[node := value];
    assert RowInRange(rows[node], |rows|);
    ZerosFall(marks, marked);
    assert rows[node][0..] == rows[node];
    PartialStart(rows, marks, node, value);
    WalkChildrenWalk(rows, marks, marked, node, value, 0);
    PartialEnd(rows, marks, WalkChildren(rows, marked, rows[node], value + 1), node, value);
  }

  lemma PartialStart(rows: seq<seq<nat>>, marks: seq<int>, node: nat, value: int)
    requires RowsClosed(rows) && |marks| == |rows| && node < |rows| && value > 0
    ensures Partial(rows, marks, marks[node := value], node, value, 0)
  {
    assert RowInRange(rows[node], |rows|);
    assert PathOfLength(rows, node, node, 0);
  }

  lemma PartialEnd(rows: seq<seq<nat>>, before: seq<int>, after: seq<int>, node: nat, value: int)
    requires RowsClosed(rows) && node < |rows| == |before|
    requires Partial(rows, before, after, node, value, |rows[node]|)
    ensures Walked(rows, before, after, node, value)
  {
  }

  lemma {:induction false} WalkChildrenWalk(rows: seq<seq<nat>>, before: seq<int>, marks: seq<int>, node: nat,
      value: int, k: nat)
    requires RowsClosed(rows) && |before| == |marks| == |rows| && node < |rows| && value > 0
    requires Partial(rows, before, marks, node, value, k) && RowInRange(rows[node][k..], |rows|)
    ensures Partial(rows, before, WalkChildren(rows, marks, rows[node][k..], value + 1), node, value, |rows[node]|)
    decreases Zeros(marks), 1, |rows[node]| - k
  {
    var row := rows[node][k..];
    if row != [] {
      var middle := WalkChild(rows, before, marks, node, value, k);
      ZerosFall(marks, middle);
      assert row[1..] == rows[node][k + 1..];
      WalkChildrenWalk(rows, before, middle, node, value, k + 1);
    }
  }

  lemma {:induction false} WalkChild(rows: seq<seq<nat>>, before: seq<int>, marks: seq<int>, node: nat, value: int,
      k: nat)
    returns (middle: seq<int>)
    requires RowsClosed(rows) && |before| == |marks| == |rows| && node < |rows| && value > 0
    requires Partial(rows, before, marks, node, value, k) && k < |rows[node]|
    ensures middle == if marks[rows[node][k]] == 0 then Walk(rows, marks, rows[node][k], value + 1) else marks
    ensures Covers(marks, middle) && Partial(rows, before, middle, node, value, k + 1)
    decreases Zeros(marks), 1, 0
  {
    var child := rows[node][k];
    middle := if marks[child] == 0 then Walk(rows, marks, child, value + 1) else marks;
    if marks[child] == 0 {
      WalkWalks(rows, marks, child, value + 1);
      WalkedComposes(rows, before, marks, middle, node, value, k);
    } else {
      PartialNext(rows, before, marks, node, value, k);
    }
  }

  /** The walk from `node` after it has dealt with the first `k` children. */
  ghost predicate Partial(rows: seq<seq<nat>>, before: seq<int>, after: seq<int>, node: nat, value: int, k: nat)
    requires RowsClosed(rows) && node < |rows| == |before|
  {
    && |after| == |rows| && k <= |rows[node]| && RowInRange(rows[node], |rows|)
    && after[node] == value
    && (forall n: nat :: n < |rows| && n != node && before[n] != 0 ==> after[n] == before[n])
    && (forall n: nat :: n < |rows| && before[n] == 0 && after[n] != 0 ==>
          after[n] >= value && PathOfLength(rows, node, n, after[n] - value))
    && (forall n: nat :: n < |rows| && n != node && before[n] == 0 && after[n] != 0 ==>
          RowInRange(rows[n], |rows|) && ChildrenMarked(rows, after, n))
    && (forall i :: 0 <= i < k ==> after[rows[node][i]] != 0)
  }

  lemma PartialNext(rows: seq<seq<nat>>, before: seq<int>, after: seq<int>, node: nat, value: int, k: nat)
    requires RowsClosed(rows) && node < |rows| == |before| && k < |rows[node]|
    requires Partial(rows, before, after, node, value, k) && after[rows[node][k]] != 0
    ensures Partial(rows, before, after, node, value, k + 1)
  {
  }

  lemma WalkedComposes(rows: seq<seq<nat>>, before: seq<int>, middle: seq<int>, after: seq<int>, node: nat,
      value: int, k: nat)
    requires RowsClosed(rows) && node < |rows| == |before| && k < |rows[node]| && value > 0
    requires Partial(rows, before, middle, node, value, k)
    requires middle[rows[node][k]] == 0 && Walked(rows, middle, after, rows[node][k], value + 1)
    ensures Partial(rows, before, after, node, value, k + 1)
  {
    var child := rows[node][k];
    forall n: nat | n < |rows| && middle[n] == 0 && after[n] != 0
      ensures after[n] >= value && PathOfLength(rows, node, n, after[n] - value)
    {
      assert PathOfLength(rows, child, n, after[n] - value - 1);
    }
    forall n: nat | n < |rows| && n != node && before[n] == 0 && after[n] != 0
      ensures RowInRange(rows[n], |rows|) && ChildrenMarked(rows, after, n)
    {
      if middle[n] != 0 {
        assert ChildrenMarked(rows, middle, n);
      }
    }
  }

  predicate AllZero(marks: seq<int>) {
    forall i :: 0 <= i < |marks| ==> marks[i] == 0
  }

  ghost predicate MarkedClosed(rows: seq<seq<nat>>, marks: seq<int>)
    requires RowsClosed(rows) && |marks| == |rows|
  {
    forall n: nat :: n < |rows| && marks[n] != 0 ==> RowInRange(rows[n], |rows|) && ChildrenMarked(rows, marks, n)
  }

  lemma {:induction false} MarkedAlongPath(rows: seq<seq<nat>>, marks: seq<int>, a: nat, b: nat, k: nat)
    requires RowsClosed(rows) && |marks| == |rows| && MarkedClosed(rows, marks)
    requires a < |rows| && marks[a] != 0 && PathOfLength(rows, a, b, k)
    ensures b < |rows| && marks[b] != 0
    decreases k
  {
    if k > 0 {
      var i :| 0 <= i < |rows[a]| && PathOfLength(rows, rows[a][i], b, k - 1);
      assert RowInRange(rows[a], |rows|) && ChildrenMarked(rows, marks, a);
      MarkedAlongPath(rows, marks, rows[a][i], b, k - 1);
    }
  }

  /**
   From a clean array, exactly the reachable nodes end up marked, cycles or not, each mark counting the
   edges of a path to its node.
   */
  lemma WalkMarksReachable(rows: seq<seq<nat>>, before: seq<int>, after: seq<int>, node: nat, value: int)
    requires RowsClosed(rows) && node < |rows| == |before| && value > 0
    requires AllZero(before) && Walked(rows, before, after, node, value)
    ensures MarkedClosed(rows, after)
    ensures forall n: nat :: n < |rows| ==> (after[n] != 0 <==> Reachable(rows, node, n))
    ensures forall n: nat :: n < |rows| && after[n] != 0 ==>
              after[n] >= value && PathOfLength(rows, node, n, after[n] - value)
  {
    forall n: nat | n < |rows|
      ensures after[n] != 0 <==> Reachable(rows, node, n)
    {
      if after[n] != 0 {
        assert PathOfLength(rows, node, n, after[n] - value);
      }
      if Reachable(rows, node, n) {
        var k :| PathOfLength(rows, node, n, k);
        MarkedAlongPath(rows, after, node, n, k);
      }
    }
  }

  // ---------------------------------------------------------------- numbering

  predicate SortedByMark(order: seq<nat>, visited: seq<int>) {
    && (forall i :: 0 <= i < |order| ==> order[i] < |visited|)
    && (forall i, j :: 0 <= i < j < |order| ==> visited[order[i]] >= visited[order[j]])
  }

  predicate Distinct(order: seq<nat>) {
    forall i, j :: 0 <= i < j < |order| ==> order[i] != order[j]
  }

  /** An order the library sort may return: the marked nodes, each once, by falling mark, ties in any order. */
  predicate IsVisitOrder(order: seq<nat>, visited: seq<int>) {
    && SortedByMark(order, visited)
    && Distinct(order)
    && (forall n: nat :: n < |visited| ==> (visited[n] != 0 <==> n in order))
  }

  /** Sorts by falling mark.  Nothing more is promised, as of the library sort: ties may come in any order. */
  method SortByMark(nodes: seq<nat>, visited: seq<int>) returns (order: seq<nat>)
    requires Distinct(nodes) && forall i :: 0 <= i < |nodes| ==> nodes[i] < |visited|
    ensures SortedByMark(order, visited) && Distinct(order)
    ensures forall n: nat :: n in order <==> n in nodes
  {
    order := [];
    for i := 0 to |nodes|
      invariant SortedByMark(order, visited) && Distinct(order)
      invariant forall n: nat :: n in order <==> n in nodes[..i]
    {
      assert nodes[i] !in nodes[..i];
      assert nodes[..i + 1] == nodes[..i] + [nodes[i]];
      order := InsertByMark(order, nodes[i], visited);
    }
    assert nodes[..|nodes|] == nodes;
  }

  method InsertByMark(order: seq<nat>, x: nat, visited: seq<int>) returns (longer: seq<nat>)
    requires SortedByMark(order, visited) && Distinct(order) && x < |visited| && x !in order
    ensures SortedByMark(longer, visited) && Distinct(longer)
    ensures forall n: nat :: n in longer <==> n in order || n == x
  {
    var k := 0;
    while k < |order| && visited[order[k]] >= visited[x]
      invariant k <= |order|
      invariant forall j :: 0 <= j < k ==> visited[order[j]] >= visited[x]
    {
      k := k + 1;
    }
    longer := order[..k] + [x] + order[k..];
    ghost var same := Inserted(order, k, x, visited);
  }

  lemma Inserted(order: seq<nat>, k: nat, x: nat, visited: seq<int>) returns (longer: seq<nat>)
    requires SortedByMark(order, visited) && Distinct(order) && x < |visited| && x !in order
    requires k <= |order| && (forall j :: 0 <= j < k ==> visited[order[j]] >= visited[x])
    requires k < |order| ==> visited[order[k]] < visited[x]
    ensures longer == order[..k] + [x] + order[k..]
    ensures SortedByMark(longer, visited) && Distinct(longer)
    ensures forall n: nat :: n in longer <==> n in order || n == x
  {
    longer := order[..k] + [x] + order[k..];
    InsertedSorted(order, k, x, visited, longer);
    InsertedDistinct(order, k, x, longer);
    InsertedElements(order, k, x);
  }

  lemma InsertedSorted(order: seq<nat>, k: nat, x: nat, visited: seq<int>, longer: seq<nat>)
    requires SortedByMark(order, visited) && x < |visited| && k <= |order| && longer == order[..k] + [x] + order[k..]
    requires forall j :: 0 <= j < k ==> visited[order[j]] >= visited[x]
    requires k < |order| ==> visited[order[k]] < visited[x]
    ensures SortedByMark(longer, visited)
  {
    assert forall j :: k <= j < |order| ==> visited[order[j]] < visited[x];
    assert |longer| == |order| + 1;
    assert forall j :: 0 <= j < k ==> longer[j] == order[j];
    assert longer[k] == x;
    assert forall j :: k < j < |longer| ==> longer[j] == order[j - 1];
  }

  lemma InsertedDistinct(order: seq<nat>, k: nat, x: nat, longer: seq<nat>)
    requires Distinct(order) && x !in order && k <= |order| && longer == order[..k] + [x] + order[k..]
    ensures Distinct(longer)
  {
    assert forall j :: 0 <= j < k ==> longer[j] == order[j];
    assert longer[k] == x;
    assert forall j :: k < j < |longer| ==> longer[j] == order[j - 1];
  }

  lemma InsertedElements(order: seq<nat>, k: nat, x: nat)
    requires k <= |order|
    ensures forall n: nat :: n in order[..k] + [x] + order[k..] <==> n in order || n == x
  {
    assert order == order[..k] + order[k..];
  }

  method VisitedNodesOrder(visited: seq<int>) returns (order: seq<nat>)
    ensures IsVisitOrder(order, visited)
  {
    var nodes: seq<nat> := [];
    for i := 0 to |visited|
      invariant forall j :: 0 <= j < |nodes| ==> nodes[j] < i
      invariant forall n: nat :: n < i ==> (visited[n] != 0 <==> n in nodes)
      invariant Distinct(nodes)
    {
      if visited[i] != 0 {
        nodes := nodes + [i];
      }
    }
    order := SortByMark(nodes, visited);
  }

  /** `m` sends each node of `order` to its position. */
  ghost predicate Numbers(m: map<nat, nat>, order: seq<nat>) {
    && Distinct(order) && |m| == |order|
    && (forall n :: n in m <==> n in order)
    && (forall i :: 0 <= i < |order| ==> order[i] in m && m[order[i]] == i)
  }

  method VisitedLeaveMap(visited: seq<int>) returns (m: map<nat, nat>)
    ensures exists order :: IsVisitOrder(order, visited) && Numbers(m, order)
  {
    var visitedNodes := VisitedNodesOrder(visited);
    m := map[];
    for i := 0 to |visitedNodes|
      invariant Numbers(m, visitedNodes[..i])
    {
      NumbersNext(m, visitedNodes, i);
      m := m[visitedNodes[i] := i];
    }
    assert visitedNodes[..|visitedNodes|] == visitedNodes;
  }

  lemma NumbersNext(m: map<nat, nat>, order: seq<nat>, i: nat)
    requires Distinct(order) && i < |order| && Numbers(m, order[..i])
    ensures Numbers(m[order[i] := i], order[..i + 1])
  {
    var shorter, longer := order[..i], order[..i + 1];
    assert longer == shorter + [order[i]];
    assert order[i] !in shorter;
  }

  lemma NumbersInverse(m: map<nat, nat>, order: seq<nat>)
    requires Numbers(m, order)
    ensures forall n :: n in m ==> m[n] < |m| && order[m[n]] == n
  {
    forall n | n in m
      ensures m[n] < |m| && order[m[n]] == n
    {
      var i :| 0 <= i < |order| && order[i] == n;
    }
  }

  /** The numbering is a bijection from its nodes onto 0..k-1. */
  lemma NumbersBijective(m: map<nat, nat>, order: seq<nat>)
    requires Numbers(m, order)
    ensures forall n :: n in m ==> m[n] < |m| && order[m[n]] == n
    ensures forall n, n' :: n in m && n' in m && m[n] == m[n'] ==> n == n'
    ensures forall i: nat :: i < |m| ==> order[i] in m && m[order[i]] == i
  {
    NumbersInverse(m, order);
  }

  // ---------------------------------------------------------------- copying

  function MapRow(row: seq<nat>, m: map<nat, nat>): seq<nat> {
    if row == [] then []
    else (if row[0] in m then [m[row[0]]] else []) + MapRow(row[1..], m)
  }

  lemma {:induction false} MapRowAt(row: seq<nat>, m: map<nat, nat>)
    requires forall i :: 0 <= i < |row| ==> row[i] in m
    ensures |MapRow(row, m)| == |row|
    ensures forall i :: 0 <= i < |row| ==> MapRow(row, m)[i] == m[row[i]]
  {
    if row != [] {
      MapRowAt(row[1..], m);
    }
  }

  lemma {:induction false} MapRowSnoc(row: seq<nat>, n: nat, m: map<nat, nat>)
    ensures MapRow(row + [n], m) == MapRow(row, m) + if n in m then [m[n]] else []
  {
    if row == [] {
      assert (row + [n])[1..] == [];
      assert MapRow([n][1..], m) == [];
    } else {
      MapRowSnoc(row[1..], n, m);
      assert (row + [n])[1..] == row[1..] + [n];
    }
  }

  method MapMappingGraph(rows: seq<seq<nat>>, m: map<nat, nat>, ghost order: seq<nat>) returns (newRows: seq<seq<nat>>)
    requires Numbers(m, order)
    ensures |newRows| == |m|
    ensures forall n :: n in m && n < |rows| ==> m[n] < |newRows| && newRows[m[n]] == MapRow(rows[n], m)
  {
    NumbersInverse(m, order);
    newRows := seq(|m|, _ => []);
    for node1 := 0 to |rows|
      invariant |newRows| == |m|
      invariant forall n :: n in m && n < node1 ==> m[n] < |newRows| && newRows[m[n]] == MapRow(rows[n], m)
      invariant forall n :: n in m && n >= node1 ==> m[n] < |newRows| && newRows[m[n]] == []
    {
      if node1 in m {
        newRows := MapNodeRow(newRows, m[node1], rows[node1], m);
      }
    }
  }

  /** The inner loop of `MapMappingGraph`. */
  method MapNodeRow(rows: seq<seq<nat>>, mapped: nat, vec: seq<nat>, m: map<nat, nat>) returns (newRows: seq<seq<nat>>)
    requires mapped < |rows|
    ensures |newRows| == |rows| && newRows[mapped] == rows[mapped] + MapRow(vec, m)
    ensures forall j :: 0 <= j < |rows| && j != mapped ==> newRows[j] == rows[j]
  {
    newRows := rows;
    for i := 0 to |vec|
      invariant |newRows| == |rows| && newRows[mapped] == rows[mapped] + MapRow(vec[..i], m)
      invariant forall j :: 0 <= j < |rows| && j != mapped ==> newRows[j] == rows[j]
    {
      MapRowSnoc(vec[..i], vec[i], m);
      assert vec[..i + 1] == vec[..i] + [vec[i]];
      if vec[i] in m {
        newRows := newRows[mapped := newRows[mapped] + [m[vec[i]]]];
      }
    }
    assert vec[..|vec|] == vec;
  }

  const NO_OPERATION: Operation := Operation(Const, NODE_NONE, NODE_NONE, NODE_NONE, Any, AnySequence)

  method MapOperations(ops: seq<Operation>, m: map<nat, nat>, ghost order: seq<nat>) returns (newOps: seq<Operation>)
    requires Numbers(m, order) && forall n :: n in m ==> n < |ops|
    ensures |newOps| == |m|
    ensures forall n :: n in m ==> m[n] < |newOps| && newOps[m[n]] == ops[n]
  {
    NumbersInverse(m, order);
    newOps := seq(|m|, _ => NO_OPERATION);
    var keys := m.Keys;
    while keys != {}
      invariant keys <= m.Keys && |newOps| == |m|
      invariant forall n :: n in m && n !in keys ==> newOps[m[n]] == ops[n]
    {
      var n :| n in keys;
      newOps := newOps[m[n] := ops[n]];
      keys := keys - {n};
    }
  }

  /** `h` is the copy of the nodes of `g` that `m` numbers. */
  ghost predicate IsCopy(g: Graph, h: Graph, m: map<nat, nat>) {
    && |h.ops| == |h.rows| == |m|
    && (forall n :: n in m ==> n < |g.ops| && n < |g.rows| && m[n] < |m|)
    && (forall n :: n in m ==> h.ops[m[n]] == g.ops[n])
    && (forall n :: n in m ==> |h.rows[m[n]]| == |g.rows[n]|)
    && (forall n, i :: n in m && 0 <= i < |g.rows[n]| ==> g.rows[n][i] in m && h.rows[m[n]][i] == m[g.rows[n][i]])
  }

  /** A copied node stands for exactly the expression its original stands for. */
  lemma {:induction false} CopyRepresents(g: Graph, h: Graph, m: map<nat, nat>, n: nat, e: Expr)
    requires IsCopy(g, h, m) && n in m
    ensures Represents(g, n, e) <==> Represents(h, m[n], e)
    decreases e
  {
    forall i | 0 <= i < |g.rows[n]| && i < |e.args|
      ensures Represents(g, g.rows[n][i], e.args[i]) <==> Represents(h, h.rows[m[n]][i], e.args[i])
    {
      CopyRepresents(g, h, m, g.rows[n][i], e.args[i]);
    }
  }

  /** A copy of an acyclic graph is well-formed. */
  lemma CopyWellFormed(g: Graph, h: Graph, m: map<nat, nat>, order: seq<nat>)
    requires WellFormed(g) && IsCopy(g, h, m) && Numbers(m, order)
    ensures WellFormed(h)
  {
    NumbersBijective(m, order);
    forall j: nat | j < |h.ops|
      ensures RowInRange(h.rows[j], |h.ops|) && Unfolds(h, j)
    {
      var n := order[j];
      forall i | 0 <= i < |h.rows[j]|
        ensures h.rows[j][i] < |h.ops|
      {
        assert g.rows[n][i] in m;
      }
      CopyRepresents(g, h, m, n, Tree(g, n));
    }
    AcyclicIffUnfolds(h);
  }

  /** Every child of a node of the order comes before it. */
  ghost predicate ChildrenFirst(rows: seq<seq<nat>>, order: seq<nat>) {
    && RowInRange(order, |rows|)
    && forall i, c :: 0 <= i < |order| && 0 <= c < |rows[order[i]]| ==> rows[order[i]][c] in order[..i]
  }

  /** A copy has every parent after its children exactly when its nodes were numbered children first. */
  lemma CopyTopologicalIff(g: Graph, h: Graph, m: map<nat, nat>, order: seq<nat>)
    requires Closed(g) && IsCopy(g, h, m) && Numbers(m, order)
    ensures Topological(h) <==> ChildrenFirst(g.rows, order)
  {
    NumbersInverse(m, order);
    if Topological(h) {
      forall i, c | 0 <= i < |order| && 0 <= c < |g.rows[order[i]]|
        ensures g.rows[order[i]][c] in order[..i]
      {
        var child := g.rows[order[i]][c];
        assert RowInRange(h.rows[i], i) && h.rows[m[order[i]]][c] == m[child];
        assert order[..i][m[child]] == child;
      }
    }
    if ChildrenFirst(g.rows, order) {
      forall j: nat, c | j < |h.ops| && 0 <= c < |h.rows[j]|
        ensures h.rows[j][c] < j
      {
        var n := order[j];
        assert g.rows[n][c] in order[..j] && h.rows[m[n]][c] == m[g.rows[n][c]];
      }
    }
  }

  /** Every kept node has the value it had. */
  lemma CopyKeepsMeaning(g: Graph, h: Graph, m: map<nat, nat>, order: seq<nat>, n: nat, it: Interp)
    requires WellFormed(g) && IsCopy(g, h, m) && Numbers(m, order) && n in m
    ensures WellFormed(h) && m[n] < |h.ops| && n < |g.ops| && Den(h, m[n], it) == Den(g, n, it)
  {
    CopyWellFormed(g, h, m, order);
    CopyRepresents(g, h, m, n, Tree(g, n));
    DenIsEval(h, m[n], Tree(g, n), it);
  }

  lemma MapsToCopy(g: Graph, h: Graph, marks: seq<int>, m: map<nat, nat>, order: seq<nat>)
    requires Closed(g) && RowsClosed(g.rows) && |marks| == |g.rows| && MarkedClosed(g.rows, marks)
    requires IsVisitOrder(order, marks) && Numbers(m, order) && |h.ops| == |h.rows| == |m|
    requires forall n :: n in m ==> m[n] < |h.ops| && h.ops[m[n]] == g.ops[n]
    requires forall n :: n in m ==> h.rows[m[n]] == MapRow(g.rows[n], m)
    ensures IsCopy(g, h, m)
  {
    NumbersInverse(m, order);
    forall n | n in m
      ensures |h.rows[m[n]]| == |g.rows[n]|
      ensures forall i :: 0 <= i < |g.rows[n]| ==> g.rows[n][i] in m && h.rows[m[n]][i] == m[g.rows[n][i]]
    {
      assert RowInRange(g.rows[n], |g.rows|) && ChildrenMarked(g.rows, marks, n);
      MapRowAt(g.rows[n], m);
    }
  }

  lemma {:induction false} NumberingOf(order: seq<nat>) returns (m: map<nat, nat>)
    requires Distinct(order)
    ensures Numbers(m, order)
  {
    if order == [] {
      m := map[];
    } else {
      var last := |order| - 1;
      var shorter := NumberingOf(order[..last]);
      m := shorter[order[last] := last];
      NumbersNext(shorter, order, last);
      assert order[..last + 1] == order;
    }
  }

  /** There is a copy for every visit order. */
  lemma CopyExists(g: Graph, marks: seq<int>, order: seq<nat>) returns (h: Graph, m: map<nat, nat>)
    requires Closed(g) && RowsClosed(g.rows) && |marks| == |g.rows| && MarkedClosed(g.rows, marks)
    requires IsVisitOrder(order, marks)
    ensures Numbers(m, order) && IsCopy(g, h, m)
  {
    m := NumberingOf(order);
    NumbersBijective(m, order);
    h := Graph(seq(|order|, i requires 0 <= i < |order| => g.ops[order[i]]),
               seq(|order|, i requires 0 <= i < |order| => MapRow(g.rows[order[i]], m)));
    MapsToCopy(g, h, marks, m, order);
  }

  /** No node is marked yet. */
  function Unmarked(g: Graph): (marks: seq<int>)
    ensures |marks| == |g.rows| && AllZero(marks)
  {
    seq(|g.rows|, _ => 0)
  }

  /** Marking from a zeroed array. */
  method MarkReachable(g: Graph, root: nat) returns (marks: seq<int>)
    requires Closed(g) && root < |g.ops|
    ensures RowsClosed(g.rows) && marks == Walk(g.rows, Unmarked(g), root, 1)
    ensures |marks| == |g.rows| && MarkedClosed(g.rows, marks)
    ensures forall n: nat :: n < |g.rows| ==> (marks[n] != 0 <==> Reachable(g.rows, root, n))
  {
    assert RowsClosed(g.rows);
    var visited := new int[|g.rows|](_ => 0);
    assert visited[..] == Unmarked(g);
    FillVisited(g.rows, visited, root, 1);
    marks := visited[..];
    WalkWalks(g.rows, Unmarked(g), root, 1);
    WalkMarksReachable(g.rows, Unmarked(g), marks, root, 1);
  }

  /** The steps one after the other: mark from the root, number, copy.  Needs no acyclicity. */
  method Compact(g: Graph, root: nat) returns (h: Graph, m: map<nat, nat>, ghost order: seq<nat>)
    requires Closed(g) && root < |g.ops|
    ensures Numbers(m, order) && IsCopy(g, h, m)
    ensures forall n: nat :: n in m <==> n < |g.ops| && Reachable(g.rows, root, n)
    ensures RowsClosed(g.rows) && IsVisitOrder(order, Walk(g.rows, Unmarked(g), root, 1))
  {
    var marks := MarkReachable(g, root);
    m := VisitedLeaveMap(marks);
    order :| IsVisitOrder(order, marks) && Numbers(m, order);
    var newRows := MapMappingGraph(g.rows, m, order);
    var newOps := MapOperations(g.ops, m, order);
    h := Graph(newOps, newRows);
    MapsToCopy(g, h, marks, m, order);
  }
}
