/** Hashing the nodes of a graph bottom-up, in 64-bit arithmetic, along an order that should put children first. */
module NodeHashes {
  import opened SqlValues
  import opened Operators
  import opened ExpressionGraph
  import opened GraphCompaction

  const WORD: int := 0x1_0000_0000_0000_0000

  type Word = w: int | 0 <= w < WORD

  /** Unsigned 64-bit wrap-around; a negative field is first converted, as by a cast. */
  function Wrap(x: int): Word {
    x % WORD
  }

  function OpCode(op: ColumnOp): int {
    match op
    case Const => 0 case Add => 1 case Sub => 2 case Mul => 3 case Div => 4 case Neg => 5 case Inv => 6
    case Abs => 7 case Sqrt => 8 case Exp => 9 case Pow => 10 case Ln => 11 case Log => 12
    case Not => 30 case And => 31 case Or => 32 case Nand => 33 case Nor => 34 case Xor => 35 case Xnor => 36
    case Eq => 50 case Neq => 51 case Gt => 52 case Lt => 53 case Gte => 54 case Lte => 55
    case In => 56 case NotIn => 57 case Like => 58 case NotLike => 59 case ILike => 60 case NotILike => 61
    case IsNull => 62 case IsNotNull => 63
    case NullOp => 90 case TrueOp => 91 case FalseOp => 92
    case Min => 104 case Max => 105 case Sum => 106 case Count => 107 case CountDistinct => 108
    case Avg => 109 case Median => 110 case Std => 111 case Var => 112
    case Column => 250 case Desc => 251
    case Table => 261 case Df => 262 case Filter => 263 case Range => 264 case Group => 265 case Sort => 266
    case Union => 267
    case Nop => 400 case Invalid => 500
  }

  function TypeCode(t: ValueType): int {
    match t
    case BoolType => 0 case Int8 => 1 case UInt8 => 2 case Int16 => 3 case UInt16 => 4 case Int32 => 5
    case UInt32 => 6 case Int64 => 7 case UInt64 => 8 case Float32 => 9 case Float64 => 10 case String => 11
    case Bytes => 12 case Any => 13 case Json => 14
  }

  function SequenceCode(s: SequenceType): int {
    match s
    case AnySequence => 0 case Single => 1 case Array => 2
  }

  function HashOperationParams(o: Operation): Word {
    var h0 := 45643;
    var h1 := Wrap(h0 * 5667 + OpCode(o.op));
    var h2 := Wrap(h1 * 5453 + o.name);
    var h3 := Wrap(h2 * 4567 + o.constId);
    var h4 := Wrap(h3 * 6357 + o.df);
    var h5 := Wrap(h4 * 8763 + TypeCode(o.typ));
    Wrap(h5 * 5 + SequenceCode(o.sequence) * 3)
  }

  const CHILDREN_SEED: Word := 583747

  function PositionalHash(hs: seq<Word>): Word {
    if hs == [] then CHILDREN_SEED
    else Wrap((PositionalHash(hs[..|hs| - 1]) + hs[|hs| - 1] + 82937) * 4565)
  }

  /** The children hash of commutative operators looks at how many children there are, and at nothing else. */
  function SetHash(count: nat): Word {
    if count == 0 then CHILDREN_SEED
    else
      var h := SetHash(count - 1);
      Wrap(h * Wrap(h + 989673))
  }

  function HashesOf(row: seq<nat>, hashes: seq<Word>): (hs: seq<Word>)
    requires RowInRange(row, |hashes|)
    ensures |hs| == |row| && forall i :: 0 <= i < |row| ==> hs[i] == hashes[row[i]]
  {
    seq(|row|, i requires 0 <= i < |row| => hashes[row[i]])
  }

  method HashChildrenPositional(children: seq<nat>, nodeHashes: array<Word>) returns (hash: Word)
    requires RowInRange(children, nodeHashes.Length)
    ensures hash == PositionalHash(HashesOf(children, nodeHashes[..]))
  {
    ghost var hs := HashesOf(children, nodeHashes[..]);
    hash := 583747;
    for i := 0 to |children|
      invariant hash == PositionalHash(hs[..i])
    {
      assert hs[..i + 1][..i] == hs[..i];
      hash := Wrap((hash + nodeHashes[children[i]] + 82937) * 4565);
    }
    assert hs[..|children|] == hs;
  }

  method HashChildrenSet(children: seq<nat>, nodeHashes: array<Word>) returns (hash: Word)
    ensures hash == SetHash(|children|)
  {
    hash := 583747;
    for i := 0 to |children|
      invariant hash == SetHash(i)
    {
      hash := Wrap(hash * Wrap(hash + 989673));
    }
  }

  /** The hash of one node, from the hashes its children have at the time. */
  function NodeHash(o: Operation, row: seq<nat>, hashes: seq<Word>): Word
    requires RowInRange(row, |hashes|)
  {
    Wrap(HashOperationParams(o)
         + if row == [] then 0
           else if IsCommutative(o.op) then SetHash(|row|)
           else PositionalHash(HashesOf(row, hashes)))
  }

  function FilledHashes(g: Graph, order: seq<nat>, hashes: seq<Word>): (after: seq<Word>)
    requires Closed(g) && |hashes| == |g.ops| && RowInRange(order, |g.ops|)
    ensures |after| == |hashes|
    decreases |order|
  {
    if order == [] then hashes
    else
      var before := FilledHashes(g, order[..|order| - 1], hashes);
      var node := order[|order| - 1];
      assert RowInRange(g.rows[node], |g.ops|);
      before[node := NodeHash(g.ops[node], g.rows[node], before)]
  }

  method FillNodeHashes(g: Graph, nodesOrder: seq<nat>, nodeHashes: array<Word>)
    requires Closed(g) && nodeHashes.Length == |g.ops| && RowInRange(nodesOrder, |g.ops|)
    modifies nodeHashes
    ensures nodeHashes[..] == FilledHashes(g, nodesOrder, old(nodeHashes[..]))
  {
    ghost var before := nodeHashes[..];
    for i := 0 to |nodesOrder|
      invariant RowInRange(nodesOrder[..i], |g.ops|)
      invariant nodeHashes[..] == FilledHashes(g, nodesOrder[..i], before)
    {
      var node := nodesOrder[i];
      assert RowInRange(g.rows[node], |g.ops|);
      assert nodesOrder[..i + 1][..i] == nodesOrder[..i];
      var hash := HashNode(g.ops[node], g.rows[node], nodeHashes);
      nodeHashes[node] := hash;
    }
    assert nodesOrder[..|nodesOrder|] == nodesOrder;
  }

  /** The body of the loop of `FillNodeHashes`. */
  method HashNode(o: Operation, vec: seq<nat>, nodeHashes: array<Word>) returns (hash: Word)
    requires RowInRange(vec, nodeHashes.Length)
    ensures hash == NodeHash(o, vec, nodeHashes[..])
  {
    var childHash: Word := 0;
    if vec != [] {
      if !IsCommutative(o.op) {
        childHash := HashChildrenPositional(vec, nodeHashes);
      } else {
        childHash := HashChildrenSet(vec, nodeHashes);
      }
    }
    hash := Wrap(HashOperationParams(o) + childHash);
  }

  // ---------------------------------------------------------------- the hash of an expression

  function TreeHash(e: Expr): Word
    decreases e
  {
    Wrap(HashOperationParams(e.op)
         + if e.args == [] then 0
           else if IsCommutative(e.op.op) then SetHash(|e.args|)
           else PositionalHash(TreeHashes(e.args)))
  }

  function TreeHashes(es: seq<Expr>): (hs: seq<Word>)
    ensures |hs| == |es|
    decreases es
  {
    if es == [] then [] else [TreeHash(es[0])] + TreeHashes(es[1..])
  }

  lemma {:induction false} TreeHashesAt(es: seq<Expr>, i: nat)
    requires i < |es|
    ensures TreeHashes(es)[i] == TreeHash(es[i])
  {
    if i > 0 {
      TreeHashesAt(es[1..], i - 1);
    }
  }

  /** Every node of the order whose hash reads those of its children comes after them. */
  ghost predicate ReadFirst(g: Graph, order: seq<nat>)
    requires Closed(g)
  {
    && RowInRange(order, |g.ops|)
    && forall i :: 0 <= i < |order| ==> ChildrenRead(g, order, i)
  }

  /** The node at place `i` comes after its children, or its hash does not read theirs. */
  ghost predicate ChildrenRead(g: Graph, order: seq<nat>, i: nat)
    requires Closed(g) && RowInRange(order, |g.ops|) && i < |order|
  {
    IsCommutative(g.ops[order[i]].op) || forall c :: 0 <= c < |g.rows[order[i]]| ==> g.rows[order[i]][c] in order[..i]
  }

  lemma ReadFirstPrefix(g: Graph, order: seq<nat>, k: nat)
    requires Closed(g) && ReadFirst(g, order) && k <= |order|
    ensures ReadFirst(g, order[..k])
  {
    var shorter := order[..k];
    forall i | 0 <= i < k
      ensures ChildrenRead(g, shorter, i)
    {
      assert ChildrenRead(g, order, i);
      assert shorter[..i] == order[..i];
    }
  }

  lemma NodeHashIsTreeHash(g: Graph, n: nat, e: Expr, hashes: seq<Word>)
    requires Closed(g) && |hashes| == |g.ops| && Represents(g, n, e)
    requires RowInRange(g.rows[n], |g.ops|)
    requires IsCommutative(e.op.op) || forall c :: 0 <= c < |e.args| ==> hashes[g.rows[n][c]] == TreeHash(e.args[c])
    ensures NodeHash(g.ops[n], g.rows[n], hashes) == TreeHash(e)
  {
    if !IsCommutative(e.op.op) {
      RowHashes(g.rows[n], e.args, hashes);
    }
    NodeHashOfTree(e, g.rows[n], hashes);
  }

  lemma RowHashes(row: seq<nat>, es: seq<Expr>, hashes: seq<Word>)
    requires RowInRange(row, |hashes|) && |row| == |es|
    requires forall c :: 0 <= c < |es| ==> hashes[row[c]] == TreeHash(es[c])
    ensures HashesOf(row, hashes) == TreeHashes(es)
  {
    forall c | 0 <= c < |es|
      ensures HashesOf(row, hashes)[c] == TreeHashes(es)[c]
    {
      TreeHashesAt(es, c);
    }
  }

  lemma NodeHashOfTree(e: Expr, row: seq<nat>, hashes: seq<Word>)
    requires RowInRange(row, |hashes|) && |row| == |e.args|
    requires IsCommutative(e.op.op) || HashesOf(row, hashes) == TreeHashes(e.args)
    ensures NodeHash(e.op, row, hashes) == TreeHash(e)
  {
  }

  /** Along such an order, each node ends up with the hash of the expression it stands for. */
  lemma {:induction false} FilledHashesAreTreeHashes(g: Graph, order: seq<nat>, hashes: seq<Word>, n: nat, e: Expr)
    requires Closed(g) && |hashes| == |g.ops| && ReadFirst(g, order)
    requires n in order && Represents(g, n, e)
    ensures RowInRange(order, |g.ops|) && FilledHashes(g, order, hashes)[n] == TreeHash(e)
    decreases |order|, 1
  {
    var shorter, last := order[..|order| - 1], |order| - 1;
    ReadFirstPrefix(g, order, last);
    if n != order[last] {
      FilledHashesAreTreeHashes(g, shorter, hashes, n, e);
    } else {
      assert RowInRange(g.rows[n], |g.ops|);
      if !IsCommutative(e.op.op) {
        ChildrenHashed(g, order, hashes, e);
      }
      NodeHashIsTreeHash(g, n, e, FilledHashes(g, shorter, hashes));
    }
  }

  /** Before the last node of the order is hashed, the children it reads have the hashes of their expressions. */
  lemma {:induction false} ChildrenHashed(g: Graph, order: seq<nat>, hashes: seq<Word>, e: Expr)
    requires Closed(g) && |hashes| == |g.ops| && ReadFirst(g, order) && order != []
    requires Represents(g, order[|order| - 1], e) && !IsCommutative(e.op.op)
    ensures var shorter, row := order[..|order| - 1], g.rows[order[|order| - 1]];
            && RowInRange(shorter, |g.ops|) && RowInRange(row, |g.ops|)
            && forall c :: 0 <= c < |e.args| ==> FilledHashes(g, shorter, hashes)[row[c]] == TreeHash(e.args[c])
    decreases |order|, 0
  {
    var shorter, last := order[..|order| - 1], |order| - 1;
    var row := g.rows[order[last]];
    ReadFirstPrefix(g, order, last);
    assert RowInRange(row, |g.ops|) && ChildrenRead(g, order, last);
    forall c | 0 <= c < |e.args|
      ensures FilledHashes(g, shorter, hashes)[row[c]] == TreeHash(e.args[c])
    {
      FilledHashesAreTreeHashes(g, shorter, hashes, row[c], e.args[c]);
    }
  }

  predicate Permutation(p: seq<nat>) {
    && (forall i :: 0 <= i < |p| ==> p[i] < |p|)
    && (forall i, j :: 0 <= i < j < |p| ==> p[i] != p[j])
  }

  /** Equal up to the order of the operands of commutative operators, at any depth. */
  ghost predicate SameUpToOrder(d: Expr, e: Expr)
    decreases d
  {
    && d.op == e.op && |d.args| == |e.args|
    && if IsCommutative(d.op.op) then
         exists p: seq<nat> :: |p| == |d.args| && Permutation(p)
           && forall i :: 0 <= i < |d.args| ==> SameUpToOrder(d.args[i], e.args[p[i]])
       else
         forall i :: 0 <= i < |d.args| ==> SameUpToOrder(d.args[i], e.args[i])
  }

  lemma {:induction false} SameTreesSameHash(d: Expr, e: Expr)
    requires SameUpToOrder(d, e)
    ensures TreeHash(d) == TreeHash(e)
    decreases d
  {
    if !IsCommutative(d.op.op) {
      forall i | 0 <= i < |d.args|
        ensures TreeHashes(d.args)[i] == TreeHashes(e.args)[i]
      {
        SameTreesSameHash(d.args[i], e.args[i]);
        TreeHashesAt(d.args, i);
        TreeHashesAt(e.args, i);
      }
      assert TreeHashes(d.args) == TreeHashes(e.args);
    }
  }

  /** Nodes that stand for the same expression, up to the order of commutative operands, get the same hash. */
  lemma HashCongruence(g: Graph, order: seq<nat>, hashes: seq<Word>, n1: nat, n2: nat, d: Expr, e: Expr)
    requires Closed(g) && |hashes| == |g.ops| && ReadFirst(g, order)
    requires n1 in order && n2 in order && Represents(g, n1, d) && Represents(g, n2, e) && SameUpToOrder(d, e)
    ensures RowInRange(order, |g.ops|)
    ensures FilledHashes(g, order, hashes)[n1] == FilledHashes(g, order, hashes)[n2]
  {
    FilledHashesAreTreeHashes(g, order, hashes, n1, d);
    FilledHashesAreTreeHashes(g, order, hashes, n2, e);
    SameTreesSameHash(d, e);
  }

  /**
   The converse fails: a commutative node has the same hash whatever its operands are, even where
   that changes the value of the expression, as in TRUE AND TRUE and TRUE AND FALSE.
   */
  lemma CommutativeHashIgnoresOperands(o: Operation, t: Operation, f: Operation, m: Interp)
    requires o.op.And? && t.op.TrueOp? && f.op.FalseOp?
    ensures var d, e := Node(o, [Node(t, []), Node(t, [])]), Node(o, [Node(t, []), Node(f, [])]);
            TreeHash(d) == TreeHash(e) && Eval(d, m) == Bool(true) && Eval(e, m) == Bool(false)
  {
    var x, y := Node(t, []), Node(f, []);
    SameCountSameHash(o, [x, x], [x, y]);
    assert Eval(x, m) == Bool(true) && Eval(y, m) == Bool(false);
    AndOfTwo(o, x, x, m);
    AndOfTwo(o, x, y, m);
    AllOfCases([Bool(true), Bool(true)]);
    AllOfCases([Bool(true), Bool(false)]);
  }

  lemma SameCountSameHash(o: Operation, xs: seq<Expr>, ys: seq<Expr>)
    requires IsCommutative(o.op) && |xs| == |ys|
    ensures TreeHash(Node(o, xs)) == TreeHash(Node(o, ys))
  {
  }

  lemma AndOfTwo(o: Operation, x: Expr, y: Expr, m: Interp)
    requires o.op.And?
    ensures Eval(Node(o, [x, y]), m) == AllOf([Eval(x, m), Eval(y, m)])
  {
    EvalAllAt([x, y], m, 0);
    EvalAllAt([x, y], m, 1);
    assert EvalAll([x, y], m) == [Eval(x, m), Eval(y, m)];
  }

  // ---------------------------------------------------------------- when the visit order puts children first

  /** Marks rise along every edge between marked nodes. */
  ghost predicate MarksRise(rows: seq<seq<nat>>, marks: seq<int>)
    requires RowsClosed(rows) && |marks| == |rows|
  {
    forall n: nat, c: nat ::
      n < |rows| && c < |rows[n]| && marks[n] != 0 ==> rows[n][c] < |marks| && marks[rows[n][c]] > marks[n]
  }

  lemma {:induction false} OrderExists(visited: seq<int>, k: nat) returns (order: seq<nat>)
    requires k <= |visited|
    ensures SortedByMark(order, visited) && Distinct(order)
    ensures forall n: nat :: n in order <==> n < k && visited[n] != 0
  {
    if k == 0 {
      order := [];
    } else {
      var shorter := OrderExists(visited, k - 1);
      if visited[k - 1] == 0 {
        order := shorter;
      } else {
        var p := 0;
        while p < |shorter| && visited[shorter[p]] >= visited[k - 1]
          invariant p <= |shorter|
          invariant forall j :: 0 <= j < p ==> visited[shorter[j]] >= visited[k - 1]
        {
          p := p + 1;
        }
        order := Inserted(shorter, p, k - 1, visited);
      }
    }
  }

  lemma RisingMarksPutChildrenFirst(rows: seq<seq<nat>>, marks: seq<int>, order: seq<nat>)
    requires RowsClosed(rows) && |marks| == |rows| && MarkedClosed(rows, marks)
    requires IsVisitOrder(order, marks) && MarksRise(rows, marks)
    ensures ChildrenFirst(rows, order)
  {
    forall i: nat, c: nat | i < |order| && c < |rows[order[i]]|
      ensures rows[order[i]][c] in order[..i]
    {
      assert marks[order[i]] != 0;
      HigherMarkFirst(rows, marks, order, i, c);
    }
  }

  lemma SwapEqualMarks(order: seq<nat>, marks: seq<int>, a: nat, b: nat) returns (swapped: seq<nat>)
    requires IsVisitOrder(order, marks) && b < a < |order| && marks[order[a]] == marks[order[b]]
    ensures swapped == order[a := order[b]][b := order[a]] && IsVisitOrder(swapped, marks)
  {
    swapped := order[a := order[b]][b := order[a]];
    SwapKeepsSorted(order, marks, a, b);
    SwapKeepsDistinct(order, a, b);
    forall n: nat
      ensures n in order <==> n in swapped
    {
      SwapKeepsElements(order, a, b, n);
    }
  }

  lemma SwapKeepsSorted(order: seq<nat>, marks: seq<int>, a: nat, b: nat)
    requires SortedByMark(order, marks) && b < a < |order| && marks[order[a]] == marks[order[b]]
    ensures SortedByMark(order[a := order[b]][b := order[a]], marks)
  {
    var swapped := order[a := order[b]][b := order[a]];
    assert forall i :: 0 <= i < |order| ==> swapped[i] < |marks| && marks[swapped[i]] == marks[order[i]];
  }

  lemma SwapKeepsDistinct(order: seq<nat>, a: nat, b: nat)
    requires Distinct(order) && b < a < |order|
    ensures Distinct(order[a := order[b]][b := order[a]])
  {
  }

  lemma SwapKeepsElements(s: seq<nat>, a: nat, b: nat, n: nat)
    requires b < a < |s|
    ensures n in s <==> n in s[a := s[b]][b := s[a]]
  {
    var t := s[a := s[b]][b := s[a]];
    if n in s {
      var i :| 0 <= i < |s| && s[i] == n;
      assert t[if i == a then b else if i == b then a else i] == n;
    }
  }

  /**
   The visit order puts children first, whichever way the library sort breaks ties, exactly when marks
   rise along every edge.
   */
  lemma VisitOrderIsChildrenFirstIff(rows: seq<seq<nat>>, marks: seq<int>)
    requires RowsClosed(rows) && |marks| == |rows| && MarkedClosed(rows, marks)
    ensures MarksRise(rows, marks) <==> forall order :: IsVisitOrder(order, marks) ==> ChildrenFirst(rows, order)
  {
    if MarksRise(rows, marks) {
      forall order | IsVisitOrder(order, marks)
        ensures ChildrenFirst(rows, order)
      {
        RisingMarksPutChildrenFirst(rows, marks, order);
      }
    } else {
      var n: nat, c: nat :| n < |rows| && c < |rows[n]| && marks[n] != 0
                            && !(rows[n][c] < |marks| && marks[rows[n][c]] > marks[n]);
      var order := ParentFirstOrder(rows, marks, n, c);
      assert !ChildrenFirst(rows, order);
    }
  }

  lemma ParentFirstOrder(rows: seq<seq<nat>>, marks: seq<int>, n: nat, c: nat) returns (order: seq<nat>)
    requires RowsClosed(rows) && |marks| == |rows| && MarkedClosed(rows, marks)
    requires n < |rows| && c < |rows[n]| && marks[n] != 0
    requires !(rows[n][c] < |marks| && marks[rows[n][c]] > marks[n])
    ensures IsVisitOrder(order, marks) && RowInRange(order, |rows|)
    ensures exists i :: 0 <= i < |order| && order[i] == n && rows[n][c] !in order[..i]
  {
    assert RowInRange(rows[n], |rows|) && ChildrenMarked(rows, marks, n);
    var child := rows[n][c];
    order := OrderExists(marks, |marks|);
    var a :| 0 <= a < |order| && order[a] == n;
    var b :| 0 <= b < |order| && order[b] == child;
    if b < a {
      order := SwapEqualMarks(order, marks, a, b);
      a, b := b, a;
    }
    assert child !in order[..a];
    assert rows[order[a]][c] == child;
  }

  /** Marks rise along every edge out of a marked node whose hash reads those of its children. */
  ghost predicate ReadMarksRise(g: Graph, marks: seq<int>)
    requires RowsClosed(g.rows) && |marks| == |g.rows| == |g.ops|
  {
    forall n: nat, c: nat ::
      n < |g.rows| && c < |g.rows[n]| && marks[n] != 0 && !IsCommutative(g.ops[n].op) ==>
        g.rows[n][c] < |marks| && marks[g.rows[n][c]] > marks[n]
  }

  /**
   The visit order is safe to hash along, whichever way the library sort breaks ties, exactly when
   marks rise along every edge out of a node that is not commutative.
   */
  lemma VisitOrderIsReadFirstIff(g: Graph, marks: seq<int>)
    requires Closed(g) && RowsClosed(g.rows) && |marks| == |g.rows| && MarkedClosed(g.rows, marks)
    ensures ReadMarksRise(g, marks) <==> forall order :: IsVisitOrder(order, marks) ==> ReadFirst(g, order)
  {
    if ReadMarksRise(g, marks) {
      forall order | IsVisitOrder(order, marks)
        ensures ReadFirst(g, order)
      {
        RisingMarksRead(g, marks, order);
      }
    } else {
      var n: nat, c: nat :| n < |g.rows| && c < |g.rows[n]| && marks[n] != 0 && !IsCommutative(g.ops[n].op)
                            && !(g.rows[n][c] < |marks| && marks[g.rows[n][c]] > marks[n]);
      var order := ParentFirstOrder(g.rows, marks, n, c);
      var i :| 0 <= i < |order| && order[i] == n && g.rows[n][c] !in order[..i];
      assert !ChildrenRead(g, order, i);
    }
  }

  lemma RisingMarksRead(g: Graph, marks: seq<int>, order: seq<nat>)
    requires Closed(g) && RowsClosed(g.rows) && |marks| == |g.rows| && MarkedClosed(g.rows, marks)
    requires IsVisitOrder(order, marks) && ReadMarksRise(g, marks)
    ensures ReadFirst(g, order)
  {
    forall i: nat, c | i < |order| && 0 <= c < |g.rows[order[i]]| && !IsCommutative(g.ops[order[i]].op)
      ensures g.rows[order[i]][c] in order[..i]
    {
      var n := order[i];
      assert marks[n] != 0;
      HigherMarkFirst(g.rows, marks, order, i, c);
    }
  }

  lemma HigherMarkFirst(rows: seq<seq<nat>>, marks: seq<int>, order: seq<nat>, i: nat, c: nat)
    requires RowsClosed(rows) && |marks| == |rows| && MarkedClosed(rows, marks) && IsVisitOrder(order, marks)
    requires i < |order| && c < |rows[order[i]]| && rows[order[i]][c] < |marks|
    requires marks[rows[order[i]][c]] > marks[order[i]]
    ensures rows[order[i]][c] in order[..i]
  {
    var n, child := order[i], rows[order[i]][c];
    assert marks[n] != 0;
    assert RowInRange(rows[n], |rows|) && ChildrenMarked(rows, marks, n);
    assert child in order;
    var j :| 0 <= j < |order| && order[j] == child;
    assert j < i;
  }

  /**
   So compacting a marked graph restores the order the visitor appends in, whichever way the library
   sort breaks ties, exactly when marks rise along every edge.
   */
  lemma CompactedTopologicalIff(g: Graph, marks: seq<int>)
    requires Closed(g) && RowsClosed(g.rows) && |marks| == |g.rows| && MarkedClosed(g.rows, marks)
    ensures MarksRise(g.rows, marks) <==>
            forall h, m, order :: IsVisitOrder(order, marks) && Numbers(m, order) && IsCopy(g, h, m) ==> Topological(h)
  {
    VisitOrderIsChildrenFirstIff(g.rows, marks);
    if MarksRise(g.rows, marks) {
      forall h, m, order | IsVisitOrder(order, marks) && Numbers(m, order) && IsCopy(g, h, m)
        ensures Topological(h)
      {
        CopyTopologicalIff(g, h, m, order);
      }
    } else {
      var order :| IsVisitOrder(order, marks) && !ChildrenFirst(g.rows, order);
      var h, m := CopyExists(g, marks, order);
      CopyTopologicalIff(g, h, m, order);
    }
  }

  /** What `Compact` returns is in the order the visitor appends in whenever marks rise along every edge. */
  lemma CompactTopological(g: Graph, root: nat, h: Graph, m: map<nat, nat>, order: seq<nat>)
    requires Closed(g) && root < |g.ops| && RowsClosed(g.rows)
    requires var marks := Walk(g.rows, Unmarked(g), root, 1);
             IsVisitOrder(order, marks) && Numbers(m, order) && IsCopy(g, h, m) && MarksRise(g.rows, marks)
    ensures Topological(h)
  {
    var marks := Walk(g.rows, Unmarked(g), root, 1);
    WalkWalks(g.rows, Unmarked(g), root, 1);
    WalkMarksReachable(g.rows, Unmarked(g), marks, root, 1);
    CompactedTopologicalIff(g, marks);
  }

  ghost predicate OnePathLength(rows: seq<seq<nat>>, root: nat) {
    forall n: nat, j: nat, k: nat :: PathOfLength(rows, root, n, j) && PathOfLength(rows, root, n, k) ==> j == k
  }

  lemma MarkRises(rows: seq<seq<nat>>, root: nat, value: int, marks: seq<int>, n: nat, c: nat)
    requires RowsClosed(rows) && root < |rows| == |marks| && OnePathLength(rows, root) && MarkedClosed(rows, marks)
    requires forall n: nat :: n < |rows| && marks[n] != 0 ==>
               marks[n] >= value && PathOfLength(rows, root, n, marks[n] - value)
    requires n < |rows| && c < |rows[n]| && marks[n] != 0
    ensures rows[n][c] < |marks| && marks[rows[n][c]] == marks[n] + 1
  {
    assert RowInRange(rows[n], |rows|) && ChildrenMarked(rows, marks, n);
    PathSnoc(rows, root, n, marks[n] - value, c);
    assert PathOfLength(rows, root, rows[n][c], marks[rows[n][c]] - value);
  }

  /**
   When all paths from the root to a node have the same length, a marking walk leaves marks that rise
   along every edge.
   */
  lemma EqualPathsMakeMarksRise(rows: seq<seq<nat>>, root: nat, value: int, before: seq<int>, marks: seq<int>)
    requires RowsClosed(rows) && root < |rows| == |before| && value > 0 && OnePathLength(rows, root)
    requires AllZero(before) && marks == Walk(rows, before, root, value)
    ensures |marks| == |rows| && MarkedClosed(rows, marks) && MarksRise(rows, marks)
  {
    WalkWalks(rows, before, root, value);
    WalkMarksReachable(rows, before, marks, root, value);
    forall n: nat, c: nat | n < |rows| && c < |rows[n]| && marks[n] != 0
      ensures rows[n][c] < |marks| && marks[rows[n][c]] > marks[n]
    {
      MarkRises(rows, root, value, marks, n, c);
    }
  }

  lemma WalkSingle(rows: seq<seq<nat>>, marks: seq<int>, node: nat, value: int, child: nat)
    requires RowsClosed(rows) && |marks| == |rows| && node < |rows| && value > 0
    requires rows[node] == [child] && child < |rows|
    ensures var marked := marks[node := value];
            Walk(rows, marks, node, value)
            == if marked[child] == 0 then Walk(rows, marked, child, value + 1) else marked
  {
    var marked := marks[node := value];
    var middle := if marked[child] == 0 then Walk(rows, marked, child, value + 1) else marked;
    assert [child][1..] == [];
    assert WalkChildren(rows, middle, [], value + 1) == middle;
  }

  /** Where a marked node is in a visit order. */
  lemma VisitedAt(order: seq<nat>, marks: seq<int>, n: nat) returns (i: nat)
    requires IsVisitOrder(order, marks) && n < |marks| && marks[n] != 0
    ensures i < |order| && order[i] == n
  {
    i :| 0 <= i < |order| && order[i] == n;
  }

  /**
   In general they do not: in this acyclic graph node 1 is first reached directly from the root and
   is then also a child of node 3, which the walk reaches later.  Every visit order puts 3 before 1.
   */
  lemma VisitOrderCanPutParentFirst(order: seq<nat>)
    requires IsVisitOrder(order, Walk([[1, 2], [], [3], [1]], [0, 0, 0, 0], 0, 1))
    ensures !ChildrenFirst([[1, 2], [], [3], [1]], order)
  {
    var rows: seq<seq<nat>> := [[1, 2], [], [3], [1]];
    ParentFirstMarks();
    var a := VisitedAt(order, [1, 2, 2, 3], 3);
    var b := VisitedAt(order, [1, 2, 2, 3], 1);
    assert a < b;
    assert 1 !in order[..a] && rows[order[a]][0] == 1;
  }

  lemma ParentFirstMarks()
    ensures Walk([[1, 2], [], [3], [1]], [0, 0, 0, 0], 0, 1) == [1, 2, 2, 3]
  {
    var rows: seq<seq<nat>> := [[1, 2], [], [3], [1]];
    var m1, m2, m3, m4 := [1, 0, 0, 0], [1, 2, 0, 0], [1, 2, 2, 0], [1, 2, 2, 3];
    assert m3[3 := 3] == m4;
    WalkSingle(rows, m3, 3, 3, 1);
    assert m2[2 := 2] == m3;
    WalkSingle(rows, m2, 2, 2, 3);
    assert m1[1 := 2] == m2;
    assert Walk(rows, m1, 1, 2) == m2;
    assert [1, 2][1..] == [2] && [2][1..] == [];
    assert WalkChildren(rows, m4, [], 2) == m4;
    assert WalkChildren(rows, m2, [2], 2) == m4;
    assert WalkChildren(rows, m1, [1, 2], 2) == m4;
    assert [0, 0, 0, 0][0 := 1] == m1;
  }

  // ---------------------------------------------------------------- what a wrong order does to the hashes

  lemma {:induction false} FilledUntouched(g: Graph, order: seq<nat>, hashes: seq<Word>, n: nat)
    requires Closed(g) && |hashes| == |g.ops| && RowInRange(order, |g.ops|) && n < |g.ops| && n !in order
    ensures FilledHashes(g, order, hashes)[n] == hashes[n]
    decreases |order|
  {
    if order != [] {
      FilledUntouched(g, order[..|order| - 1], hashes, n);
    }
  }

  /** The hash of a node is computed once, from the hashes there are at its place in the order. */
  lemma {:induction false} FilledAt(g: Graph, order: seq<nat>, hashes: seq<Word>, i: nat)
    requires Closed(g) && |hashes| == |g.ops| && RowInRange(order, |g.ops|) && Distinct(order) && i < |order|
    ensures RowInRange(order[..i], |g.ops|) && RowInRange(g.rows[order[i]], |g.ops|)
    ensures FilledHashes(g, order, hashes)[order[i]]
            == NodeHash(g.ops[order[i]], g.rows[order[i]], FilledHashes(g, order[..i], hashes))
    decreases |order|
  {
    assert RowInRange(g.rows[order[i]], |g.ops|);
    var last := |order| - 1;
    FilledLast(g, order, hashes);
    if i < last {
      FilledAt(g, order[..last], hashes, i);
      assert order[..last][..i] == order[..i];
    }
  }

  lemma FilledLast(g: Graph, order: seq<nat>, hashes: seq<Word>)
    requires Closed(g) && |hashes| == |g.ops| && RowInRange(order, |g.ops|) && order != []
    ensures var last := |order| - 1;
            && RowInRange(g.rows[order[last]], |g.ops|) && RowInRange(order[..last], |g.ops|)
            && var before := FilledHashes(g, order[..last], hashes);
               FilledHashes(g, order, hashes)
               == before[order[last] := NodeHash(g.ops[order[last]], g.rows[order[last]], before)]
  {
    assert RowInRange(g.rows[order[|order| - 1]], |g.ops|);
  }

  function Occurrences(row: seq<nat>, x: nat): nat {
    if row == [] then 0
    else Occurrences(row[..|row| - 1], x) + if row[|row| - 1] == x then 1 else 0
  }

  lemma WrapMod4(x: int)
    ensures Wrap(x) % 4 == x % 4
  {
    SameMod4(x, 0x4000_0000_0000_0000 * (x / WORD), Wrap(x));
  }

  /** Both the factor and the summand of a positional hash are 1 modulo 4. */
  lemma StepMod4(x: int)
    ensures Wrap((x + 82937) * 4565) % 4 == (x + 1) % 4
  {
    var y := (x + 82937) * 4565;
    WrapMod4(y);
    SameMod4(y, (x + 82937) * 1141 + 20734, x + 1);
  }

  lemma SameMod4(y: int, m: int, z: int)
    requires y == 4 * m + z
    ensures y % 4 == z % 4
  {
  }

  lemma PositionalMod4(hs: seq<Word>)
    requires hs != []
    ensures PositionalHash(hs) % 4 == (PositionalHash(hs[..|hs| - 1]) + hs[|hs| - 1] + 1) % 4
  {
    var x: int := PositionalHash(hs[..|hs| - 1]);
    var y: int := hs[|hs| - 1];
    StepMod4(x + y);
  }

  function Rise(y: nat, x: nat): int {
    if y == x then 1 else 0
  }

  lemma SumsMod4(h: int, k: int, n: int, u: int, rise: int)
    requires k % 4 == (h + n) % 4
    ensures (k + (u + rise) + 1) % 4 == ((h + u + 1) % 4 + (n + rise)) % 4
  {
  }

  /** Raising the hash of one child by one raises the hash of its parent by the child's occurrences, modulo 4. */
  lemma {:induction false} PositionalRises(row: seq<nat>, x: nat, hs: seq<Word>, ks: seq<Word>)
    requires |row| == |hs| == |ks|
    requires forall j :: 0 <= j < |row| ==> ks[j] == hs[j] + Rise(row[j], x)
    ensures PositionalHash(ks) % 4 == (PositionalHash(hs) + Occurrences(row, x)) % 4
    decreases |row|
  {
    if row != [] {
      var last := |row| - 1;
      PositionalRises(row[..last], x, hs[..last], ks[..last]);
      PositionalMod4(hs);
      PositionalMod4(ks);
      SumsMod4(PositionalHash(hs[..last]), PositionalHash(ks[..last]),
               Occurrences(row[..last], x), hs[last], Rise(row[last], x));
      assert ks[last] == hs[last] + Rise(row[last], x);
      AddedMod4(PositionalHash(hs), Occurrences(row, x));
    }
  }

  lemma AddedMod4(h: int, n: int)
    ensures (h % 4 + n) % 4 == (h + n) % 4
  {
  }

  lemma WrapTellsMod4(p: int, h: int, k: int)
    requires h % 4 != k % 4
    ensures Wrap(p + h) != Wrap(p + k)
  {
    WrapMod4(p + h);
    WrapMod4(p + k);
  }

  lemma ParentRises(o: Operation, row: seq<nat>, x: nat, before: seq<Word>, raised: seq<Word>)
    requires RowInRange(row, |before|) && |raised| == |before| && !IsCommutative(o.op) && row != []
    requires forall j :: 0 <= j < |row| ==> raised[row[j]] == before[row[j]] + Rise(row[j], x)
    requires Occurrences(row, x) % 4 != 0
    ensures NodeHash(o, row, before) != NodeHash(o, row, raised)
  {
    var hs, ks := HashesOf(row, before), HashesOf(row, raised);
    PositionalRises(row, x, hs, ks);
    OccurrencesShow(PositionalHash(hs), PositionalHash(ks), Occurrences(row, x));
    WrapTellsMod4(HashOperationParams(o), PositionalHash(hs), PositionalHash(ks));
  }

  lemma OccurrencesShow(h: int, k: int, n: int)
    requires k % 4 == (h + n) % 4 && n % 4 != 0
    ensures h % 4 != k % 4
  {
  }

  /** The hashes along a good order do not depend on those there were before; all others stay. */
  lemma OnlyLateHashesDiffer(g: Graph, order: seq<nat>, before: seq<Word>, raised: seq<Word>, y: nat)
    requires WellFormed(g) && |before| == |raised| == |g.ops| && ReadFirst(g, order) && y < |g.ops|
    ensures RowInRange(order, |g.ops|)
    ensures y in order ==> FilledHashes(g, order, before)[y] == FilledHashes(g, order, raised)[y]
    ensures y !in order ==>
              FilledHashes(g, order, before)[y] == before[y] && FilledHashes(g, order, raised)[y] == raised[y]
  {
    if y in order {
      FilledHashesAreTreeHashes(g, order, before, y, Tree(g, y));
      FilledHashesAreTreeHashes(g, order, raised, y, Tree(g, y));
    } else {
      FilledUntouched(g, order, before, y);
      FilledUntouched(g, order, raised, y);
    }
  }

  function Zeroed(n: nat): (hashes: seq<Word>)
    ensures |hashes| == n && forall i :: 0 <= i < n ==> hashes[i] == 0
  {
    seq(n, _ => 0)
  }

  /** The first node hashed before a child it reads gets a hash that depends on what the child had before. */
  lemma LateChildShows(g: Graph, order: seq<nat>, i: nat, c: nat)
    requires WellFormed(g) && RowInRange(order, |g.ops|) && Distinct(order) && i < |order|
    requires ReadFirst(g, order[..i]) && !IsCommutative(g.ops[order[i]].op)
    requires c < |g.rows[order[i]]| && g.rows[order[i]][c] !in order[..i] && g.rows[order[i]][c] < |g.ops|
    requires Occurrences(g.rows[order[i]], g.rows[order[i]][c]) % 4 != 0
    ensures var x := g.rows[order[i]][c];
            FilledHashes(g, order, Zeroed(|g.ops|))[order[i]]
            != FilledHashes(g, order, Zeroed(|g.ops|)[x := 1])[order[i]]
  {
    var row, x := g.rows[order[i]], g.rows[order[i]][c];
    var zeroed := Zeroed(|g.ops|);
    var raised := zeroed[x := 1];
    FilledAt(g, order, zeroed, i);
    FilledAt(g, order, raised, i);
    var before, after := FilledHashes(g, order[..i], zeroed), FilledHashes(g, order[..i], raised);
    forall j | 0 <= j < |row|
      ensures after[row[j]] == before[row[j]] + Rise(row[j], x)
    {
      assert RowInRange(row, |g.ops|);
      OnlyLateHashesDiffer(g, order[..i], zeroed, raised, row[j]);
    }
    ParentRises(g.ops[order[i]], row, x, before, after);
  }

  lemma {:induction false} FirstUnread(g: Graph, order: seq<nat>) returns (i: nat)
    requires Closed(g) && RowInRange(order, |g.ops|) && !ReadFirst(g, order)
    ensures i < |order| && !ChildrenRead(g, order, i) && ReadFirst(g, order[..i])
    decreases |order|
  {
    var last := |order| - 1;
    var shorter := order[..last];
    if ReadFirst(g, shorter) {
      i := last;
      forall j | 0 <= j < last
        ensures ChildrenRead(g, order, j)
      {
        assert ChildrenRead(g, shorter, j);
        assert shorter[..j] == order[..j];
      }
    } else {
      i := FirstUnread(g, shorter);
      assert shorter[..i] == order[..i];
    }
  }

  /**
   No child that the hash of the node reads occurs a multiple of four times in its row.  Four equal
   contributions might cancel, as the factor of a positional hash is 1 modulo 4; binary operators are
   far from it.
   */
  ghost predicate FewRepeats(g: Graph, n: nat)
    requires Closed(g) && n < |g.ops|
  {
    !IsCommutative(g.ops[n].op) ==>
      forall c :: 0 <= c < |g.rows[n]| ==> Occurrences(g.rows[n], g.rows[n][c]) % 4 != 0
  }

  /** All nodes of the order get the hashes of their expressions, whatever the array held before. */
  ghost predicate HashesRight(g: Graph, order: seq<nat>)
    requires WellFormed(g) && RowInRange(order, |g.ops|)
  {
    forall hashes: seq<Word>, n: nat :: |hashes| == |g.ops| && n in order ==>
      FilledHashes(g, order, hashes)[n] == TreeHash(Tree(g, n))
  }

  /** The hashes along an order are right exactly when every node whose hash reads its children's comes after them. */
  lemma HashesRightExactly(g: Graph, order: seq<nat>)
    requires WellFormed(g) && RowInRange(order, |g.ops|) && Distinct(order)
    requires forall i :: 0 <= i < |order| ==> FewRepeats(g, order[i])
    ensures ReadFirst(g, order) <==> HashesRight(g, order)
  {
    if ReadFirst(g, order) {
      forall hashes: seq<Word>, n: nat | |hashes| == |g.ops| && n in order
        ensures FilledHashes(g, order, hashes)[n] == TreeHash(Tree(g, n))
      {
        FilledHashesAreTreeHashes(g, order, hashes, n, Tree(g, n));
      }
    } else {
      var i := FirstUnread(g, order);
      var n := order[i];
      assert RowInRange(g.rows[n], |g.ops|);
      assert FewRepeats(g, n);
      var c :| 0 <= c < |g.rows[n]| && g.rows[n][c] !in order[..i];
      LateChildShows(g, order, i, c);
      var zeroed := Zeroed(|g.ops|);
      var raised := zeroed[g.rows[n][c] := 1];
      assert FilledHashes(g, order, zeroed)[n] != TreeHash(Tree(g, n))
             || FilledHashes(g, order, raised)[n] != TreeHash(Tree(g, n));
    }
  }

  /**
   Hashing along what the visit returns, whichever way the library sort breaks ties, is right exactly
   when marks rise along every edge out of a node that is not commutative.
   */
  lemma VisitHashesRightExactly(g: Graph, marks: seq<int>)
    requires WellFormed(g) && RowsClosed(g.rows) && |marks| == |g.rows| && MarkedClosed(g.rows, marks)
    requires forall n: nat :: n < |g.ops| && marks[n] != 0 ==> FewRepeats(g, n)
    ensures ReadMarksRise(g, marks) <==>
            forall order :: IsVisitOrder(order, marks) ==> RowInRange(order, |g.ops|) && HashesRight(g, order)
  {
    VisitOrderIsReadFirstIff(g, marks);
    forall order | IsVisitOrder(order, marks)
      ensures RowInRange(order, |g.ops|) && (ReadFirst(g, order) <==> HashesRight(g, order))
    {
      assert forall i :: 0 <= i < |order| ==> marks[order[i]] != 0 && FewRepeats(g, order[i]);
      HashesRightExactly(g, order);
    }
  }

  /** A factor with an inverse modulo 2^64 can be undone; every odd one has such an inverse. */
  lemma FactorUndone(f: int, inverse: int, times: int, u: Word, v: Word, a: int)
    requires f * inverse == times * WORD + 1
    requires Wrap(u * f + a) == Wrap(v * f + a)
    ensures u == v
  {
    var d: int, q := u - v, (u * f + a) / WORD - (v * f + a) / WORD;
    assert d * f == q * WORD by {
      assert u * f - v * f == (u - v) * f;
    }
    InverseApplied(d, f, inverse, times, q);
    assert d == WORD * (q * inverse - d * times);
  }

  lemma InverseApplied(d: int, f: int, inverse: int, times: int, q: int)
    requires f * inverse == times * WORD + 1 && d * f == q * WORD
    ensures d == WORD * (q * inverse - d * times)
  {
    assert (d * f) * inverse == d * (f * inverse);
    assert d * (times * WORD + 1) == (d * times) * WORD + d;
    assert (q * WORD) * inverse == (q * inverse) * WORD;
  }

  lemma SummandUndone(params: Word, x: Word, y: Word)
    ensures Wrap(params + x) == Wrap(params + y) <==> x == y
  {
  }

  lemma PositionalOne(u: Word)
    ensures PositionalHash([u]) == Wrap((u + (CHILDREN_SEED + 82937)) * 4565)
  {
    assert [u][..0] == [];
  }

  /** So the hash of a single child tells its hash. */
  lemma SingleChildHash(params: Word, u: Word, v: Word)
    ensures Wrap(params + PositionalHash([u])) == Wrap(params + PositionalHash([v])) <==> u == v
  {
    PositionalOne(u);
    PositionalOne(v);
    SummandUndone(params, PositionalHash([u]), PositionalHash([v]));
    if PositionalHash([u]) == PositionalHash([v]) {
      FactorUndone(4565, 17654726146338889597, 4369, u, v, (CHILDREN_SEED + 82937) * 4565);
    }
  }

  lemma ParentsAgree(o: Operation, x: nat, before: seq<Word>, between: seq<Word>)
    requires !IsCommutative(o.op) && x < |before| && x < |between|
    ensures NodeHash(o, [x], before) == NodeHash(o, [x], between) <==> before[x] == between[x]
  {
    assert HashesOf([x], before) == [before[x]] && HashesOf([x], between) == [between[x]];
    SingleChildHash(HashOperationParams(o), before[x], between[x]);
  }

  lemma LeafHash(o: Operation, hashes: seq<Word>)
    ensures NodeHash(o, [], hashes) == HashOperationParams(o)
  {
  }

  lemma HashedLeaf(g: Graph, order: seq<nat>, hashes: seq<Word>, x: nat)
    requires Closed(g) && |hashes| == |g.ops| && RowInRange(order, |g.ops|) && Distinct(order)
    requires x in order && g.rows[x] == []
    ensures FilledHashes(g, order, hashes)[x] == HashOperationParams(g.ops[x])
  {
    var i :| 0 <= i < |order| && order[i] == x;
    FilledAt(g, order, hashes, i);
    LeafHash(g.ops[x], FilledHashes(g, order[..i], hashes));
  }

  /**
   Two nodes with equal records over the same childless node `x`, one hashed before `x` and one
   after: their hashes agree only if `x` had its hash from the start.
   */
  lemma HashedBeforeChild(g: Graph, order: seq<nat>, hashes: seq<Word>, early: nat, late: nat, x: nat)
    requires Closed(g) && |hashes| == |g.ops| && RowInRange(order, |g.ops|) && Distinct(order)
    requires early < late < |order| && x < |g.ops| && x in order[..late] && x !in order[..early]
    requires g.rows[order[early]] == g.rows[order[late]] == [x] && g.rows[x] == []
    requires g.ops[order[early]] == g.ops[order[late]] && !IsCommutative(g.ops[order[early]].op)
    ensures var after := FilledHashes(g, order, hashes);
            after[order[early]] == after[order[late]] <==> hashes[x] == HashOperationParams(g.ops[x])
  {
    FilledAt(g, order, hashes, early);
    FilledAt(g, order, hashes, late);
    var before, between := FilledHashes(g, order[..early], hashes), FilledHashes(g, order[..late], hashes);
    ParentsAgree(g.ops[order[early]], x, before, between);
    FilledUntouched(g, order[..early], hashes, x);
    HashedLeaf(g, order[..late], hashes, x);
  }

  /**
   NOT x AND NOT NOT NOT x over one column node x, as it is lowered: node 5 is the AND, nodes 1 and 2 are
   both NOT x.
   */
  const TWICE_NOT_X: seq<seq<nat>> := [[], [0], [0], [2], [3], [1, 4]]

  /** The marks of the walk from its root. */
  const TWICE_NOT_X_MARKS: seq<int> := [3, 2, 4, 3, 2, 1]

  lemma TwiceNotXSecond()
    ensures RowsClosed(TWICE_NOT_X)
    ensures Walk(TWICE_NOT_X, [3, 2, 0, 0, 0, 1], 4, 2) == [3, 2, 4, 3, 2, 1]
  {
    var m3, m4, m5, m6 := [3, 2, 0, 0, 0, 1], [3, 2, 0, 0, 2, 1], [3, 2, 0, 3, 2, 1], [3, 2, 4, 3, 2, 1];
    assert m5[2 := 4] == m6;
    WalkSingle(TWICE_NOT_X, m5, 2, 4, 0);
    assert m4[3 := 3] == m5;
    WalkSingle(TWICE_NOT_X, m4, 3, 3, 2);
    assert m3[4 := 2] == m4;
    WalkSingle(TWICE_NOT_X, m3, 4, 2, 3);
  }

  lemma TwiceNotXFirst()
    ensures RowsClosed(TWICE_NOT_X)
    ensures Walk(TWICE_NOT_X, [0, 0, 0, 0, 0, 1], 1, 2) == [3, 2, 0, 0, 0, 1]
  {
    var m1, m2, m3 := [0, 0, 0, 0, 0, 1], [0, 2, 0, 0, 0, 1], [3, 2, 0, 0, 0, 1];
    assert m2[0 := 3] == m3 && WalkChildren(TWICE_NOT_X, m3, [], 4) == m3;
    assert Walk(TWICE_NOT_X, m2, 0, 3) == m3;
    assert m1[1 := 2] == m2;
    WalkSingle(TWICE_NOT_X, m1, 1, 2, 0);
  }

  lemma TwiceNotXMarks()
    ensures RowsClosed(TWICE_NOT_X)
    ensures Walk(TWICE_NOT_X, [0, 0, 0, 0, 0, 0], 5, 1) == TWICE_NOT_X_MARKS
  {
    var m1, m3, m6 := [0, 0, 0, 0, 0, 1], [3, 2, 0, 0, 0, 1], [3, 2, 4, 3, 2, 1];
    TwiceNotXFirst();
    TwiceNotXSecond();
    assert [4][1..] == [] && [1, 4][1..] == [4];
    assert WalkChildren(TWICE_NOT_X, m6, [], 2) == m6;
    assert WalkChildren(TWICE_NOT_X, m3, [4], 2) == m6;
    assert WalkChildren(TWICE_NOT_X, m1, [1, 4], 2) == m6;
    assert [0, 0, 0, 0, 0, 0][5 := 1] == m1;
  }

  lemma TwiceNotXOrder(order: seq<nat>) returns (early: nat, late: nat)
    requires IsVisitOrder(order, TWICE_NOT_X_MARKS)
    ensures early < late < |order| && order[early] == 2 && order[late] == 1
    ensures 0 in order[..late] && 0 !in order[..early]
  {
    var marks := TWICE_NOT_X_MARKS;
    early := VisitedAt(order, marks, 2);
    late := VisitedAt(order, marks, 1);
    var middle := VisitedAt(order, marks, 0);
    assert early < middle < late;
    assert order[..late][middle] == 0;
  }

  lemma TwiceNotXExpressions(g: Graph, e: Expr)
    requires |g.ops| == 6 && g.rows == TWICE_NOT_X && g.ops[1] == g.ops[2]
    requires e == Node(g.ops[1], [Node(g.ops[0], [])])
    ensures Topological(g) && Closed(g) && Represents(g, 1, e) && Represents(g, 2, e)
  {
    assert Represents(g, 0, Node(g.ops[0], []));
  }

  /**
   In that graph nodes 1 and 2 stand for the same expression, and along every visit order of the walk
   from the root node 2 is hashed before x and node 1 after it: they get equal hashes only from an
   array in which x has its hash already.
   */
  lemma StaleHashesDiffer(g: Graph, order: seq<nat>, hashes: seq<Word>, e: Expr)
    requires |g.ops| == |hashes| == 6 && g.rows == TWICE_NOT_X
    requires g.ops[1] == g.ops[2] && g.ops[1].op.Not?
    requires IsVisitOrder(order, TWICE_NOT_X_MARKS)
    requires e == Node(g.ops[1], [Node(g.ops[0], [])])
    ensures Topological(g) && Represents(g, 1, e) && Represents(g, 2, e)
    ensures Closed(g) && RowInRange(order, 6)
    ensures FilledHashes(g, order, hashes)[1] == FilledHashes(g, order, hashes)[2]
            <==> hashes[0] == HashOperationParams(g.ops[0])
  {
    TwiceNotXExpressions(g, e);
    var early, late := TwiceNotXOrder(order);
    HashedBeforeChild(g, order, hashes, early, late, 0);
  }

  lemma ColumnHash(o: Operation)
    requires o == Operation(Column, 0, NODE_NONE, NODE_NONE, BoolType, Array)
    ensures HashOperationParams(o) == 8128369524272882583
  {
    assert Wrap(45643 * 5667 + 250) == 258659131;
    assert Wrap(258659131 * 5453) == 1410468241343;
    assert Wrap(1410468241343 * 4567 - 1) == 6441608458213480;
    assert Wrap(6441608458213480 * 6357 - 1) == 4055816821443989127;
    assert Wrap(4055816821443989127 * 8763) == 12693720349080307485;
  }

  /** Hashes of a few rows of children, in numbers. */
  lemma ChildrenHashes()
    ensures PositionalHash([]) == 583747 && SetHash(0) == 583747
    ensures PositionalHash([7]) == 3043444415 && PositionalHash([1, 2]) == 13893577335660
    ensures SetHash(1) == 918479204740 && SetHash(2) == 16905299081326166324
  {
    assert [7][..0] == [] && [1, 2][..1] == [1] && [1][..0] == [];
    assert PositionalHash([7]) == Wrap((583747 + 7 + 82937) * 4565);
    assert PositionalHash([1]) == Wrap((583747 + 1 + 82937) * 4565);
    assert PositionalHash([1, 2]) == Wrap((PositionalHash([1]) + 2 + 82937) * 4565);
    assert SetHash(1) == Wrap(583747 * Wrap(583747 + 989673));
    assert SetHash(2) == Wrap(918479204740 * Wrap(918479204740 + 989673));
  }

  // ---------------------------------------------------------------- every field of a record counts

  /** The operator of a code. */
  function OpOfCode(code: int): ColumnOp {
    if code < 50 then LowOp(code) else if code < 104 then MiddleOp(code) else HighOp(code)
  }

  function LowOp(code: int): ColumnOp {
    if code == 0 then Const else if code == 1 then Add else if code == 2 then Sub else if code == 3 then Mul
    else if code == 4 then Div else if code == 5 then Neg else if code == 6 then Inv else if code == 7 then Abs
    else if code == 8 then Sqrt else if code == 9 then Exp else if code == 10 then Pow
    else if code == 11 then Ln else if code == 12 then Log else if code == 30 then Not
    else if code == 31 then And else if code == 32 then Or else if code == 33 then Nand
    else if code == 34 then Nor else if code == 35 then Xor else if code == 36 then Xnor
    else Invalid
  }

  function MiddleOp(code: int): ColumnOp {
    if code == 50 then Eq else if code == 51 then Neq else if code == 52 then Gt else if code == 53 then Lt
    else if code == 54 then Gte else if code == 55 then Lte else if code == 56 then In
    else if code == 57 then NotIn else if code == 58 then Like else if code == 59 then NotLike
    else if code == 60 then ILike else if code == 61 then NotILike else if code == 62 then IsNull
    else if code == 63 then IsNotNull else if code == 90 then NullOp else if code == 91 then TrueOp
    else if code == 92 then FalseOp
    else Invalid
  }

  function HighOp(code: int): ColumnOp {
    if code == 104 then Min else if code == 105 then Max else if code == 106 then Sum
    else if code == 107 then Count else if code == 108 then CountDistinct else if code == 109 then Avg
    else if code == 110 then Median else if code == 111 then Std else if code == 112 then Var
    else if code == 250 then Column else if code == 251 then Desc else if code == 261 then Table
    else if code == 262 then Df else if code == 263 then Filter else if code == 264 then Range
    else if code == 265 then Group else if code == 266 then Sort else if code == 267 then Union
    else if code == 400 then Nop
    else Invalid
  }

  lemma LowCodeRead(op: ColumnOp)
    requires OpCode(op) < 50
    ensures LowOp(OpCode(op)) == op && 0 <= OpCode(op) <= 500
  {
  }

  lemma MiddleCodeRead(op: ColumnOp)
    requires 50 <= OpCode(op) < 104
    ensures MiddleOp(OpCode(op)) == op && 0 <= OpCode(op) <= 500
  {
  }

  lemma HighCodeRead(op: ColumnOp)
    requires OpCode(op) >= 104
    ensures HighOp(OpCode(op)) == op && 0 <= OpCode(op) <= 500
  {
  }

  lemma OpCodeRead(op: ColumnOp)
    ensures OpOfCode(OpCode(op)) == op && 0 <= OpCode(op) <= 500
  {
    if OpCode(op) < 50 {
      LowCodeRead(op);
    } else if OpCode(op) < 104 {
      MiddleCodeRead(op);
    } else {
      HighCodeRead(op);
    }
  }

  lemma OpCodesDiffer(a: ColumnOp, b: ColumnOp)
    ensures OpCode(a) == OpCode(b) <==> a == b
    ensures 0 <= OpCode(a) <= 500
  {
    OpCodeRead(a);
    OpCodeRead(b);
  }

  lemma TypeCodesDiffer(a: ValueType, b: ValueType)
    ensures TypeCode(a) == TypeCode(b) <==> a == b
    ensures 0 <= TypeCode(a) <= 14
  {
  }

  lemma SequenceCodesDiffer(a: SequenceType, b: SequenceType)
    ensures SequenceCode(a) == SequenceCode(b) <==> a == b
    ensures 0 <= SequenceCode(a) <= 2
  {
  }

  predicate In32(x: int) {
    -0x8000_0000 <= x <= 0x7FFF_FFFF
  }

  lemma SummandsDiffer(h: int, a: int, b: int)
    requires -WORD < a - b < WORD
    ensures Wrap(h + a) == Wrap(h + b) <==> a == b
  {
  }

  /** The hash after a field tells the one before and the field, if one of them is the same. */
  lemma FieldTold(f: int, inverse: int, times: int, h: Word, k: Word, a: int, b: int)
    requires f * inverse == times * WORD + 1 && -WORD < a - b < WORD && (h == k || a == b)
    ensures Wrap(h * f + a) == Wrap(k * f + b) <==> h == k && a == b
  {
    SummandsDiffer(h * f, a, b);
    if a == b && Wrap(h * f + a) == Wrap(k * f + b) {
      FactorUndone(f, inverse, times, h, k, a);
    }
  }

  function Differ(x: int, y: int): nat {
    if x == y then 0 else 1
  }

  predicate Near(x: int, y: int) {
    -WORD < x - y < WORD
  }

  /** The hash of the last fields of a record, after that of the others. */
  function HashFromSequence(h: Word, s: int): Word {
    Wrap(h * 5 + s)
  }

  function HashFromType(h: Word, t: int, s: int): Word {
    HashFromSequence(Wrap(h * 8763 + t), s)
  }

  function HashFromDf(h: Word, d: int, t: int, s: int): Word {
    HashFromType(Wrap(h * 6357 + d), t, s)
  }

  function HashFromConst(h: Word, c: int, d: int, t: int, s: int): Word {
    HashFromDf(Wrap(h * 4567 + c), d, t, s)
  }

  function HashFromName(h: Word, n: int, c: int, d: int, t: int, s: int): Word {
    HashFromConst(Wrap(h * 5453 + n), c, d, t, s)
  }

  lemma HashFromSequenceTells(h: Word, k: Word, s: int, s': int)
    requires Near(s, s')
    requires Differ(h, k) + Differ(s, s') <= 1
    ensures HashFromSequence(h, s) == HashFromSequence(k, s') <==> h == k && s == s'
  {
    FieldTold(5, 14757395258967641293, 4, h, k, s, s');
  }

  lemma HashFromTypeTells(h: Word, k: Word, t: int, t': int, s: int, s': int)
    requires Near(t, t') && Near(s, s')
    requires Differ(h, k) + Differ(t, t') + Differ(s, s') <= 1
    ensures HashFromType(h, t, s) == HashFromType(k, t', s') <==> h == k && t == t' && s == s'
  {
    FieldTold(8763, 13499825373125568243, 6413, h, k, t, t');
    HashFromSequenceTells(Wrap(h * 8763 + t), Wrap(k * 8763 + t'), s, s');
  }

  lemma HashFromDfTells(h: Word, k: Word, d: int, d': int, t: int, t': int, s: int, s': int)
    requires Near(d, d') && Near(t, t') && Near(s, s')
    requires Differ(h, k) + Differ(d, d') + Differ(t, t') + Differ(s, s') <= 1
    ensures HashFromDf(h, d, t, s) == HashFromDf(k, d', t', s') <==> h == k && d == d' && t == t' && s == s'
  {
    FieldTold(6357, 15666819451621499005, 5399, h, k, d, d');
    HashFromTypeTells(Wrap(h * 6357 + d), Wrap(k * 6357 + d'), t, t', s, s');
  }

  lemma HashFromConstTells(h: Word, k: Word, c: int, c': int, d: int, d': int, t: int, t': int, s: int, s': int)
    requires Near(c, c') && Near(d, d') && Near(t, t') && Near(s, s')
    requires Differ(h, k) + Differ(c, c') + Differ(d, d') + Differ(t, t') + Differ(s, s') <= 1
    ensures HashFromConst(h, c, d, t, s) == HashFromConst(k, c', d', t', s')
            <==> h == k && c == c' && d == d' && t == t' && s == s'
  {
    FieldTold(4567, 8667990536934683111, 2146, h, k, c, c');
    HashFromDfTells(Wrap(h * 4567 + c), Wrap(k * 4567 + c'), d, d', t, t', s, s');
  }

  lemma HashFromNameTells(h: Word, k: Word, n: int, n': int, c: int, c': int, d: int, d': int, t: int, t': int,
      s: int, s': int)
    requires Near(n, n') && Near(c, c') && Near(d, d') && Near(t, t') && Near(s, s')
    requires Differ(h, k) + Differ(n, n') + Differ(c, c') + Differ(d, d') + Differ(t, t') + Differ(s, s') <= 1
    ensures HashFromName(h, n, c, d, t, s) == HashFromName(k, n', c', d', t', s')
            <==> h == k && n == n' && c == c' && d == d' && t == t' && s == s'
  {
    FieldTold(5453, 13531446230485642117, 4000, h, k, n, n');
    HashFromConstTells(Wrap(h * 5453 + n), Wrap(k * 5453 + n'), c, c', d, d', t, t', s, s');
  }

  /** Records that differ in exactly one field have different hashes. */
  lemma OneFieldTells(o: Operation, p: Operation)
    requires In32(o.name) && In32(o.constId) && In32(o.df) && In32(p.name) && In32(p.constId) && In32(p.df)
    requires || p == o.(op := p.op) || p == o.(name := p.name) || p == o.(constId := p.constId)
             || p == o.(df := p.df) || p == o.(typ := p.typ) || p == o.(sequence := p.sequence)
    ensures HashOperationParams(o) == HashOperationParams(p) <==> o == p
  {
    OpCodesDiffer(o.op, p.op);
    TypeCodesDiffer(o.typ, p.typ);
    SequenceCodesDiffer(o.sequence, p.sequence);
    SummandsDiffer(45643 * 5667, OpCode(o.op), OpCode(p.op));
    HashFromNameTells(Wrap(45643 * 5667 + OpCode(o.op)), Wrap(45643 * 5667 + OpCode(p.op)), o.name, p.name,
                      o.constId, p.constId, o.df, p.df, TypeCode(o.typ), TypeCode(p.typ),
                      SequenceCode(o.sequence) * 3, SequenceCode(p.sequence) * 3);
    HashesFromName(o);
    HashesFromName(p);
  }

  lemma HashesFromName(o: Operation)
    ensures HashOperationParams(o)
            == HashFromName(Wrap(45643 * 5667 + OpCode(o.op)), o.name, o.constId, o.df, TypeCode(o.typ),
                            SequenceCode(o.sequence) * 3)
  {
  }

  /**
   With x a column, and hashes that are all zero before: nodes that stand for the same expression get
   different hashes.
   */
  lemma CleanHashesDiffer(g: Graph, order: seq<nat>)
    requires |g.ops| == 6 && g.rows == TWICE_NOT_X
    requires g.ops[0] == Operation(Column, 0, NODE_NONE, NODE_NONE, BoolType, Array)
    requires g.ops[1] == g.ops[2] && g.ops[1].op.Not?
    requires IsVisitOrder(order, TWICE_NOT_X_MARKS)
    ensures Closed(g) && RowInRange(order, 6)
    ensures FilledHashes(g, order, [0, 0, 0, 0, 0, 0])[1] != FilledHashes(g, order, [0, 0, 0, 0, 0, 0])[2]
  {
    StaleHashesDiffer(g, order, [0, 0, 0, 0, 0, 0], Node(g.ops[1], [Node(g.ops[0], [])]));
    ColumnHash(g.ops[0]);
  }
}
