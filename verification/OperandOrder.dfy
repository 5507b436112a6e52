/**
 Which operators may have their operands exchanged: those the planner calls commutative, and no others
 whose meaning depends on the order.
 */
module OperandOrder {
  import opened SqlValues
  import opened Operators
  import opened ExpressionGraph
  import opened NodeHashes

  // ---------------------------------------------------------------- folds that do not depend on the order

  lemma Regroup(a: seq<Val>, x: Val, b: seq<Val>)
    requires a != []
    ensures a + [x] + b == [a[0]] + (a[1..] + [x] + b) && a + b == [a[0]] + (a[1..] + b)
  {
    assert a == [a[0]] + a[1..];
  }

  lemma RegroupEmpty(x: Val, b: seq<Val>)
    ensures [] + [x] + b == [x] + b && [] + b == b
  {
  }

  lemma ConjunctionCons(x: Val, vs: seq<Val>)
    ensures AllOf([x] + vs) == And2(x, AllOf(vs))
  {
    assert ([x] + vs)[1..] == vs;
  }

  lemma {:induction false} ConjunctionMoves(a: seq<Val>, x: Val, b: seq<Val>)
    ensures AllOf(a + [x] + b) == And2(x, AllOf(a + b))
    decreases |a|
  {
    if a == [] {
      RegroupEmpty(x, b);
      ConjunctionCons(x, b);
    } else {
      var rest := a[1..];
      ConjunctionMoves(rest, x, b);
      Regroup(a, x, b);
      ConjunctionCons(a[0], rest + [x] + b);
      ConjunctionCons(a[0], rest + b);
      ConjunctionSwaps(a[0], x, AllOf(rest + b));
    }
  }

  lemma ConjunctionSwaps(x: Val, y: Val, z: Val)
    ensures And2(x, And2(y, z)) == And2(y, And2(x, z))
  {
  }

  lemma DisjunctionCons(x: Val, vs: seq<Val>)
    ensures AnyOf([x] + vs) == Or2(x, AnyOf(vs))
  {
    assert ([x] + vs)[1..] == vs;
  }

  lemma {:induction false} DisjunctionMoves(a: seq<Val>, x: Val, b: seq<Val>)
    ensures AnyOf(a + [x] + b) == Or2(x, AnyOf(a + b))
    decreases |a|
  {
    if a == [] {
      RegroupEmpty(x, b);
      DisjunctionCons(x, b);
    } else {
      var rest := a[1..];
      DisjunctionMoves(rest, x, b);
      Regroup(a, x, b);
      DisjunctionCons(a[0], rest + [x] + b);
      DisjunctionCons(a[0], rest + b);
      DisjunctionSwaps(a[0], x, AnyOf(rest + b));
    }
  }

  lemma DisjunctionSwaps(x: Val, y: Val, z: Val)
    ensures Or2(x, Or2(y, z)) == Or2(y, Or2(x, z))
  {
  }

  lemma ParityCons(x: Val, vs: seq<Val>)
    ensures ParityOf([x] + vs) == Xor2(x, ParityOf(vs))
  {
    assert ([x] + vs)[1..] == vs;
  }

  lemma {:induction false} ParityMoves(a: seq<Val>, x: Val, b: seq<Val>)
    ensures ParityOf(a + [x] + b) == Xor2(x, ParityOf(a + b))
    decreases |a|
  {
    if a == [] {
      RegroupEmpty(x, b);
      ParityCons(x, b);
    } else {
      var rest := a[1..];
      ParityMoves(rest, x, b);
      Regroup(a, x, b);
      ParityCons(a[0], rest + [x] + b);
      ParityCons(a[0], rest + b);
      ParitySwaps(a[0], x, ParityOf(rest + b));
    }
  }

  lemma ParitySwaps(x: Val, y: Val, z: Val)
    ensures Xor2(x, Xor2(y, z)) == Xor2(y, Xor2(x, z))
  {
  }

  lemma SumCons(x: Val, vs: seq<Val>)
    ensures SumOf([x] + vs) == Add2(x, SumOf(vs))
  {
    assert ([x] + vs)[1..] == vs;
  }

  lemma {:induction false} SumMoves(a: seq<Val>, x: Val, b: seq<Val>)
    ensures SumOf(a + [x] + b) == Add2(x, SumOf(a + b))
    decreases |a|
  {
    if a == [] {
      RegroupEmpty(x, b);
      SumCons(x, b);
    } else {
      var rest := a[1..];
      SumMoves(rest, x, b);
      Regroup(a, x, b);
      SumCons(a[0], rest + [x] + b);
      SumCons(a[0], rest + b);
      SumSwaps(a[0], x, SumOf(rest + b));
    }
  }

  lemma SumSwaps(x: Val, y: Val, z: Val)
    ensures Add2(x, Add2(y, z)) == Add2(y, Add2(x, z))
  {
  }

  lemma ProductCons(x: Val, vs: seq<Val>)
    ensures ProductOf([x] + vs) == Mul2(x, ProductOf(vs))
  {
    assert ([x] + vs)[1..] == vs;
  }

  lemma {:induction false} ProductMoves(a: seq<Val>, x: Val, b: seq<Val>)
    ensures ProductOf(a + [x] + b) == Mul2(x, ProductOf(a + b))
    decreases |a|
  {
    if a == [] {
      RegroupEmpty(x, b);
      ProductCons(x, b);
    } else {
      var rest := a[1..];
      ProductMoves(rest, x, b);
      Regroup(a, x, b);
      ProductCons(a[0], rest + [x] + b);
      ProductCons(a[0], rest + b);
      ProductSwaps(a[0], x, ProductOf(rest + b));
    }
  }

  lemma ProductSwaps(x: Val, y: Val, z: Val)
    ensures Mul2(x, Mul2(y, z)) == Mul2(y, Mul2(x, z))
  {
    Mul2Associative(x, y, z);
    Mul2Associative(y, x, z);
  }

  /** A fold from which any element can be taken out first depends on the elements only. */
  lemma {:induction false} Permuted(f: seq<Val> -> Val, g: (Val, Val) -> Val, vs: seq<Val>, ws: seq<Val>)
    requires forall a: seq<Val>, x: Val, b: seq<Val> :: f(a + [x] + b) == g(x, f(a + b))
    requires multiset(vs) == multiset(ws)
    ensures f(vs) == f(ws)
    decreases |vs|
  {
    if vs == [] {
      assert |ws| == |multiset(ws)| == |multiset(vs)|;
    } else {
      var i := TakenOut(vs, ws);
      Permuted(f, g, vs[1..], ws[..i] + ws[i + 1..]);
      MovedOut(f, g, vs, 0);
      MovedOut(f, g, ws, i);
    }
  }

  lemma MovedOut(f: seq<Val> -> Val, g: (Val, Val) -> Val, vs: seq<Val>, i: nat)
    requires forall a: seq<Val>, x: Val, b: seq<Val> :: f(a + [x] + b) == g(x, f(a + b))
    requires i < |vs|
    ensures f(vs) == g(vs[i], f(vs[..i] + vs[i + 1..]))
    ensures i == 0 ==> vs[..i] + vs[i + 1..] == vs[1..]
  {
    assert vs == vs[..i] + [vs[i]] + vs[i + 1..];
  }

  /** The first element of one list is somewhere in the other, and the rest is the rest. */
  lemma TakenOut(vs: seq<Val>, ws: seq<Val>) returns (i: nat)
    requires multiset(vs) == multiset(ws) && vs != []
    ensures i < |ws| && ws[i] == vs[0] && multiset(vs[1..]) == multiset(ws[..i] + ws[i + 1..])
  {
    assert vs == [vs[0]] + vs[1..];
    assert vs[0] in multiset(ws);
    i :| 0 <= i < |ws| && ws[i] == vs[0];
    assert ws == ws[..i] + [ws[i]] + ws[i + 1..];
    assert multiset(ws[..i] + ws[i + 1..]) == multiset(ws) - multiset{ws[i]};
    assert multiset(vs[1..]) == multiset(vs) - multiset{vs[0]};
  }

  lemma PermutedConjunction(vs: seq<Val>, ws: seq<Val>)
    requires multiset(vs) == multiset(ws)
    ensures AllOf(vs) == AllOf(ws)
  {
    forall a: seq<Val>, x: Val, b: seq<Val>
      ensures AllOf(a + [x] + b) == And2(x, AllOf(a + b))
    {
      ConjunctionMoves(a, x, b);
    }
    Permuted(AllOf, And2, vs, ws);
  }

  lemma PermutedDisjunction(vs: seq<Val>, ws: seq<Val>)
    requires multiset(vs) == multiset(ws)
    ensures AnyOf(vs) == AnyOf(ws)
  {
    forall a: seq<Val>, x: Val, b: seq<Val>
      ensures AnyOf(a + [x] + b) == Or2(x, AnyOf(a + b))
    {
      DisjunctionMoves(a, x, b);
    }
    Permuted(AnyOf, Or2, vs, ws);
  }

  lemma PermutedParity(vs: seq<Val>, ws: seq<Val>)
    requires multiset(vs) == multiset(ws)
    ensures ParityOf(vs) == ParityOf(ws)
  {
    forall a: seq<Val>, x: Val, b: seq<Val>
      ensures ParityOf(a + [x] + b) == Xor2(x, ParityOf(a + b))
    {
      ParityMoves(a, x, b);
    }
    Permuted(ParityOf, Xor2, vs, ws);
  }

  lemma PermutedSum(vs: seq<Val>, ws: seq<Val>)
    requires multiset(vs) == multiset(ws)
    ensures SumOf(vs) == SumOf(ws)
  {
    forall a: seq<Val>, x: Val, b: seq<Val>
      ensures SumOf(a + [x] + b) == Add2(x, SumOf(a + b))
    {
      SumMoves(a, x, b);
    }
    Permuted(SumOf, Add2, vs, ws);
  }

  lemma PermutedProduct(vs: seq<Val>, ws: seq<Val>)
    requires multiset(vs) == multiset(ws)
    ensures ProductOf(vs) == ProductOf(ws)
  {
    forall a: seq<Val>, x: Val, b: seq<Val>
      ensures ProductOf(a + [x] + b) == Mul2(x, ProductOf(a + b))
    {
      ProductMoves(a, x, b);
    }
    Permuted(ProductOf, Mul2, vs, ws);
  }

  // ---------------------------------------------------------------- the commutative operators

  predicate IsAggregate(op: ColumnOp) {
    || op.Min? || op.Max? || op.Avg? || op.Count? || op.CountDistinct? || op.Sum?
    || op.Median? || op.Var? || op.Std?
  }

  /** The planner's commutative operators: the logical ones, ADD, MUL and the aggregates. */
  lemma CommutativeExactly(op: ColumnOp)
    ensures IsCommutative(op) <==>
              || op.And? || op.Or? || op.Xor? || op.Nand? || op.Nor? || op.Xnor?
              || op.Add? || op.Mul?
              || IsAggregate(op)
  {
  }

  /** All of them but the aggregates, whose meaning is open, have the same value over operands in any order. */
  lemma CommutativeMeans(o: Operation, vs: seq<Val>, ws: seq<Val>, m: Interp)
    requires IsCommutative(o.op) && !IsAggregate(o.op) && multiset(vs) == multiset(ws)
    ensures Apply(o, vs, m) == Apply(o, ws, m)
  {
    match o.op
    case And => PermutedConjunction(vs, ws);
    case Nand => PermutedConjunction(vs, ws);
    case Or => PermutedDisjunction(vs, ws);
    case Nor => PermutedDisjunction(vs, ws);
    case Xor => PermutedParity(vs, ws);
    case Xnor => PermutedParity(vs, ws);
    case Add => PermutedSum(vs, ws);
    case Mul => PermutedProduct(vs, ws);
  }

  /** SUB, DIV and the comparisons by size are not among them: over 1 and 2 their value depends on the order. */
  lemma OrderMatters(o: Operation, m: Interp)
    requires o.op.Sub? || o.op.Div? || o.op.Lt? || o.op.Gt? || o.op.Lte? || o.op.Gte?
    ensures !IsCommutative(o.op)
    ensures multiset([Num(1.0), Num(2.0)]) == multiset([Num(2.0), Num(1.0)])
    ensures Apply(o, [Num(1.0), Num(2.0)], m) != Apply(o, [Num(2.0), Num(1.0)], m)
  {
  }

  // ---------------------------------------------------------------- what equal hashes are for

  lemma {:induction false} PermutedElements(xs: seq<Val>, ys: seq<Val>, p: seq<nat>)
    requires |xs| == |ys| == |p| && Permutation(p)
    requires forall i :: 0 <= i < |p| ==> xs[i] == ys[p[i]]
    ensures multiset(xs) == multiset(ys)
    decreases |p|
  {
    if p != [] {
      var last := |p| - 1;
      var j := p[last];
      var shorter := Squeezed(p);
      var rest := ys[..j] + ys[j + 1..];
      forall i | 0 <= i < last
        ensures xs[..last][i] == rest[shorter[i]]
      {
        assert p[i] != j;
      }
      PermutedElements(xs[..last], rest, shorter);
      assert xs == xs[..last] + [xs[last]];
      assert ys == ys[..j] + [ys[j]] + ys[j + 1..];
    }
  }

  /** A permutation without its last place, the values above the one that goes moved down. */
  lemma Squeezed(p: seq<nat>) returns (q: seq<nat>)
    requires Permutation(p) && p != []
    ensures |q| == |p| - 1 && Permutation(q)
    ensures forall i :: 0 <= i < |q| ==> q[i] == if p[i] < p[|p| - 1] then p[i] else p[i] - 1
  {
    var j := p[|p| - 1];
    assert forall i :: 0 <= i < |p| - 1 ==> p[i] != j;
    q := seq(|p| - 1, i requires 0 <= i < |p| - 1 => if p[i] < j then p[i] else p[i] - 1);
  }

  /** No commutative operator with an open meaning occurs in the expression. */
  predicate NoAggregates(e: Expr)
    decreases e
  {
    !IsAggregate(e.op.op) && forall i :: 0 <= i < |e.args| ==> NoAggregates(e.args[i])
  }

  /** Expressions that are equal up to the order of commutative operands have the same value. */
  lemma {:induction false} SameUpToOrderSameValue(d: Expr, e: Expr, m: Interp)
    requires SameUpToOrder(d, e) && NoAggregates(d)
    ensures Eval(d, m) == Eval(e, m)
    decreases d
  {
    var xs, ys := EvalAll(d.args, m), EvalAll(e.args, m);
    if IsCommutative(d.op.op) {
      var p: seq<nat> :| |p| == |d.args| && Permutation(p)
                         && forall i :: 0 <= i < |d.args| ==> SameUpToOrder(d.args[i], e.args[p[i]]);
      forall i | 0 <= i < |p|
        ensures xs[i] == ys[p[i]]
      {
        SameUpToOrderSameValue(d.args[i], e.args[p[i]], m);
        EvalAllAt(d.args, m, i);
        EvalAllAt(e.args, m, p[i]);
      }
      PermutedElements(xs, ys, p);
      CommutativeMeans(d.op, xs, ys, m);
    } else {
      forall i | 0 <= i < |d.args|
        ensures xs[i] == ys[i]
      {
        SameUpToOrderSameValue(d.args[i], e.args[i], m);
        EvalAllAt(d.args, m, i);
        EvalAllAt(e.args, m, i);
      }
      assert xs == ys;
    }
  }
}
