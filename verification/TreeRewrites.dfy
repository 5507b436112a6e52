/** The rewrite rules seen on expression trees, and why each keeps the value of the expression. */
module TreeRewrites {
  import opened SqlValues
  import opened Operators
  import opened ExpressionGraph

  // ---------------------------------------------------------------- size

  function Size(e: Expr): nat
    decreases e
  {
    1 + SizeAll(e.args)
  }

  function SizeAll(es: seq<Expr>): nat
    decreases es
  {
    if es == [] then 0 else Size(es[0]) + SizeAll(es[1..])
  }

  lemma {:induction false} SizeAllConcat(xs: seq<Expr>, ys: seq<Expr>)
    ensures SizeAll(xs + ys) == SizeAll(xs) + SizeAll(ys)
  {
    if xs == [] {
      assert xs + ys == ys;
    } else {
      SizeAllConcat(xs[1..], ys);
      assert (xs + ys)[1..] == xs[1..] + ys;
    }
  }

  // ---------------------------------------------------------------- negation

  function NegateRoot(e: Expr): Expr {
    Node(e.op.(op := NegatedOperation(e.op.op)), e.args)
  }

  function NegateRoots(es: seq<Expr>): (ns: seq<Expr>)
    ensures |ns| == |es|
    ensures forall i :: 0 <= i < |es| ==> ns[i] == NegateRoot(es[i])
  {
    seq(|es|, i requires 0 <= i < |es| => NegateRoot(es[i]))
  }

  predicate AllNegatable(es: seq<Expr>) {
    forall i :: 0 <= i < |es| ==> Negatable(es[i].op.op)
  }

  lemma NegateRootNegates(e: Expr, m: Interp)
    requires Negatable(e.op.op)
    ensures Truth(Eval(NegateRoot(e), m)) == Not3(Eval(e, m))
    ensures Eval(NegateRoot(e), m) == Not3(Eval(e, m))
            <==> !NotOfNonTruth(e.op.op, EvalAll(e.args, m))
  {
    NegationNegates(e.op, EvalAll(e.args, m), m);
  }

  // ---------------------------------------------------------------- De Morgan

  function DeMorganOp(op: ColumnOp): ColumnOp {
    match op
    case And => Nor
    case Or => Nand
    case Nand => Or
    case Nor => And
    case _ => Invalid
  }

  function DeMorganTree(e: Expr): Expr {
    Node(e.op.(op := DeMorganOp(e.op.op)), NegateRoots(e.args))
  }

  lemma DeMorganApplied(o: Operation, vs: seq<Val>, ws: seq<Val>, m: Interp)
    requires !DeMorganOp(o.op).Invalid?
    requires AllOf(ws) == Not3(AnyOf(vs)) && AnyOf(ws) == Not3(AllOf(vs))
    ensures Apply(o.(op := DeMorganOp(o.op)), ws, m) == Apply(o, vs, m)
  {
    AllOfCases(vs);
    AnyOfTruth(vs);
  }

  /** De Morgan's rule keeps the value, for any number of operands. */
  lemma DeMorganKeepsValue(e: Expr, m: Interp)
    requires !DeMorganOp(e.op.op).Invalid? && AllNegatable(e.args)
    ensures Eval(DeMorganTree(e), m) == Eval(e, m)
  {
    var vs, ws := EvalAll(e.args, m), EvalAll(NegateRoots(e.args), m);
    forall i | 0 <= i < |vs|
      ensures Truth(ws[i]) == Not3(vs[i])
    {
      EvalAllAt(e.args, m, i);
      EvalAllAt(NegateRoots(e.args), m, i);
      NegateRootNegates(e.args[i], m);
    }
    DeMorgan(vs, ws);
    DeMorganApplied(e.op, vs, ws, m);
  }

  /** The rule can be applied to its own result exactly when no operand was a NOT; and then it undoes itself. */
  lemma DeMorganTwice(e: Expr)
    requires !DeMorganOp(e.op.op).Invalid? && AllNegatable(e.args)
    ensures !DeMorganOp(DeMorganTree(e).op.op).Invalid?
    ensures AllNegatable(DeMorganTree(e).args) <==> forall i :: 0 <= i < |e.args| ==> !e.args[i].op.op.Not?
    ensures AllNegatable(DeMorganTree(e).args) ==> DeMorganTree(DeMorganTree(e)) == e
  {
    var ns := NegateRoots(e.args);
    forall i | 0 <= i < |e.args|
      ensures Negatable(ns[i].op.op) <==> !e.args[i].op.op.Not?
      ensures !e.args[i].op.op.Not? ==> NegateRoot(ns[i]) == e.args[i]
    {
      NegationInvolutive(e.args[i].op.op);
    }
    if AllNegatable(ns) {
      assert NegateRoots(ns) == e.args;
    }
  }

  /** A concrete case: (NOT x) AND y becomes (NOP x) NOR (not y), and NOP has no opposite. */
  lemma DeMorganTwiceStopsAtNot(o: Operation, n: Operation, x: Expr, y: Expr)
    requires o.op.And? && n.op.Not? && Negatable(y.op.op)
    ensures var e := Node(o, [Node(n, [x]), y]);
            && AllNegatable(e.args)
            && DeMorganTree(e).args[0].op.op == Nop
            && !AllNegatable(DeMorganTree(e).args)
  {
    var e := Node(o, [Node(n, [x]), y]);
    assert DeMorganTree(e).args[0] == NegateRoot(e.args[0]);
  }

  // ---------------------------------------------------------------- flattening

  /** The operator whose operands may be spliced into an operand list of `op`. */
  function SplicedOp(op: ColumnOp): ColumnOp {
    match op
    case And => And
    case Or => Or
    case Xor => Xor
    case Nand => And
    case Nor => Or
    case Xnor => Xor
    case _ => Invalid
  }

  /** What flattening puts in the place of one operand. */
  function Head(op: ColumnOp, e: Expr): seq<Expr> {
    if e.op.op == op then e.args else [e]
  }

  function Splice(op: ColumnOp, es: seq<Expr>): seq<Expr> {
    if es == [] then [] else Head(op, es[0]) + Splice(op, es[1..])
  }

  function SpliceCount(op: ColumnOp, es: seq<Expr>): nat {
    if es == [] then 0 else (if es[0].op.op == op then 1 else 0) + SpliceCount(op, es[1..])
  }

  function MergeTree(op: ColumnOp, e: Expr): Expr {
    Node(e.op, Splice(op, e.args))
  }

  /** Flattening takes exactly one node away for every operand it splices. */
  lemma {:induction false} SpliceSize(op: ColumnOp, es: seq<Expr>)
    ensures SizeAll(Splice(op, es)) + SpliceCount(op, es) == SizeAll(es)
  {
    if es != [] {
      SpliceSize(op, es[1..]);
      HeadSize(op, es[0]);
      SizeAllConcat(Head(op, es[0]), Splice(op, es[1..]));
    }
  }

  lemma HeadSize(op: ColumnOp, e: Expr)
    ensures SizeAll(Head(op, e)) + (if e.op.op == op then 1 else 0) == Size(e)
  {
    assert [e][1..] == [];
    assert SizeAll([e]) == Size(e) + SizeAll([]);
  }

  lemma MergeShrinks(op: ColumnOp, e: Expr)
    ensures Size(MergeTree(op, e)) + SpliceCount(op, e.args) == Size(e)
  {
    SpliceSize(op, e.args);
  }

  /** The values of a flattened operand list. */
  lemma SpliceEval(op: ColumnOp, es: seq<Expr>, m: Interp)
    requires es != []
    ensures EvalAll(Splice(op, es), m)
            == (if es[0].op.op == op then EvalAll(es[0].args, m) else [Eval(es[0], m)])
               + EvalAll(Splice(op, es[1..]), m)
  {
    EvalAllConcat(Head(op, es[0]), Splice(op, es[1..]), m);
    assert [es[0]][1..] == [];
    assert EvalAll([es[0]], m) == [Eval(es[0], m)] + EvalAll([], m);
  }

  lemma {:induction false} SpliceAnd(es: seq<Expr>, m: Interp)
    ensures AllOf(EvalAll(Splice(And, es), m)) == AllOf(EvalAll(es, m))
  {
    if es != [] {
      var rest := EvalAll(Splice(And, es[1..]), m);
      SpliceAnd(es[1..], m);
      SpliceEval(And, es, m);
      if es[0].op.op.And? {
        AllOfConcat(EvalAll(es[0].args, m), rest);
      } else {
        assert ([Eval(es[0], m)] + rest)[1..] == rest;
      }
    }
  }

  lemma {:induction false} SpliceOr(es: seq<Expr>, m: Interp)
    ensures AnyOf(EvalAll(Splice(Or, es), m)) == AnyOf(EvalAll(es, m))
  {
    if es != [] {
      var rest := EvalAll(Splice(Or, es[1..]), m);
      SpliceOr(es[1..], m);
      SpliceEval(Or, es, m);
      if es[0].op.op.Or? {
        AnyOfConcat(EvalAll(es[0].args, m), rest);
      } else {
        assert ([Eval(es[0], m)] + rest)[1..] == rest;
      }
    }
  }

  lemma {:induction false} SpliceXor(es: seq<Expr>, m: Interp)
    ensures ParityOf(EvalAll(Splice(Xor, es), m)) == ParityOf(EvalAll(es, m))
  {
    if es != [] {
      var rest := EvalAll(Splice(Xor, es[1..]), m);
      SpliceXor(es[1..], m);
      SpliceEval(Xor, es, m);
      if es[0].op.op.Xor? {
        ParityOfConcat(EvalAll(es[0].args, m), rest);
      } else {
        assert ([Eval(es[0], m)] + rest)[1..] == rest;
      }
    }
  }

  lemma {:induction false} SpliceAdd(es: seq<Expr>, m: Interp)
    ensures SumOf(EvalAll(Splice(Add, es), m)) == SumOf(EvalAll(es, m))
  {
    if es != [] {
      var rest := EvalAll(Splice(Add, es[1..]), m);
      SpliceAdd(es[1..], m);
      SpliceEval(Add, es, m);
      if es[0].op.op.Add? {
        SumOfConcat(EvalAll(es[0].args, m), rest);
      } else {
        assert ([Eval(es[0], m)] + rest)[1..] == rest;
      }
    }
  }

  lemma {:induction false} SpliceMul(es: seq<Expr>, m: Interp)
    ensures ProductOf(EvalAll(Splice(Mul, es), m)) == ProductOf(EvalAll(es, m))
  {
    if es != [] {
      var rest := EvalAll(Splice(Mul, es[1..]), m);
      SpliceMul(es[1..], m);
      SpliceEval(Mul, es, m);
      if es[0].op.op.Mul? {
        ProductOfConcat(EvalAll(es[0].args, m), rest);
      } else {
        assert ([Eval(es[0], m)] + rest)[1..] == rest;
      }
    }
  }

  lemma SameJunction(o: Operation, vs: seq<Val>, ws: seq<Val>, m: Interp)
    requires match SplicedOp(o.op)
             case And => AllOf(vs) == AllOf(ws)
             case Or => AnyOf(vs) == AnyOf(ws)
             case Xor => ParityOf(vs) == ParityOf(ws)
             case _ => false
    ensures Apply(o, vs, m) == Apply(o, ws, m)
  {
  }

  /**
   Flattening a logical operator keeps the value: AND into AND and NAND, OR into OR and NOR, XOR into XOR
   and XNOR.
   */
  lemma MergeLogicKeepsValue(e: Expr, m: Interp)
    requires !SplicedOp(e.op.op).Invalid?
    ensures Eval(MergeTree(SplicedOp(e.op.op), e), m) == Eval(e, m)
  {
    match SplicedOp(e.op.op) {
      case And => SpliceAnd(e.args, m);
      case Or => SpliceOr(e.args, m);
      case Xor => SpliceXor(e.args, m);
    }
    SameJunction(e.op, EvalAll(Splice(SplicedOp(e.op.op), e.args), m), EvalAll(e.args, m), m);
  }

  /**
   What flattening does to an operand of the operator below the node's own, or of it: its operands take
   its place, and those of other operators stay.
   */
  lemma MergeLogicFlattens(o: Operation, i: Operation, before: seq<Expr>, inner: seq<Expr>, after: seq<Expr>)
    requires || ((o.op.And? || o.op.Nand?) && i.op.And?)
             || ((o.op.Or? || o.op.Nor?) && i.op.Or?)
             || ((o.op.Xor? || o.op.Xnor?) && i.op.Xor?)
    requires forall e :: e in before + after ==> e.op.op != i.op
    ensures MergeTree(SplicedOp(o.op), Node(o, before + [Node(i, inner)] + after)) == Node(o, before + inner + after)
  {
    assert SplicedOp(o.op) == i.op;
    SpliceBetween(i, before, inner, after);
  }

  lemma SpliceBetween(i: Operation, before: seq<Expr>, inner: seq<Expr>, after: seq<Expr>)
    requires forall e :: e in before + after ==> e.op.op != i.op
    ensures Splice(i.op, before + [Node(i, inner)] + after) == before + inner + after
  {
    var middle := [Node(i, inner)];
    SpliceConcat(i.op, before + middle, after);
    SpliceConcat(i.op, before, middle);
    assert Splice(i.op, before) == before by { SpliceNone(i.op, before); }
    assert Splice(i.op, after) == after by { SpliceNone(i.op, after); }
    assert Splice(i.op, middle) == inner by { SpliceOne(i, inner); }
  }

  lemma SpliceOne(i: Operation, inner: seq<Expr>)
    ensures Splice(i.op, [Node(i, inner)]) == inner
  {
    var middle := [Node(i, inner)];
    assert middle[1..] == [];
    assert Splice(i.op, middle) == Head(i.op, middle[0]) + Splice(i.op, []);
  }

  lemma {:induction false} SpliceConcat(op: ColumnOp, xs: seq<Expr>, ys: seq<Expr>)
    ensures Splice(op, xs + ys) == Splice(op, xs) + Splice(op, ys)
  {
    if xs == [] {
      assert xs + ys == ys;
    } else {
      SpliceConcat(op, xs[1..], ys);
      assert xs == [xs[0]] + xs[1..] && xs + ys == [xs[0]] + (xs[1..] + ys);
      SpliceCons(op, xs[0], xs[1..] + ys);
      SpliceCons(op, xs[0], xs[1..]);
      ExprsAssociate(Head(op, xs[0]), Splice(op, xs[1..]), Splice(op, ys));
    }
  }

  lemma ExprsAssociate(a: seq<Expr>, b: seq<Expr>, c: seq<Expr>)
    ensures a + (b + c) == (a + b) + c
  {
  }

  lemma SpliceCons(op: ColumnOp, x: Expr, xs: seq<Expr>)
    ensures Splice(op, [x] + xs) == Head(op, x) + Splice(op, xs)
  {
    assert ([x] + xs)[1..] == xs;
  }

  lemma {:induction false} SpliceNone(op: ColumnOp, es: seq<Expr>)
    requires forall e :: e in es ==> e.op.op != op
    ensures Splice(op, es) == es
  {
    if es != [] {
      SpliceNone(op, es[1..]);
      assert es[0] in es && es == [es[0]] + es[1..];
    }
  }

  lemma MergeNumericKeepsValue(e: Expr, m: Interp)
    requires e.op.op.Add? || e.op.op.Mul?
    ensures Eval(MergeTree(e.op.op, e), m) == Eval(e, m)
  {
    if e.op.op.Add? {
      SpliceAdd(e.args, m);
    } else {
      SpliceMul(e.args, m);
    }
  }

  // ---------------------------------------------------------------- flattening SUB and DIV

  /** Every operand with operator `op` has at least two operands, as lowering and merging leave it. */
  predicate TwoOrMore(op: ColumnOp, es: seq<Expr>) {
    forall i :: 0 <= i < |es| && es[i].op.op == op ==> |es[i].args| >= 2
  }

  lemma {:induction false} SpliceLength(op: ColumnOp, es: seq<Expr>)
    requires TwoOrMore(op, es)
    ensures |Splice(op, es)| >= |es| + SpliceCount(op, es)
    ensures SpliceCount(op, es) == 0 ==> Splice(op, es) == es
  {
    if es != [] {
      assert TwoOrMore(op, es[1..]);
      SpliceLength(op, es[1..]);
      assert es == [es[0]] + es[1..];
    }
  }

  /**
   The numeric merge has no guard on the operator.  On the four arithmetic operators it is right,
   whatever the open parts of the interpretation, exactly when the operator is ADD or MUL or no operand
   has the same operator.  The merged node has at least two operands again, so this covers every
   arithmetic node that lowering and merging make.
   */
  lemma MergeNumericExactly(e: Expr)
    requires IsArithmetic(e.op.op)
    requires |e.args| >= 2 && TwoOrMore(e.op.op, e.args)
    ensures |MergeTree(e.op.op, e).args| >= 2
    ensures (forall m :: Eval(MergeTree(e.op.op, e), m) == Eval(e, m))
            <==> e.op.op.Add? || e.op.op.Mul? || SpliceCount(e.op.op, e.args) == 0
  {
    SpliceLength(e.op.op, e.args);
    if e.op.op.Add? || e.op.op.Mul? {
      forall m: Interp
        ensures Eval(MergeTree(e.op.op, e), m) == Eval(e, m)
      {
        MergeNumericKeepsValue(e, m);
      }
    } else if SpliceCount(e.op.op, e.args) > 0 {
      var m := MergeDiffers(e);
    } else {
      assert MergeTree(e.op.op, e) == e;
    }
  }

  lemma MergeDiffers(e: Expr) returns (m: Interp)
    requires (e.op.op.Sub? || e.op.op.Div?) && 2 <= |e.args| < |Splice(e.op.op, e.args)|
    ensures Eval(MergeTree(e.op.op, e), m) != Eval(e, m)
  {
    m := COUNTING;
    CountingTells(e.op, EvalAll(e.args, m), EvalAll(Splice(e.op.op, e.args), m));
    assert Eval(MergeTree(e.op.op, e), m) == Apply(e.op, EvalAll(Splice(e.op.op, e.args), m), m);
  }

  lemma CountingTells(o: Operation, vs: seq<Val>, ws: seq<Val>)
    requires (o.op.Sub? || o.op.Div?) && 2 <= |vs| < |ws|
    ensures Apply(o, vs, COUNTING) != Apply(o, ws, COUNTING)
  {
    var s: seq<Byte>, t: seq<Byte> := seq(|vs|, _ => 0), seq(|ws|, _ => 0);
    assert |s| != |t|;
    assert Apply(o, ws, COUNTING) == Str(t);
  }

  /** A reading of SUB and DIV over many operands under which operand lists of different length differ. */
  const COUNTING: Interp :=
    Interp(Pools([], [], []), _ => Null, _ => Null, _ => Null, _ => Null, (op, vs) => Str(seq(|vs|, _ => 0)))

  /** `(a op b) op c` */
  function GroupedLeft(o: Operation, i: Operation, a: Expr, b: Expr, c: Expr): Expr {
    Node(o, [Node(i, [a, b]), c])
  }

  /** `a op (b op c)` */
  function GroupedRight(o: Operation, i: Operation, a: Expr, b: Expr, c: Expr): Expr {
    Node(o, [a, Node(i, [b, c])])
  }

  /** The merge forgets the grouping. */
  lemma MergeForgetsGrouping(op: ColumnOp, o: Operation, i: Operation, a: Expr, b: Expr, c: Expr)
    requires i.op == op && a.op.op != op && b.op.op != op && c.op.op != op
    ensures MergeTree(op, GroupedLeft(o, i, a, b, c)) == MergeTree(op, GroupedRight(o, i, a, b, c))
            == Node(o, [a, b, c])
  {
    SpliceTwo(op, Node(i, [a, b]), c);
    SpliceTwo(op, a, Node(i, [b, c]));
  }

  lemma SpliceTwo(op: ColumnOp, x: Expr, y: Expr)
    ensures Splice(op, [x, y]) == Head(op, x) + Head(op, y)
  {
    assert [x, y][1..] == [y] && [y][1..] == [];
    assert Splice(op, [y]) == Head(op, y) + Splice(op, []);
  }

  lemma EvalTwo(o: Operation, x: Expr, y: Expr, m: Interp)
    ensures Eval(Node(o, [x, y]), m) == Apply(o, [Eval(x, m), Eval(y, m)], m)
  {
    EvalAllAt([x, y], m, 0);
    EvalAllAt([x, y], m, 1);
    assert EvalAll([x, y], m) == [Eval(x, m), Eval(y, m)];
  }

  lemma RatioOfRatio(x: real, y: real, z: real)
    requires y != 0.0 && z != 0.0
    ensures y / z != 0.0 && x / (y / z) == x / y * z
  {
    var w, u := x / y, y / z;
    assert w * y == x && u * z == y;
    assert w * z * u == w * (u * z);
  }

  lemma SquareIsOne(w: real, z: real)
    requires w == w * (z * z) && w != 0.0
    ensures z == 1.0 || z == -1.0
  {
    assert w * (z * z - 1.0) == w * (z * z) - w;
    assert (z - 1.0) * (z + 1.0) == z * z - 1.0;
  }

  lemma ScaledBack(w: real, l: real, z: real)
    requires l * z == w && l == w * z
    ensures w == w * (z * z)
  {
    calc {
      w;
      l * z;
      (w * z) * z;
      { MulAssociative(w, z, z); }
      w * (z * z);
    }
  }

  lemma RatiosAgree(x: real, y: real, z: real)
    requires y != 0.0 && z != 0.0
    ensures y / z != 0.0 && (x / y / z == x / (y / z) <==> x == 0.0 || z == 1.0 || z == -1.0)
  {
    RatioOfRatio(x, y, z);
    var w := x / y;
    var l := w / z;
    assert l * z == w && w * y == x;
    if l == w * z {
      ScaledBack(w, l, z);
      if w != 0.0 {
        SquareIsOne(w, z);
      }
    }
  }

  /** What the two groupings of a subtraction or a division of numbers are, and when they agree. */
  lemma GroupingMatters(o: Operation, i: Operation, a: Expr, b: Expr, c: Expr, m: Interp)
    requires o.op == i.op && (o.op.Sub? || o.op.Div?)
    requires Eval(a, m).Num? && Eval(b, m).Num? && Eval(c, m).Num?
    requires o.op.Div? ==> Eval(b, m).n != 0.0 && Eval(c, m).n != 0.0
    ensures var x, y, z := Eval(a, m).n, Eval(b, m).n, Eval(c, m).n;
            var left, right := Eval(GroupedLeft(o, i, a, b, c), m), Eval(GroupedRight(o, i, a, b, c), m);
            && (o.op.Sub? ==> left == Num(x - y - z) && right == Num(x - (y - z)))
            && (o.op.Div? ==> left == Num(x / y / z) && y / z != 0.0 && right == Num(x / (y / z)))
            && (left == right <==> if o.op.Sub? then z == 0.0 else x == 0.0 || z == 1.0 || z == -1.0)
  {
    EvalTwo(i, a, b, m);
    EvalTwo(i, b, c, m);
    EvalTwo(o, Node(i, [a, b]), c, m);
    EvalTwo(o, a, Node(i, [b, c]), m);
    if o.op.Div? {
      RatiosAgree(Eval(a, m).n, Eval(b, m).n, Eval(c, m).n);
    }
  }

  /**
   No reading of SUB or DIV over three operands makes the merge right: the two groupings are merged to
   the same node, so one of them has its value changed, except where the two agree.
   */
  lemma NoReadingRepairsMerge(o: Operation, i: Operation, a: Expr, b: Expr, c: Expr, m: Interp)
    requires o.op == i.op && (o.op.Sub? || o.op.Div?)
    requires a.op.op != o.op && b.op.op != o.op && c.op.op != o.op
    requires Eval(a, m).Num? && Eval(b, m).Num? && Eval(c, m).Num?
    requires o.op.Div? ==> Eval(b, m).n != 0.0 && Eval(c, m).n != 0.0
    requires if o.op.Sub? then Eval(c, m).n != 0.0
             else Eval(a, m).n != 0.0 && Eval(c, m).n != 1.0 && Eval(c, m).n != -1.0
    ensures var left, right := GroupedLeft(o, i, a, b, c), GroupedRight(o, i, a, b, c);
            Eval(MergeTree(o.op, left), m) != Eval(left, m) || Eval(MergeTree(o.op, right), m) != Eval(right, m)
  {
    MergeForgetsGrouping(o.op, o, i, a, b, c);
    GroupingMatters(o, i, a, b, c, m);
  }

  /** A concrete case: (9 - 3) - 1 is 5 and 9 - (3 - 1) is 7, and both are merged to the same node. */
  lemma MergeBreaksSubtraction(o: Operation, a: Expr, b: Expr, c: Expr, m: Interp)
    requires o.op.Sub? && !a.op.op.Sub? && !b.op.op.Sub? && !c.op.op.Sub?
    requires Eval(a, m) == Num(9.0) && Eval(b, m) == Num(3.0) && Eval(c, m) == Num(1.0)
    ensures var left, right := GroupedLeft(o, o, a, b, c), GroupedRight(o, o, a, b, c);
            && Eval(left, m) == Num(5.0) && Eval(right, m) == Num(7.0)
            && MergeTree(Sub, left) == MergeTree(Sub, right)
  {
    MergeForgetsGrouping(Sub, o, o, a, b, c);
    GroupingMatters(o, o, a, b, c, m);
  }

  // ---------------------------------------------------------------- NOT and NOP

  predicate NotOrNop(e: Expr) {
    (e.op.op.Not? || e.op.op.Nop?) && |e.args| == 1
  }

  function ReduceTree(e: Expr): Expr
    requires NotOrNop(e)
  {
    if e.op.op.Nop? then e.args[0] else NegateRoot(e.args[0])
  }

  /** A double NOT over a number or a string: it has no value, while the operand has one. */
  predicate DoubleNotOfNonTruth(e: Expr, m: Interp) {
    e.op.op.Not? && |e.args| == 1 && NotOfNonTruth(e.args[0].op.op, EvalAll(e.args[0].args, m))
  }

  lemma ReduceShrinks(e: Expr)
    requires NotOrNop(e)
    ensures Size(ReduceTree(e)) < Size(e)
  {
    assert e.args[1..] == [];
    assert SizeAll(e.args) == Size(e.args[0]) + SizeAll([]);
  }

  /**
   Removing a NOT or a NOP keeps the value, except for a double NOT of a number or a string; and it
   always shrinks the tree.
   */
  lemma ReduceKeepsValueExactly(e: Expr, m: Interp)
    requires NotOrNop(e) && (e.op.op.Nop? || Negatable(e.args[0].op.op))
    ensures Eval(ReduceTree(e), m) == Eval(e, m) <==> !DoubleNotOfNonTruth(e, m)
    ensures DoubleNotOfNonTruth(e, m) ==> Eval(e, m).Fault?
    ensures Size(ReduceTree(e)) < Size(e)
  {
    ReduceShrinks(e);
    EvalAllAt(e.args, m, 0);
    if e.op.op.Not? {
      NegateRootNegates(e.args[0], m);
    }
  }

  /** A concrete case: NOT NOT 5 has no value, and is reduced to NOP 5, which is 5. */
  lemma ReduceGivesNumberAValue(n: Operation, c: Operation, m: Interp)
    requires n.op.Not? && c.op.Const? && c.typ.Int64?
    requires 0 <= c.constId < |m.pools.ints| && m.pools.ints[c.constId] == 5
    ensures var e := Node(n, [Node(n, [Node(c, [])])]);
            Eval(e, m) == Fault && Eval(ReduceTree(e), m) == Num(5.0)
  {
    var five := Node(c, []);
    var inner := Node(n, [five]);
    assert Eval(five, m) == Num(5.0);
    EvalAllAt([five], m, 0);
    EvalAllAt([inner], m, 0);
  }

  /** Operators that give a truth value, if they give a value at all. */
  predicate GivesTruth(op: ColumnOp) {
    Negatable(op) || op.TrueOp? || op.FalseOp?
  }

  lemma TruthOperators(o: Operation, vs: seq<Val>, m: Interp)
    requires GivesTruth(o.op)
    ensures Apply(o, vs, m) == Truth(Apply(o, vs, m))
  {
    if IsComparison(o.op) {
      ComparisonNegates(vs);
    } else if IsJunction(o.op) {
      AllOfCases(vs);
      AnyOfTruth(vs);
      ParityOfTruth(vs);
    }
  }

  /**
   Seen from the operators alone: the rule keeps the value wherever a double NOT stands over an operator
   that gives truth values.
   */
  lemma ReduceKeepsValueOfTruths(e: Expr, m: Interp)
    requires NotOrNop(e) && (e.op.op.Nop? || Negatable(e.args[0].op.op))
    requires e.op.op.Not? && e.args[0].op.op.Not? && |e.args[0].args| == 1 ==> GivesTruth(e.args[0].args[0].op.op)
    ensures Eval(ReduceTree(e), m) == Eval(e, m)
  {
    ReduceKeepsValueExactly(e, m);
    var inner := e.args[0];
    if e.op.op.Not? && inner.op.op.Not? && |inner.args| == 1 {
      EvalAllAt(inner.args, m, 0);
      TruthOperators(inner.args[0].op, EvalAll(inner.args[0].args, m), m);
    }
  }

  /** `k` NOTs over `e`, whatever else their records say. */
  predicate NotChain(k: nat, c: Expr, e: Expr)
    decreases k
  {
    if k == 0 then c == e
    else c.op.op.Not? && |c.args| == 1 && NotChain(k - 1, c.args[0], e)
  }

  /** A chain of NOTs has the value of the expression or of its negation, by the parity of the chain. */
  lemma {:induction false} NotChainValue(k: nat, c: Expr, e: Expr, m: Interp)
    requires k >= 1 && NotChain(k, c, e)
    ensures Eval(c, m) == if k % 2 == 0 then Truth(Eval(e, m)) else Not3(Eval(e, m))
    decreases k
  {
    EvalAllAt(c.args, m, 0);
    if k == 1 {
      assert NotChain(0, c.args[0], e);
    } else {
      NotChainValue(k - 1, c.args[0], e, m);
    }
  }
}
