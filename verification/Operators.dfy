/**
 The planner's operators, the record stored for each node, and what a node computes from the values
 of its children.
 */
module Operators {
  import opened SqlValues

  datatype ColumnOp =
    | Const | Add | Sub | Mul | Div | Neg | Inv | Abs | Sqrt | Exp | Pow | Ln | Log
    | Not | And | Or | Xor | Nand | Nor | Xnor
    | Eq | Neq | Gt | Lt | Gte | Lte
    | In | NotIn | Like | NotLike | ILike | NotILike | IsNull | IsNotNull
    | NullOp | TrueOp | FalseOp
    | Min | Max | Sum | Count | CountDistinct | Avg | Median | Std | Var
    | Column | Desc
    | Table | Df | Filter | Range | Group | Sort | Union
    | Nop | Invalid

  datatype ValueType =
    | BoolType | Int8 | UInt8 | Int16 | UInt16 | Int32 | UInt32 | Int64 | UInt64
    | Float32 | Float64 | String | Bytes | Any | Json

  datatype SequenceType = AnySequence | Single | Array

  const NODE_NONE: int := -1

  datatype Operation = Operation(
    op: ColumnOp, name: int, constId: int, df: int, typ: ValueType, sequence: SequenceType)

  function NegatedOperation(op: ColumnOp): ColumnOp {
    match op
    case Not => Nop
    case NullOp => NullOp
    case And => Nand
    case Or => Nor
    case Xor => Xnor
    case Nand => And
    case Nor => Or
    case Xnor => Xor
    case Gt => Lte
    case Lt => Gte
    case Gte => Lt
    case Lte => Gt
    case Eq => Neq
    case Neq => Eq
    case In => NotIn
    case NotIn => In
    case Like => NotLike
    case NotLike => Like
    case ILike => NotILike
    case NotILike => ILike
    case IsNull => IsNotNull
    case IsNotNull => IsNull
    case _ => Invalid
  }

  predicate Negatable(op: ColumnOp) {
    !NegatedOperation(op).Invalid?
  }

  /** The operators with an opposite, one by one. */
  predicate HasOpposite(op: ColumnOp) {
    || op.Not? || op.NullOp?
    || op.And? || op.Or? || op.Xor? || op.Nand? || op.Nor? || op.Xnor?
    || op.Eq? || op.Neq? || op.Gt? || op.Lt? || op.Gte? || op.Lte?
    || op.In? || op.NotIn? || op.Like? || op.NotLike? || op.ILike? || op.NotILike? || op.IsNull? || op.IsNotNull?
  }

  lemma NegatableExactly(op: ColumnOp)
    ensures Negatable(op) <==> HasOpposite(op)
  {
  }

  predicate IsCommutative(op: ColumnOp) {
    || op.And? || op.Nand? || op.Or? || op.Nor? || op.Xor? || op.Xnor?
    || op.Add? || op.Mul?
    || op.Min? || op.Max? || op.Avg? || op.Count? || op.CountDistinct? || op.Sum?
    || op.Median? || op.Var? || op.Std?
  }

  predicate IsArithmetic(op: ColumnOp) {
    op.Add? || op.Sub? || op.Mul? || op.Div?
  }

  // ---------------------------------------------------------------- meaning

  /** The constant tables of a query graph. */
  datatype Pools = Pools(ints: seq<int>, floats: seq<real>, strings: seq<seq<Byte>>)

  predicate PoolsExtend(p: Pools, q: Pools) {
    p.ints <= q.ints && p.floats <= q.floats && p.strings <= q.strings
  }

  /**
   What is left open by the planner: the constant tables, the value of each column, and the
   operators whose meaning the planner never looks at.  So is the meaning of SUB and DIV over other
   than two operands: no expression is lowered to them, but the numeric merge makes them.
   */
  datatype Interp = Interp(
    pools: Pools,
    column: int -> Val,
    like: seq<Val> -> Val,
    iLike: seq<Val> -> Val,
    isIn: seq<Val> -> Val,
    other: (ColumnOp, seq<Val>) -> Val)

  function ConstValue(o: Operation, p: Pools): Val {
    match o.typ
    case Int64 => if 0 <= o.constId < |p.ints| then Num(p.ints[o.constId] as real) else Fault
    case Float64 => if 0 <= o.constId < |p.floats| then Num(p.floats[o.constId]) else Fault
    case String => if 0 <= o.constId < |p.strings| then Str(p.strings[o.constId]) else Fault
    case _ => Fault
  }

  function Binary(f: (Val, Val) -> Val, vs: seq<Val>): Val {
    if |vs| == 2 then f(vs[0], vs[1]) else Fault
  }

  function Comparison(order: Order, vs: seq<Val>): Val {
    Binary((a, b) => Compare(order, a, b), vs)
  }

  /** The value of a node with record `o` whose children have the values `vs`, in order. */
  function Apply(o: Operation, vs: seq<Val>, m: Interp): Val {
    match o.op
    case Const => ConstValue(o, m.pools)
    case Column => m.column(o.name)
    case Add => SumOf(vs)
    case Mul => ProductOf(vs)
    case Sub => if |vs| == 2 then Sub2(vs[0], vs[1]) else m.other(Sub, vs)
    case Div => if |vs| == 2 then Div2(vs[0], vs[1]) else m.other(Div, vs)
    case Not => if |vs| == 1 then Not3(vs[0]) else Fault
    case Nop => if |vs| == 1 then vs[0] else Fault
    case And => AllOf(vs)
    case Or => AnyOf(vs)
    case Xor => ParityOf(vs)
    case Nand => Not3(AllOf(vs))
    case Nor => Not3(AnyOf(vs))
    case Xnor => Not3(ParityOf(vs))
    case Eq => Comparison(IsEq, vs)
    case Neq => Comparison(IsNeq, vs)
    case Gt => Comparison(IsGreater, vs)
    case Lt => Comparison(IsLess, vs)
    case Gte => Comparison(IsAtLeast, vs)
    case Lte => Comparison(IsAtMost, vs)
    case In => Truth(m.isIn(vs))
    case NotIn => Not3(m.isIn(vs))
    case Like => Truth(m.like(vs))
    case NotLike => Not3(m.like(vs))
    case ILike => Truth(m.iLike(vs))
    case NotILike => Not3(m.iLike(vs))
    case IsNull => if |vs| == 1 && !vs[0].Fault? then Bool(vs[0].Null?) else Fault
    case IsNotNull => if |vs| == 1 && !vs[0].Fault? then Bool(!vs[0].Null?) else Fault
    case NullOp => Null
    case TrueOp => Bool(true)
    case FalseOp => Bool(false)
    case _ => m.other(o.op, vs)
  }

  /** NOT over a single operand that is neither a truth value nor without a value. */
  predicate NotOfNonTruth(op: ColumnOp, vs: seq<Val>) {
    op.Not? && |vs| == 1 && (vs[0].Num? || vs[0].Str?)
  }

  lemma ComparisonNegates(vs: seq<Val>)
    ensures Comparison(IsNeq, vs) == Not3(Comparison(IsEq, vs)) == Truth(Comparison(IsNeq, vs))
    ensures Comparison(IsEq, vs) == Not3(Comparison(IsNeq, vs)) == Truth(Comparison(IsEq, vs))
    ensures Comparison(IsAtMost, vs) == Not3(Comparison(IsGreater, vs)) == Truth(Comparison(IsAtMost, vs))
    ensures Comparison(IsGreater, vs) == Not3(Comparison(IsAtMost, vs)) == Truth(Comparison(IsGreater, vs))
    ensures Comparison(IsAtLeast, vs) == Not3(Comparison(IsLess, vs)) == Truth(Comparison(IsAtLeast, vs))
    ensures Comparison(IsLess, vs) == Not3(Comparison(IsAtLeast, vs)) == Truth(Comparison(IsLess, vs))
  {
    if |vs| == 2 {
      CompareNegation(vs[0], vs[1]);
    }
  }

  predicate IsComparison(op: ColumnOp) {
    op.Eq? || op.Neq? || op.Gt? || op.Lt? || op.Gte? || op.Lte?
  }

  predicate IsJunction(op: ColumnOp) {
    op.And? || op.Or? || op.Xor? || op.Nand? || op.Nor? || op.Xnor?
  }

  lemma ComparisonOperatorNegates(o: Operation, vs: seq<Val>, m: Interp)
    requires IsComparison(o.op)
    ensures var n := Apply(o.(op := NegatedOperation(o.op)), vs, m);
            n == Not3(Apply(o, vs, m)) && Truth(n) == n
  {
    ComparisonNegates(vs);
  }

  lemma JunctionNegates(o: Operation, vs: seq<Val>, m: Interp)
    requires IsJunction(o.op)
    ensures var n := Apply(o.(op := NegatedOperation(o.op)), vs, m);
            n == Not3(Apply(o, vs, m)) && Truth(n) == n
  {
    AllOfCases(vs);
    AnyOfTruth(vs);
    ParityOfTruth(vs);
  }

  lemma OtherOperatorNegates(o: Operation, vs: seq<Val>, m: Interp)
    requires Negatable(o.op) && !IsComparison(o.op) && !IsJunction(o.op)
    ensures var n := Apply(o.(op := NegatedOperation(o.op)), vs, m);
            && (n == Not3(Apply(o, vs, m)) <==> !NotOfNonTruth(o.op, vs))
            && Truth(n) == Not3(Apply(o, vs, m))
  {
  }

  /**
   `NegatedOperation` negates: the opposite operator over the same operands has the negated value.
   The one exception is NOT over a number or a string, whose opposite, NOP, passes the operand on.
   */
  lemma NegationNegates(o: Operation, vs: seq<Val>, m: Interp)
    requires Negatable(o.op)
    ensures var n := Apply(o.(op := NegatedOperation(o.op)), vs, m);
            && (n == Not3(Apply(o, vs, m)) <==> !NotOfNonTruth(o.op, vs))
            && Truth(n) == Not3(Apply(o, vs, m))
  {
    if IsComparison(o.op) {
      ComparisonOperatorNegates(o, vs, m);
    } else if IsJunction(o.op) {
      JunctionNegates(o, vs, m);
    } else {
      OtherOperatorNegates(o, vs, m);
    }
  }

  /** Negating twice gives the operator back, except for NOT, which NOP leaves no way back from. */
  lemma NegationInvolutive(op: ColumnOp)
    requires Negatable(op)
    ensures Negatable(NegatedOperation(op)) <==> !op.Not?
    ensures !op.Not? ==> NegatedOperation(NegatedOperation(op)) == op
  {
  }
}
