/**
 SQL values, the three-valued logic of section 8.12 of SQL-92 (ISO/IEC 9075:1992), and the
 arithmetic and comparisons the planner's operators stand for.

 `Fault` is the value of an expression that has none: an operand of the wrong kind, a wrong number
 of operands, or a division by zero.  Every operator is strict in it.
 */
module SqlValues {

  type Byte = b: int | 0 <= b < 256

  datatype Val = Null | Bool(b: bool) | Num(n: real) | Str(s: seq<Byte>) | Fault

  // ---------------------------------------------------------------- truth values

  predicate IsTruth(v: Val) {
    v.Null? || v.Bool?
  }

  function Truth(v: Val): Val {
    if IsTruth(v) then v else Fault
  }

  function Not3(v: Val): Val {
    match v
    case Null => Null
    case Bool(b) => Bool(!b)
    case _ => Fault
  }

  function And2(a: Val, b: Val): Val {
    if !IsTruth(a) || !IsTruth(b) then Fault
    else if a == Bool(false) || b == Bool(false) then Bool(false)
    else if a.Null? || b.Null? then Null
    else Bool(true)
  }

  function Or2(a: Val, b: Val): Val {
    if !IsTruth(a) || !IsTruth(b) then Fault
    else if a == Bool(true) || b == Bool(true) then Bool(true)
    else if a.Null? || b.Null? then Null
    else Bool(false)
  }

  function Xor2(a: Val, b: Val): Val {
    if !IsTruth(a) || !IsTruth(b) then Fault
    else if a.Null? || b.Null? then Null
    else Bool(a.b != b.b)
  }

  function AllOf(vs: seq<Val>): Val {
    if vs == [] then Bool(true) else And2(vs[0], AllOf(vs[1..]))
  }

  function AnyOf(vs: seq<Val>): Val {
    if vs == [] then Bool(false) else Or2(vs[0], AnyOf(vs[1..]))
  }

  function ParityOf(vs: seq<Val>): Val {
    if vs == [] then Bool(false) else Xor2(vs[0], ParityOf(vs[1..]))
  }

  /** The conjunction of any number of operands, said without a fold. */
  lemma {:induction false} AllOfCases(vs: seq<Val>)
    ensures AllOf(vs) ==
            if exists v :: v in vs && !IsTruth(v) then Fault
            else if Bool(false) in vs then Bool(false)
            else if Null in vs then Null
            else Bool(true)
  {
    if vs != [] {
      AllOfCases(vs[1..]);
      assert vs == [vs[0]] + vs[1..];
    }
  }

  lemma {:induction false} AllOfConcat(xs: seq<Val>, ys: seq<Val>)
    ensures AllOf(xs + ys) == And2(AllOf(xs), AllOf(ys))
  {
    if xs == [] {
      assert xs + ys == ys;
      AllOfCases(ys);
    } else {
      AllOfConcat(xs[1..], ys);
      assert (xs + ys)[1..] == xs[1..] + ys;
    }
  }

  lemma {:induction false} AnyOfTruth(vs: seq<Val>)
    ensures IsTruth(AnyOf(vs)) || AnyOf(vs) == Fault
  {
    if vs != [] {
      AnyOfTruth(vs[1..]);
    }
  }

  lemma {:induction false} AnyOfConcat(xs: seq<Val>, ys: seq<Val>)
    ensures AnyOf(xs + ys) == Or2(AnyOf(xs), AnyOf(ys))
  {
    if xs == [] {
      assert xs + ys == ys;
      AnyOfTruth(ys);
    } else {
      AnyOfConcat(xs[1..], ys);
      assert (xs + ys)[1..] == xs[1..] + ys;
    }
  }

  lemma {:induction false} ParityOfTruth(vs: seq<Val>)
    ensures IsTruth(ParityOf(vs)) || ParityOf(vs) == Fault
  {
    if vs != [] {
      ParityOfTruth(vs[1..]);
    }
  }

  lemma {:induction false} ParityOfConcat(xs: seq<Val>, ys: seq<Val>)
    ensures ParityOf(xs + ys) == Xor2(ParityOf(xs), ParityOf(ys))
  {
    if xs == [] {
      assert xs + ys == ys;
      ParityOfTruth(ys);
    } else {
      ParityOfConcat(xs[1..], ys);
      assert (xs + ys)[1..] == xs[1..] + ys;
    }
  }

  /** De Morgan's laws for any number of three-valued operands; `ws` are the operands negated. */
  lemma {:induction false} DeMorgan(vs: seq<Val>, ws: seq<Val>)
    requires |vs| == |ws|
    requires forall i :: 0 <= i < |vs| ==> Truth(ws[i]) == Not3(vs[i])
    ensures AllOf(ws) == Not3(AnyOf(vs))
    ensures AnyOf(ws) == Not3(AllOf(vs))
  {
    if vs != [] {
      DeMorgan(vs[1..], ws[1..]);
      assert Truth(ws[0]) == Not3(vs[0]);
    }
  }

  // ---------------------------------------------------------------- arithmetic

  function Arith(a: Val, b: Val, r: Val): Val {
    if a.Fault? || b.Fault? then Fault
    else if (a.Null? || a.Num?) && (b.Null? || b.Num?) then
      if a.Null? || b.Null? then Null else r
    else Fault
  }

  function Add2(a: Val, b: Val): Val {
    Arith(a, b, if a.Num? && b.Num? then Num(a.n + b.n) else Fault)
  }

  function Sub2(a: Val, b: Val): Val {
    Arith(a, b, if a.Num? && b.Num? then Num(a.n - b.n) else Fault)
  }

  function Mul2(a: Val, b: Val): Val {
    Arith(a, b, if a.Num? && b.Num? then Num(a.n * b.n) else Fault)
  }

  function Div2(a: Val, b: Val): Val {
    Arith(a, b, if a.Num? && b.Num? && b.n != 0.0 then Num(a.n / b.n) else Fault)
  }

  function SumOf(vs: seq<Val>): Val {
    if vs == [] then Num(0.0) else Add2(vs[0], SumOf(vs[1..]))
  }

  function ProductOf(vs: seq<Val>): Val {
    if vs == [] then Num(1.0) else Mul2(vs[0], ProductOf(vs[1..]))
  }

  predicate IsNumeric(v: Val) {
    v.Null? || v.Num? || v.Fault?
  }

  lemma {:induction false} SumOfConcat(xs: seq<Val>, ys: seq<Val>)
    ensures IsNumeric(SumOf(ys))
    ensures SumOf(xs + ys) == Add2(SumOf(xs), SumOf(ys))
    decreases |xs| + |ys|
  {
    if ys != [] {
      SumOfConcat([], ys[1..]);
    }
    if xs == [] {
      assert xs + ys == ys;
    } else {
      SumOfConcat(xs[1..], ys);
      assert (xs + ys)[1..] == xs[1..] + ys;
    }
  }

  lemma MulAssociative(a: real, b: real, c: real)
    ensures a * (b * c) == (a * b) * c
  {
  }

  lemma Mul2Associative(a: Val, b: Val, c: Val)
    ensures Mul2(a, Mul2(b, c)) == Mul2(Mul2(a, b), c)
  {
    if a.Num? && b.Num? && c.Num? {
      MulAssociative(a.n, b.n, c.n);
    }
  }

  lemma Mul2One(a: Val)
    requires IsNumeric(a)
    ensures Mul2(Num(1.0), a) == a
  {
  }

  lemma {:induction false} ProductOfConcat(xs: seq<Val>, ys: seq<Val>)
    ensures IsNumeric(ProductOf(ys))
    ensures ProductOf(xs + ys) == Mul2(ProductOf(xs), ProductOf(ys))
    decreases |xs| + |ys|
  {
    if ys != [] {
      ProductOfConcat([], ys[1..]);
    }
    if xs == [] {
      assert xs + ys == ys;
      Mul2One(ProductOf(ys));
    } else {
      ProductOfConcat(xs[1..], ys);
      assert (xs + ys)[1..] == xs[1..] + ys;
      Mul2Associative(xs[0], ProductOf(xs[1..]), ProductOf(ys));
    }
  }

  // ---------------------------------------------------------------- comparisons

  /** Byte-wise lexicographic order. */
  predicate LexLess(s: seq<Byte>, t: seq<Byte>) {
    if t == [] then false
    else if s == [] then true
    else s[0] < t[0] || (s[0] == t[0] && LexLess(s[1..], t[1..]))
  }

  lemma {:induction false} LexTrichotomy(s: seq<Byte>, t: seq<Byte>)
    ensures LexLess(s, t) ==> !LexLess(t, s) && s != t
    ensures !LexLess(s, t) && !LexLess(t, s) ==> s == t
  {
    if s != [] && t != [] {
      LexTrichotomy(s[1..], t[1..]);
      assert s == [s[0]] + s[1..] && t == [t[0]] + t[1..];
    }
  }

  predicate Comparable(a: Val, b: Val) {
    || (a.Num? && b.Num?)
    || (a.Str? && b.Str?)
    || (a.Bool? && b.Bool?)
  }

  predicate Less(a: Val, b: Val)
    requires Comparable(a, b)
  {
    match a
    case Num(x) => x < b.n
    case Str(s) => LexLess(s, b.s)
    case Bool(x) => !x && b.b
  }

  datatype Order = IsEq | IsNeq | IsLess | IsGreater | IsAtMost | IsAtLeast

  function Compare(order: Order, a: Val, b: Val): Val {
    if a.Fault? || b.Fault? then Fault
    else if a.Null? || b.Null? then Null
    else if !Comparable(a, b) then Fault
    else
      match order
      case IsEq => Bool(a == b)
      case IsNeq => Bool(a != b)
      case IsLess => Bool(Less(a, b))
      case IsGreater => Bool(Less(b, a))
      case IsAtMost => Bool(Less(a, b) || a == b)
      case IsAtLeast => Bool(Less(b, a) || a == b)
  }

  lemma LessTrichotomy(a: Val, b: Val)
    requires Comparable(a, b)
    ensures Less(a, b) ==> !Less(b, a) && a != b
    ensures !Less(a, b) && !Less(b, a) ==> a == b
  {
    if a.Str? {
      LexTrichotomy(a.s, b.s);
    }
  }

  /** The order of values is total, so each comparison has the opposite one as its negation. */
  lemma CompareNegation(a: Val, b: Val)
    ensures Compare(IsNeq, a, b) == Not3(Compare(IsEq, a, b))
    ensures Compare(IsAtMost, a, b) == Not3(Compare(IsGreater, a, b))
    ensures Compare(IsAtLeast, a, b) == Not3(Compare(IsLess, a, b))
  {
    if Comparable(a, b) {
      LessTrichotomy(a, b);
    }
  }
}
