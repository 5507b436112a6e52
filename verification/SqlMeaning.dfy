/**
 What the meaning of SQL expressions comes to on plain numbers and truth values, token by token and
 without the operators of the planner.
 */
module SqlMeaning {
  import opened Outcomes
  import opened SqlValues
  import opened Operators
  import opened PlannerGraph
  import opened SqlLowering

  // ---------------------------------------------------------------- truth values

  const T: Val := Bool(true)
  const F: Val := Bool(false)
  const U: Val := Null

  /** The truth tables of section 8.12 of SQL-92, and that of exclusive or. */
  lemma TruthTables()
    ensures And2(T, T) == T && And2(T, F) == F && And2(T, U) == U
    ensures And2(F, T) == F && And2(F, F) == F && And2(F, U) == F
    ensures And2(U, T) == U && And2(U, F) == F && And2(U, U) == U
    ensures Or2(T, T) == T && Or2(T, F) == T && Or2(T, U) == T
    ensures Or2(F, T) == T && Or2(F, F) == F && Or2(F, U) == U
    ensures Or2(U, T) == T && Or2(U, F) == U && Or2(U, U) == U
    ensures Not3(T) == F && Not3(F) == T && Not3(U) == U
    ensures Xor2(T, T) == F && Xor2(T, F) == T && Xor2(F, T) == T && Xor2(F, F) == F
    ensures Xor2(T, U) == U && Xor2(U, T) == U && Xor2(F, U) == U && Xor2(U, F) == U && Xor2(U, U) == U
  {
  }

  /** The disjunction of any number of operands, said without a fold. */
  lemma {:induction false} AnyOfCases(vs: seq<Val>)
    ensures AnyOf(vs) ==
            if exists v :: v in vs && !IsTruth(v) then Fault
            else if T in vs then T
            else if U in vs then U
            else F
  {
    if vs != [] {
      AnyOfCases(vs[1..]);
      assert vs == [vs[0]] + vs[1..];
    }
  }

  function TrueCount(vs: seq<Val>): nat {
    if vs == [] then 0 else (if vs[0] == T then 1 else 0) + TrueCount(vs[1..])
  }

  /** The exclusive or of any number of operands: unknown if one is, else whether an odd number of them is true. */
  lemma {:induction false} ParityOfCases(vs: seq<Val>)
    ensures ParityOf(vs) ==
            if exists v :: v in vs && !IsTruth(v) then Fault
            else if U in vs then U
            else Bool(TrueCount(vs) % 2 == 1)
  {
    if vs != [] {
      ParityOfCases(vs[1..]);
      assert vs == [vs[0]] + vs[1..];
    }
  }

  lemma TruthsOnly(vs: seq<Val>)
    requires forall v :: v in vs ==> v.Bool?
    ensures AllOf(vs) == Bool(forall v :: v in vs ==> v.b)
    ensures AnyOf(vs) == Bool(exists v :: v in vs && v.b)
    ensures ParityOf(vs) == Bool(TrueCount(vs) % 2 == 1)
  {
    AllOfCases(vs);
    AnyOfCases(vs);
    ParityOfCases(vs);
    assert T in vs <==> exists v :: v in vs && v.b;
    assert F in vs <==> exists v :: v in vs && !v.b;
  }

  /** AND, OR and XOR of several expressions that are true or false. */
  lemma JunctionsMean(first: SqlExpr, args: seq<SqlExpr>, scope: Scope, m: Interp)
    requires args != []
    requires forall v :: v in [Meaning(first, scope, m)] + MeaningAll(args, scope, m) ==> v.Bool?
    ensures var vs := [Meaning(first, scope, m)] + MeaningAll(args, scope, m);
            && Meaning(AndExpr(first, args), scope, m) == Bool(forall v :: v in vs ==> v.b)
            && Meaning(OrExpr(first, args), scope, m) == Bool(exists v :: v in vs && v.b)
            && Meaning(XorExpr(first, args), scope, m) == Bool(TrueCount(vs) % 2 == 1)
  {
    TruthsOnly([Meaning(first, scope, m)] + MeaningAll(args, scope, m));
    JunctionValues(first, args, scope, m);
  }

  lemma JunctionValues(first: SqlExpr, args: seq<SqlExpr>, scope: Scope, m: Interp)
    requires args != []
    ensures var vs := [Meaning(first, scope, m)] + MeaningAll(args, scope, m);
            && Meaning(AndExpr(first, args), scope, m) == AllOf(vs)
            && Meaning(OrExpr(first, args), scope, m) == AnyOf(vs)
            && Meaning(XorExpr(first, args), scope, m) == ParityOf(vs)
  {
  }

  // ---------------------------------------------------------------- numbers

  /** The comparison tokens on numbers. */
  lemma TokensCompareNumbers(x: real, y: real)
    ensures CompareToken("=", Num(x), Num(y)) == CompareToken("==", Num(x), Num(y)) == Bool(x == y)
    ensures CompareToken("!=", Num(x), Num(y)) == CompareToken("<>", Num(x), Num(y)) == Bool(x != y)
    ensures CompareToken("<", Num(x), Num(y)) == Bool(x < y)
    ensures CompareToken(">", Num(x), Num(y)) == Bool(x > y)
    ensures CompareToken("<=", Num(x), Num(y)) == Bool(x <= y)
    ensures CompareToken(">=", Num(x), Num(y)) == Bool(x >= y)
  {
    TokensFound();
  }

  lemma TokensFound()
    ensures TokenOrder("=") == TokenOrder("==") == Done(IsEq) && TokenOrder("!=") == TokenOrder("<>") == Done(IsNeq)
    ensures TokenOrder("<") == Done(IsLess) && TokenOrder(">") == Done(IsGreater)
    ensures TokenOrder("<=") == Done(IsAtMost) && TokenOrder(">=") == Done(IsAtLeast)
  {
  }

  /** Texts compare byte by byte, a prefix before what it is a prefix of; false comes before true. */
  lemma OtherValuesCompare(a: seq<Byte>, b: Byte, c: Byte, s: seq<Byte>, t: seq<Byte>)
    requires b < c
    ensures Compare(IsLess, Str(a + [b] + s), Str(a + [c] + t)) == T
    ensures Compare(IsLess, Str(a), Str(a + [b] + s)) == T
    ensures Compare(IsLess, F, T) == T
  {
    LexFirstDifference(a, [b] + s, [c] + t);
    LexFirstDifference(a, [], [b] + s);
    assert a + [b] + s == a + ([b] + s) && a + [c] + t == a + ([c] + t) && a + [] == a;
  }

  lemma {:induction false} LexFirstDifference(a: seq<Byte>, s: seq<Byte>, t: seq<Byte>)
    ensures LexLess(a + s, a + t) <==> LexLess(s, t)
  {
    if a == [] {
      assert a + s == s && a + t == t;
    } else {
      LexFirstDifference(a[1..], s, t);
      assert (a + s)[1..] == a[1..] + s && (a + t)[1..] == a[1..] + t;
    }
  }

  /** Arithmetic on two numbers; dividing by zero gives no value. */
  lemma ArithmeticMeans(l: SqlExpr, r: SqlExpr, scope: Scope, m: Interp, x: real, y: real)
    requires Meaning(l, scope, m) == Num(x) && Meaning(r, scope, m) == Num(y)
    ensures Meaning(AddSub("+", l, r), scope, m) == Num(x + y)
    ensures Meaning(AddSub("-", l, r), scope, m) == Num(x - y)
    ensures Meaning(MulDiv("*", l, r), scope, m) == Num(x * y)
    ensures Meaning(MulDiv("/", l, r), scope, m) == if y == 0.0 then Fault else Num(x / y)
  {
  }

  lemma CompareNumbers(x: real, y: real)
    ensures Compare(IsAtMost, Num(x), Num(y)) == Bool(x <= y) && Compare(IsAtLeast, Num(x), Num(y)) == Bool(x >= y)
  {
  }

  /** BETWEEN and its negation, on numbers. */
  lemma BetweensMean(e: SqlExpr, lo: SqlExpr, hi: SqlExpr, scope: Scope, m: Interp, x: real, y: real, z: real)
    requires Meaning(e, scope, m) == Num(x) && Meaning(lo, scope, m) == Num(y) && Meaning(hi, scope, m) == Num(z)
    ensures Meaning(BetweenExpr(e, false, lo, hi), scope, m) == Bool(y <= x <= z)
    ensures Meaning(BetweenExpr(e, true, lo, hi), scope, m) == Bool(x < y || x > z)
  {
    MeaningOfBetween(BetweenExpr(e, false, lo, hi), scope, m);
    MeaningOfBetween(BetweenExpr(e, true, lo, hi), scope, m);
    CompareNumbers(x, y);
    CompareNumbers(x, z);
  }

  /** A comparison, and a chain of two. */
  lemma ChainsMean(a: SqlExpr, b: SqlExpr, c: SqlExpr, scope: Scope, m: Interp, x: real, y: real, z: real)
    requires Meaning(a, scope, m) == Num(x) && Meaning(b, scope, m) == Num(y) && Meaning(c, scope, m) == Num(z)
    ensures Meaning(ComparisonExpr(a, ["<"], [b]), scope, m) == Bool(x < y)
    ensures Meaning(ComparisonExpr(a, ["<", "<"], [b, c]), scope, m) == Bool(x < y < z)
  {
    LinkMeaning(a, "<", b, scope, m);
    TokensCompareNumbers(x, y);
    TokensCompareNumbers(y, z);
    TwoLinks(a, b, c, scope, m);
    MeaningOfChain(a, ["<", "<"], [b, c], scope, m);
    BothTrue(x < y, y < z);
  }

  lemma BothTrue(p: bool, q: bool)
    ensures AllOf([Bool(p), Bool(q)]) == Bool(p && q)
  {
    assert [Bool(p), Bool(q)][1..] == [Bool(q)];
    SingleMeaning(Bool(q));
  }

  lemma TwoLinks(a: SqlExpr, b: SqlExpr, c: SqlExpr, scope: Scope, m: Interp)
    ensures ChainMeaning(Meaning(a, scope, m), ["<", "<"], [b, c], scope, m)
            == [CompareToken("<", Meaning(a, scope, m), Meaning(b, scope, m)),
                CompareToken("<", Meaning(b, scope, m), Meaning(c, scope, m))]
  {
    assert ["<", "<"][1..] == ["<"] && [b, c][1..] == [c];
    ChainOfOne(Meaning(b, scope, m), "<", c, scope, m);
  }

  /** An unknown operand makes arithmetic and comparisons unknown. */
  lemma UnknownSpreads(op: string, x: Val)
    requires CmpToken(op) && (x.Null? || x.Num?)
    ensures CompareToken(op, U, x) == CompareToken(op, x, U) == U
    ensures Add2(U, x) == Add2(x, U) == U && Sub2(U, x) == Sub2(x, U) == U
    ensures Mul2(U, x) == Mul2(x, U) == U && Div2(U, x) == Div2(x, U) == U
  {
    CmpOpFound(op);
  }

  lemma LiteralsMean(i: int, x: real, scope: Scope, m: Interp)
    ensures Meaning(TrueLiteral, scope, m) == T && Meaning(FalseLiteral, scope, m) == F
    ensures Meaning(NullLiteral, scope, m) == U
    ensures Meaning(IntLiteral(i), scope, m) == Num(i as real) && Meaning(FloatLiteral(x), scope, m) == Num(x)
  {
  }

  // ---------------------------------------------------------------- tokens

  /** The tokens of the operator table that are no comparison, no LIKE and no arithmetic. */
  lemma LogicTokens()
    ensures OpMap("|") == OpMap("||") == OpMap("OR") == Done(Or)
    ensures OpMap("&") == OpMap("&&") == OpMap("AND") == Done(And)
    ensures OpMap("^") == OpMap("XOR") == Done(Xor)
    ensures OpMap("~") == OpMap("!") == OpMap("NOT") == Done(Not)
  {
  }

  lemma MembershipTokens()
    ensures OpMap("IN") == Done(In) && OpMap("NOTIN") == Done(NotIn)
    ensures OpMap("ISNULL") == Done(IsNull) && OpMap("ISNOTNULL") == Done(IsNotNull)
  {
  }

  lemma ConstantTokens()
    ensures OpMap("NULL") == Done(NullOp) && OpMap("TRUE") == Done(TrueOp) && OpMap("FALSE") == Done(FalseOp)
  {
  }

  /** LIKE and ILIKE however they are spelled; two words are one token. */
  lemma LikeSpellings(vs: seq<Val>, m: Interp)
    ensures LikeMeaning("LIKE", vs, m) == LikeMeaning("like", vs, m) == Truth(m.like(vs))
    ensures LikeMeaning("ILIKE", vs, m) == LikeMeaning("iLike", vs, m) == Truth(m.iLike(vs))
  {
    CleanIsNormalized("LIKE");
    CleanIsNormalized("ILIKE");
    NormalizeIgnoresCase("like", "LIKE");
    NormalizeIgnoresCase("iLike", "ILIKE");
  }

  lemma NotLikeSpellings(vs: seq<Val>, m: Interp)
    ensures LikeMeaning("NOT LIKE", vs, m) == Not3(m.like(vs))
    ensures LikeMeaning("NOT ILIKE", vs, m) == Not3(m.iLike(vs))
  {
    NotLikeNormalized();
    NotILikeNormalized();
    NotTokenValues(vs, m);
  }

  lemma NotTokenValues(vs: seq<Val>, m: Interp)
    ensures LikeTokenValue("NOTLIKE", vs, m) == Not3(m.like(vs))
    ensures LikeTokenValue("NOTILIKE", vs, m) == Not3(m.iLike(vs))
  {
  }

  /** A NOT before a clean word. */
  lemma NotWordNormalized(word: string)
    requires forall i :: 0 <= i < |word| ==> IsClean(word[i])
    ensures NormalizeOp("NOT" + " " + word) == "NOT" + word
  {
    NormalizeIgnoresSpaces("NOT", word);
    CleanIsNormalized("NOT" + word);
  }

  lemma NotLikeNormalized()
    ensures NormalizeOp("NOT LIKE") == "NOTLIKE"
  {
    NotWordNormalized("LIKE");
    assert "NOT" + " " + "LIKE" == "NOT LIKE" && "NOT" + "LIKE" == "NOTLIKE";
  }

  lemma NotILikeNormalized()
    ensures NormalizeOp("NOT ILIKE") == "NOTILIKE"
  {
    NotWordNormalized("ILIKE");
    assert "NOT" + " " + "ILIKE" == "NOT ILIKE" && "NOT" + "ILIKE" == "NOTILIKE";
  }

  // ---------------------------------------------------------------- ranges of literals

  lemma IntegerRange(known: set<string>, underflows: real -> bool)
    ensures Compiles(IntLiteral(9223372036854775807), known, underflows)
    ensures !Compiles(IntLiteral(9223372036854775808), known, underflows)
    ensures Compiles(IntLiteral(-9223372036854775808), known, underflows)
    ensures !Compiles(IntLiteral(-9223372036854775809), known, underflows)
  {
  }

  lemma {:induction false} PowersMultiply(a: nat, b: nat)
    ensures PowerOfTwo(a + b) == PowerOfTwo(a) * PowerOfTwo(b)
  {
    if a > 0 {
      PowersMultiply(a - 1, b);
      assert PowerOfTwo(a) == 2 * PowerOfTwo(a - 1) && PowerOfTwo(a + b) == 2 * PowerOfTwo(a + b - 1);
    }
  }

  lemma PowerDoubled(a: nat, b: nat, v: int)
    requires b == 2 * a && PowerOfTwo(a) == v
    ensures PowerOfTwo(b) == v * v
  {
    PowersMultiply(a, a);
  }

  const TWO_TO_256: int := 115792089237316195423570985008687907853269984665640564039457584007913129639936

  /** The range of doubles rests on these powers of two. */
  lemma LargestPower(e: nat)
    requires e == 1024
    ensures PowerOfTwo(e) == (TWO_TO_256 * TWO_TO_256) * (TWO_TO_256 * TWO_TO_256)
  {
    PowerOf256(e / 4);
    PowerDoubled(e / 4, e / 2, TWO_TO_256);
    PowerDoubled(e / 2, e, TWO_TO_256 * TWO_TO_256);
  }

  lemma PowerOf256(e: nat)
    requires e == 256
    ensures PowerOfTwo(e) == TWO_TO_256
  {
    assert PowerOfTwo(8) == 256;
    PowerDoubled(8, e / 16, 256);
    PowerDoubled(e / 16, e / 8, 65536);
    PowerDoubled(e / 8, e / 4, 4294967296);
    PowerDoubled(e / 4, e / 2, 18446744073709551616);
    PowerDoubled(e / 2, e, 340282366920938463463374607431768211456);
  }

  lemma SmallerPowers(e: nat)
    requires e == 1024
    ensures PowerOfTwo(e) == 18014398509481984 * PowerOfTwo(e - 54)
    ensures PowerOfTwo(e) == 4 * PowerOfTwo(e - 2)
  {
    PowerOf54(e - 970);
    PowersMultiply(e - 970, e - 54);
    assert PowerOfTwo(e) == 2 * PowerOfTwo(e - 1) && PowerOfTwo(e - 1) == 2 * PowerOfTwo(e - 2);
  }

  lemma PowerOf54(k: nat)
    requires k == 54
    ensures PowerOfTwo(k) == 18014398509481984
  {
    assert PowerOfTwo(9) == 512;
    PowerDoubled(9, k - 36, 512);
    PowersMultiply(18, 18);
    PowersMultiply(36, 18);
  }

  const TEN_TO_51: real := 1000000000000000000000000000000000000000000000000000.0

  function PowerOfTen306(): real {
    var x := TEN_TO_51 * TEN_TO_51;
    x * x * x
  }

  /** The largest power of two and 10^306, written out. */
  lemma RangeInNumbers()
    ensures 179.0 * PowerOfTen306() < FLOAT64_OVERFLOW < 180.0 * PowerOfTen306()
  {
    var e := FLOAT64_EXPONENT;
    LargestPower(e);
    SmallerPowers(e);
    var top, gap := PowerOfTwo(e), PowerOfTwo(e - 54);
    assert FLOAT64_OVERFLOW == (top - gap) as real;
    assert top == 18014398509481984 * gap;
    assert top as real == TWO_TO_256 as real * TWO_TO_256 as real * TWO_TO_256 as real * TWO_TO_256 as real;
  }

  lemma SmallestInNumbers()
    ensures 1.0 / (50.0 * PowerOfTen306()) < FLOAT64_MIN_NORMAL < 1.0 / (40.0 * PowerOfTen306())
  {
    var e := FLOAT64_EXPONENT;
    LargestPower(e);
    SmallerPowers(e);
    var quarter: real := PowerOfTwo(e - 2) as real;
    assert 4.0 * quarter == TWO_TO_256 as real * TWO_TO_256 as real * TWO_TO_256 as real * TWO_TO_256 as real;
    assert 40.0 * PowerOfTen306() < quarter < 50.0 * PowerOfTen306();
    ReciprocalsFall(40.0 * PowerOfTen306(), quarter);
    ReciprocalsFall(quarter, 50.0 * PowerOfTen306());
  }

  lemma ReciprocalsFall(x: real, y: real)
    requires 0.0 < x < y
    ensures 1.0 / y < 1.0 / x
  {
    var u, v := 1.0 / x, 1.0 / y;
    assert u * x == 1.0 && v * y == 1.0;
    assert v * (y - x) > 0.0;
    assert (u - v) * x > 0.0;
  }

  /** Float literals up to 1.79e308 compile and from 1.8e308 on do not; below 2e-308 the C library may refuse them. */
  lemma FloatRange(known: set<string>, underflows: real -> bool)
    ensures var large, tooLarge := 179.0 * PowerOfTen306(), 180.0 * PowerOfTen306();
            && Compiles(FloatLiteral(large), known, underflows) && Compiles(FloatLiteral(-large), known, underflows)
            && !Compiles(FloatLiteral(tooLarge), known, underflows)
            && !Compiles(FloatLiteral(-tooLarge), known, underflows)
    ensures var small, tooSmall := 1.0 / (40.0 * PowerOfTen306()), 1.0 / (50.0 * PowerOfTen306());
            && Compiles(FloatLiteral(small), known, underflows) && Compiles(FloatLiteral(0.0), known, underflows)
            && (Compiles(FloatLiteral(tooSmall), known, underflows) <==> !underflows(tooSmall))
  {
    RangeInNumbers();
    SmallestInNumbers();
  }
}
