/**
 Lowering SQL expressions to the query graph.  `Meaning` is the value SQL gives an expression;
 `SqlVisitor` builds nodes for it, and the nodes are proved to denote that value.
 */
module SqlLowering {
  import opened Outcomes
  import opened SqlValues
  import opened Operators
  import opened ExpressionGraph
  import opened PlannerGraph
  import opened StringLiterals

  // ---------------------------------------------------------------- expressions, as parsed

  /** Operators are kept as the text of their token; a string literal as the bytes between its quotes. */
  datatype SqlExpr =
    | StringLiteral(raw: seq<Byte>)
    | IntLiteral(value: int)
    | FloatLiteral(number: real)
    | NullLiteral
    | TrueLiteral
    | FalseLiteral
    | ColumnRef(table: string, column: string)  // no table name is the empty string
    | Paren(inside: SqlExpr)
    | MulDiv(op: string, left: SqlExpr, right: SqlExpr)
    | AddSub(op: string, left: SqlExpr, right: SqlExpr)
    | NotExpr(op: string, arg: SqlExpr)
    | LikeExpr(op: string, left: SqlExpr, right: SqlExpr)
    | BetweenExpr(left: SqlExpr, negated: bool, lower: SqlExpr, upper: SqlExpr)
    | ComparisonExpr(left: SqlExpr, ops: seq<string>, rights: seq<SqlExpr>)
    | AndExpr(first: SqlExpr, args: seq<SqlExpr>)
    | XorExpr(first: SqlExpr, args: seq<SqlExpr>)
    | OrExpr(first: SqlExpr, args: seq<SqlExpr>)

  /** Operator text without spaces and in upper case. */
  function NormalizeOp(op: string): string {
    if op == [] then [] else NormalizeChar(op[0]) + NormalizeOp(op[1..])
  }

  function NormalizeChar(c: char): string {
    if c == ' ' then []
    else if 'a' <= c <= 'z' then [(c as int - 32) as char]
    else [c]
  }

  lemma {:induction false} NormalizeConcat(a: string, b: string)
    ensures NormalizeOp(a + b) == NormalizeOp(a) + NormalizeOp(b)
  {
    if a == [] {
      assert a + b == b;
    } else {
      NormalizeConcat(a[1..], b);
      NormalizeCons(a[0], a[1..] + b);
      NormalizeCons(a[0], a[1..]);
      assert a == [a[0]] + a[1..] && a + b == [a[0]] + (a[1..] + b);
      StringsAssociate(NormalizeChar(a[0]), NormalizeOp(a[1..]), NormalizeOp(b));
    }
  }

  lemma NormalizeCons(c: char, op: string)
    ensures NormalizeOp([c] + op) == NormalizeChar(c) + NormalizeOp(op)
  {
    assert ([c] + op)[1..] == op;
  }

  lemma StringsAssociate(a: string, b: string, c: string)
    ensures a + (b + c) == (a + b) + c
  {
  }

  /** The same letter, in either case. */
  predicate SameLetter(c: char, d: char) {
    || c == d
    || ('a' <= c <= 'z' && d as int == c as int - 32)
    || ('a' <= d <= 'z' && c as int == d as int - 32)
  }

  predicate IsClean(c: char) {
    c != ' ' && !('a' <= c <= 'z')
  }

  /** Operator text is read without spaces and in upper case. */
  lemma {:induction false} NormalizedIsClean(op: string)
    ensures forall i :: 0 <= i < |NormalizeOp(op)| ==> IsClean(NormalizeOp(op)[i])
  {
    if op != [] {
      NormalizedIsClean(op[1..]);
    }
  }

  /** Text without spaces and lower-case letters stays as it is. */
  lemma {:induction false} CleanIsNormalized(op: string)
    requires forall i :: 0 <= i < |op| ==> IsClean(op[i])
    ensures NormalizeOp(op) == op
  {
    if op != [] {
      CleanIsNormalized(op[1..]);
      assert IsClean(op[0]) && op == [op[0]] + op[1..];
    }
  }

  lemma {:induction false} NormalizeIgnoresCase(a: string, b: string)
    requires |a| == |b| && forall i :: 0 <= i < |a| ==> SameLetter(a[i], b[i])
    ensures NormalizeOp(a) == NormalizeOp(b)
  {
    if a != [] {
      NormalizeIgnoresCase(a[1..], b[1..]);
      assert SameLetter(a[0], b[0]);
    }
  }

  lemma NormalizeIgnoresSpaces(a: string, b: string)
    ensures NormalizeOp(a + " " + b) == NormalizeOp(a + b)
  {
    NormalizeConcat(a, b);
    NormalizeConcat(a + " ", b);
    TrailingSpace(a);
  }

  lemma TrailingSpace(a: string)
    ensures NormalizeOp(a + " ") == NormalizeOp(a)
  {
    NormalizeConcat(a, " ");
    NormalizeCons(' ', "");
    assert [' '] + "" == " ";
  }

  predicate LikeToken(op: string) {
    var token := NormalizeOp(op);
    token == "LIKE" || token == "NOTLIKE" || token == "ILIKE" || token == "NOTILIKE"
  }

  predicate NotToken(op: string) {
    var token := NormalizeOp(op);
    token == "NOT" || token == "~" || token == "!"
  }

  predicate CmpToken(op: string) {
    || op == "=" || op == "==" || op == "!=" || op == "<>"
    || op == "<" || op == ">" || op == "<=" || op == ">="
  }

  predicate CmpTokens(ops: seq<string>) {
    forall i :: 0 <= i < |ops| ==> CmpToken(ops[i])
  }

  /** What the grammar guarantees of a parsed expression. */
  predicate Parsed(e: SqlExpr) {
    match e
    case Paren(x) => Parsed(x)
    case MulDiv(op, l, r) => (op == "*" || op == "/") && Parsed(l) && Parsed(r)
    case AddSub(op, l, r) => (op == "+" || op == "-") && Parsed(l) && Parsed(r)
    case NotExpr(op, x) => NotToken(op) && Parsed(x)
    case LikeExpr(op, l, r) => LikeToken(op) && Parsed(l) && Parsed(r)
    case BetweenExpr(x, _, lo, hi) => Parsed(x) && Parsed(lo) && Parsed(hi)
    case ComparisonExpr(l, ops, rs) =>
      && Parsed(l) && |ops| == |rs| >= 1
      && CmpTokens(ops)
      && (forall i :: 0 <= i < |rs| ==> Parsed(rs[i]))
    case AndExpr(x, xs) => Parsed(x) && forall i :: 0 <= i < |xs| ==> Parsed(xs[i])
    case XorExpr(x, xs) => Parsed(x) && forall i :: 0 <= i < |xs| ==> Parsed(xs[i])
    case OrExpr(x, xs) => Parsed(x) && forall i :: 0 <= i < |xs| ==> Parsed(xs[i])
    case _ => true
  }

  function QualifiedName(table: string, column: string): string {
    if table != "" then table + "." + column else column
  }

  /** A key is a table and a column with a dot between them. */
  predicate SplitsAs(key: string, table: string, column: string) {
    && |key| == |table| + 1 + |column|
    && key[..|table|] == table && key[|table|] == '.' && key[|table| + 1..] == column
  }

  lemma QualifiedSplits(key: string, table: string, column: string)
    requires table != ""
    ensures QualifiedName(table, column) == key <==> SplitsAs(key, table, column)
  {
    if SplitsAs(key, table, column) {
      assert key == key[..|table|] + [key[|table|]] + key[|table| + 1..];
    }
  }

  /** Two references are looked up under the same name only if they name the same table and the same column. */
  lemma NamesAgree(table: string, column: string, table': string, column': string)
    requires '.' !in table && '.' !in column && '.' !in table' && '.' !in column'
    ensures QualifiedName("", column) == column
    ensures QualifiedName(table, column) == QualifiedName(table', column') <==> table == table' && column == column'
  {
    DotIffTable(table, column);
    DotIffTable(table', column');
    if QualifiedName(table, column) == QualifiedName(table', column') && table != "" {
      FirstDot(QualifiedName(table, column), table, column, table', column');
    }
  }

  lemma DotIffTable(table: string, column: string)
    requires '.' !in column
    ensures '.' in QualifiedName(table, column) <==> table != ""
  {
    if table != "" {
      assert QualifiedName(table, column)[|table|] == '.';
    }
  }

  lemma DotPlace(name: string, table: string, column: string)
    requires '.' !in table && name == table + "." + column
    ensures |table| < |name| && name[|table|] == '.' && forall i :: 0 <= i < |table| ==> name[i] != '.'
  {
    assert forall i :: 0 <= i < |table| ==> name[i] == table[i] && table[i] in table;
  }

  lemma FirstDot(name: string, table: string, column: string, table': string, column': string)
    requires '.' !in table && '.' !in table'
    requires name == table + "." + column == table' + "." + column'
    ensures table == table' && column == column'
  {
    DotPlace(name, table, column);
    DotPlace(name, table', column');
    assert name[..|table|] == table && name[..|table'|] == table';
    assert name[|table| + 1..] == column && name[|table'| + 1..] == column';
  }

  const INT64_MIN: int := -0x8000_0000_0000_0000
  const INT64_MAX: int := 0x7FFF_FFFF_FFFF_FFFF

  function PowerOfTwo(k: nat): (p: nat)
    ensures p >= 1
  {
    if k == 0 then 1 else 2 * PowerOfTwo(k - 1)
  }

  const FLOAT64_EXPONENT: nat := 1024

  /** Halfway between the largest double and the next power of two: from here on a number rounds to infinity. */
  const FLOAT64_OVERFLOW: real := (PowerOfTwo(FLOAT64_EXPONENT) - PowerOfTwo(FLOAT64_EXPONENT - 54)) as real
  const FLOAT64_MIN_NORMAL: real := 1.0 / (PowerOfTwo(FLOAT64_EXPONENT - 2) as real)

  /**
   Whether `std::stod` accepts a number.  It refuses every number that overflows.  Which of the numbers
   too small for a normal double it refuses is up to the C library (section 7.22.1.3 of
   ISO/IEC 9899:2011), and is a parameter; zero is never refused.
   */
  predicate FloatFits(x: real, underflows: real -> bool) {
    && -FLOAT64_OVERFLOW < x < FLOAT64_OVERFLOW
    && !(x != 0.0 && -FLOAT64_MIN_NORMAL < x < FLOAT64_MIN_NORMAL && underflows(x))
  }

  /** Whether an expression compiles: its columns are known and its numbers fit 64 bits. */
  predicate Compiles(e: SqlExpr, known: set<string>, underflows: real -> bool) {
    match e
    case IntLiteral(value) => INT64_MIN <= value <= INT64_MAX
    case FloatLiteral(number) => FloatFits(number, underflows)
    case ColumnRef(table, column) => QualifiedName(table, column) in known
    case Paren(x) => Compiles(x, known, underflows)
    case MulDiv(_, l, r) => Compiles(l, known, underflows) && Compiles(r, known, underflows)
    case AddSub(_, l, r) => Compiles(l, known, underflows) && Compiles(r, known, underflows)
    case NotExpr(_, x) => Compiles(x, known, underflows)
    case LikeExpr(_, l, r) => Compiles(l, known, underflows) && Compiles(r, known, underflows)
    case BetweenExpr(x, _, lo, hi) =>
      Compiles(x, known, underflows) && Compiles(lo, known, underflows) && Compiles(hi, known, underflows)
    case ComparisonExpr(l, _, rs) =>
      Compiles(l, known, underflows) && forall i :: 0 <= i < |rs| ==> Compiles(rs[i], known, underflows)
    case AndExpr(x, xs) =>
      Compiles(x, known, underflows) && forall i :: 0 <= i < |xs| ==> Compiles(xs[i], known, underflows)
    case XorExpr(x, xs) =>
      Compiles(x, known, underflows) && forall i :: 0 <= i < |xs| ==> Compiles(xs[i], known, underflows)
    case OrExpr(x, xs) =>
      Compiles(x, known, underflows) && forall i :: 0 <= i < |xs| ==> Compiles(xs[i], known, underflows)
    case _ => true
  }

  predicate CompileAll(es: seq<SqlExpr>, known: set<string>, underflows: real -> bool) {
    forall i :: 0 <= i < |es| ==> Compiles(es[i], known, underflows)
  }

  lemma CompileAllSnoc(es: seq<SqlExpr>, i: nat, known: set<string>, underflows: real -> bool)
    requires i < |es|
    ensures CompileAll(es[..i + 1], known, underflows)
            <==> CompileAll(es[..i], known, underflows) && Compiles(es[i], known, underflows)
    ensures CompileAll(es, known, underflows) ==> Compiles(es[i], known, underflows)
  {
    assert es[..i + 1] == es[..i] + [es[i]];
  }

  // ---------------------------------------------------------------- what an expression means in SQL

  type Scope = map<string, Val>

  /** The comparison a token of the grammar stands for. */
  function TokenOrder(op: string): Outcome<Order> {
    if op == "=" || op == "==" then Done(IsEq)
    else if op == "!=" || op == "<>" then Done(IsNeq)
    else if op == "<" then Done(IsLess)
    else if op == ">" then Done(IsGreater)
    else if op == "<=" then Done(IsAtMost)
    else if op == ">=" then Done(IsAtLeast)
    else Thrown
  }

  function CompareToken(op: string, a: Val, b: Val): Val {
    match TokenOrder(op)
    case Done(order) => Compare(order, a, b)
    case Thrown => Fault
  }

  function LikeMeaning(op: string, vs: seq<Val>, m: Interp): Val {
    LikeTokenValue(NormalizeOp(op), vs, m)
  }

  function LikeTokenValue(token: string, vs: seq<Val>, m: Interp): Val {
    if token == "LIKE" then Truth(m.like(vs))
    else if token == "NOTLIKE" then Not3(m.like(vs))
    else if token == "ILIKE" then Truth(m.iLike(vs))
    else Not3(m.iLike(vs))
  }

  function Meaning(e: SqlExpr, scope: Scope, m: Interp): Val
    decreases e
  {
    match e
    case StringLiteral(raw) => Str(Unescape(raw))
    case IntLiteral(value) => Num(value as real)
    case FloatLiteral(number) => Num(number)
    case NullLiteral => Null
    case TrueLiteral => Bool(true)
    case FalseLiteral => Bool(false)
    case ColumnRef(table, column) =>
      var name := QualifiedName(table, column);
      if name in scope then scope[name] else Fault
    case Paren(x) => Meaning(x, scope, m)
    case MulDiv(op, l, r) =>
      if op == "*" then Mul2(Meaning(l, scope, m), Meaning(r, scope, m))
      else Div2(Meaning(l, scope, m), Meaning(r, scope, m))
    case AddSub(op, l, r) =>
      if op == "+" then Add2(Meaning(l, scope, m), Meaning(r, scope, m))
      else Sub2(Meaning(l, scope, m), Meaning(r, scope, m))
    case NotExpr(_, x) => Not3(Meaning(x, scope, m))
    case LikeExpr(op, l, r) => LikeMeaning(op, [Meaning(l, scope, m), Meaning(r, scope, m)], m)
    case BetweenExpr(x, negated, lo, hi) =>
      // Section 8.3 of SQL-92: X BETWEEN Y AND Z is X >= Y AND X <= Z.
      var v := Meaning(x, scope, m);
      var within := And2(Compare(IsAtLeast, v, Meaning(lo, scope, m)), Compare(IsAtMost, v, Meaning(hi, scope, m)));
      if negated then Not3(within) else within
    case ComparisonExpr(l, ops, rs) => AllOf(ChainMeaning(Meaning(l, scope, m), ops, rs, scope, m))
    case AndExpr(x, xs) =>
      if xs == [] then Meaning(x, scope, m) else AllOf([Meaning(x, scope, m)] + MeaningAll(xs, scope, m))
    case XorExpr(x, xs) =>
      if xs == [] then Meaning(x, scope, m) else ParityOf([Meaning(x, scope, m)] + MeaningAll(xs, scope, m))
    case OrExpr(x, xs) =>
      if xs == [] then Meaning(x, scope, m) else AnyOf([Meaning(x, scope, m)] + MeaningAll(xs, scope, m))
  }

  function MeaningAll(es: seq<SqlExpr>, scope: Scope, m: Interp): (vs: seq<Val>)
    ensures |vs| == |es|
    decreases es
  {
    if es == [] then [] else [Meaning(es[0], scope, m)] + MeaningAll(es[1..], scope, m)
  }

  /** `a op1 b op2 c ...`: the comparisons of neighbours. */
  function ChainMeaning(left: Val, ops: seq<string>, rights: seq<SqlExpr>, scope: Scope, m: Interp): seq<Val>
    decreases rights
  {
    if ops == [] || rights == [] then []
    else
      var right := Meaning(rights[0], scope, m);
      [CompareToken(ops[0], left, right)] + ChainMeaning(right, ops[1..], rights[1..], scope, m)
  }

  lemma {:induction false} MeaningAllAt(es: seq<SqlExpr>, scope: Scope, m: Interp, i: nat)
    requires i < |es|
    ensures MeaningAll(es, scope, m)[i] == Meaning(es[i], scope, m)
  {
    if i > 0 {
      MeaningAllAt(es[1..], scope, m, i - 1);
    }
  }

  // ---------------------------------------------------------------- when a node is the lowering of an expression

  ghost predicate Denotes(g: Graph, n: nat, v: Val, m: Interp) {
    exists t :: Represents(g, n, t) && Eval(t, m) == v
  }

  lemma DenotesIsDen(g: Graph, n: nat, v: Val, m: Interp)
    requires WellFormed(g) && n < |g.ops|
    ensures Denotes(g, n, v, m) <==> Den(g, n, m) == v
  {
    if Denotes(g, n, v, m) {
      var t :| Represents(g, n, t) && Eval(t, m) == v;
      DenIsEval(g, n, t, m);
    } else {
      assert Represents(g, n, Tree(g, n));
    }
  }

  predicate ContextInRange(context: map<string, nat>, g: Graph) {
    forall x :: x in context ==> context[x] < |g.ops|
  }

  /** `scope` gives every known name the value of the node it is bound to. */
  ghost predicate InScope(g: Graph, context: map<string, nat>, scope: Scope, m: Interp) {
    forall x :: x in context ==> x in scope && Denotes(g, context[x], scope[x], m)
  }

  /** Whatever the open parts of the interpretation, the node denotes the meaning of the expression. */
  ghost predicate Lowered(g: Graph, pools: Pools, context: map<string, nat>, n: nat, e: SqlExpr) {
    && n < |g.ops|
    && forall scope: Scope, m: Interp :: PoolsExtend(pools, m.pools) && InScope(g, context, scope, m) ==>
         Denotes(g, n, Meaning(e, scope, m), m)
  }

  ghost predicate LoweredAll(g: Graph, pools: Pools, context: map<string, nat>, ns: seq<nat>, es: seq<SqlExpr>) {
    && |ns| == |es|
    && forall i :: 0 <= i < |es| ==> Lowered(g, pools, context, ns[i], es[i])
  }

  lemma DenotesExtends(g: Graph, h: Graph, n: nat, v: Val, m: Interp)
    requires Topological(g) && Extends(g, h) && n < |g.ops|
    ensures Denotes(g, n, v, m) <==> Denotes(h, n, v, m)
  {
    TopologicalWellFormed(g);
    var t := Tree(g, n);
    RepresentsExtends(g, h, n, t);
    if Denotes(g, n, v, m) {
      DenotesIsDen(g, n, v, m);
    }
    if Denotes(h, n, v, m) {
      var t' :| Represents(h, n, t') && Eval(t', m) == v;
      RepresentsUnique(h, n, t, t');
    }
  }

  lemma LoweredExtends(g: Graph, h: Graph, p: Pools, q: Pools, context: map<string, nat>, n: nat, e: SqlExpr)
    requires Topological(g) && Extends(g, h) && PoolsExtend(p, q) && ContextInRange(context, g)
    requires Lowered(g, p, context, n, e)
    ensures Lowered(h, q, context, n, e)
  {
    forall scope: Scope, m: Interp | PoolsExtend(q, m.pools) && InScope(h, context, scope, m)
      ensures Denotes(h, n, Meaning(e, scope, m), m)
    {
      forall x | x in context
        ensures x in scope && Denotes(g, context[x], scope[x], m)
      {
        DenotesExtends(g, h, context[x], scope[x], m);
      }
      assert InScope(g, context, scope, m);
      DenotesExtends(g, h, n, Meaning(e, scope, m), m);
    }
  }

  lemma LoweredAllExtends(g: Graph, h: Graph, p: Pools, q: Pools, context: map<string, nat>, ns: seq<nat>,
      es: seq<SqlExpr>)
    requires Topological(g) && Extends(g, h) && PoolsExtend(p, q) && ContextInRange(context, g)
    requires LoweredAll(g, p, context, ns, es)
    ensures LoweredAll(h, q, context, ns, es)
  {
    forall i | 0 <= i < |es|
      ensures Lowered(h, q, context, ns[i], es[i])
    {
      LoweredExtends(g, h, p, q, context, ns[i], es[i]);
    }
  }

  lemma StillLowered(g: Graph, h: Graph, p: Pools, q: Pools, context: map<string, nat>,
                     n: nat, e: SqlExpr, ns: seq<nat>, es: seq<SqlExpr>)
    requires Topological(g) && Extends(g, h) && PoolsExtend(p, q) && ContextInRange(context, g)
    requires Lowered(g, p, context, n, e) && LoweredAll(g, p, context, ns, es)
    ensures Lowered(h, q, context, n, e) && LoweredAll(h, q, context, ns, es)
  {
    LoweredExtends(g, h, p, q, context, n, e);
    LoweredAllExtends(g, h, p, q, context, ns, es);
  }

  lemma {:induction false} DenotesAll(g: Graph, ns: seq<nat>, vs: seq<Val>, m: Interp) returns (ts: seq<Expr>)
    requires |ns| == |vs| && forall i :: 0 <= i < |ns| ==> Denotes(g, ns[i], vs[i], m)
    ensures RepresentsAll(g, ns, ts) && EvalAll(ts, m) == vs
  {
    if ns == [] {
      ts := [];
    } else {
      assert Denotes(g, ns[0], vs[0], m);
      var t :| Represents(g, ns[0], t) && Eval(t, m) == vs[0];
      var rest := DenotesAll(g, ns[1..], vs[1..], m);
      ts := [t] + rest;
    }
  }

  /** A node appended over the lowerings of some expressions is the lowering of what its operator makes of them. */
  lemma AppendLowered(g: Graph, p: Pools, context: map<string, nat>, o: Operation, ns: seq<nat>, es: seq<SqlExpr>,
      q: Pools, e: SqlExpr)
    requires Topological(g) && ContextInRange(context, g) && PoolsExtend(p, q)
    requires LoweredAll(g, p, context, ns, es)
    requires forall scope: Scope, m: Interp :: PoolsExtend(q, m.pools) ==>
               Apply(o, MeaningAll(es, scope, m), m) == Meaning(e, scope, m)
    ensures var h := Append(g, o, ns);
            Topological(h) && Extends(g, h) && Lowered(h, q, context, |g.ops|, e)
  {
    var h := Append(g, o, ns);
    assert Topological(h) by {
      forall n | 0 <= n < |h.rows|
        ensures RowInRange(h.rows[n], n)
      {
        if n < |g.rows| {
          assert RowInRange(g.rows[n], n);
        } else {
          assert forall i :: 0 <= i < |ns| ==> Lowered(g, p, context, ns[i], es[i]);
        }
      }
    }
    LoweredAllExtends(g, h, p, q, context, ns, es);
    forall scope: Scope, m: Interp | PoolsExtend(q, m.pools) && InScope(h, context, scope, m)
      ensures Denotes(h, |g.ops|, Meaning(e, scope, m), m)
    {
      var vs := MeaningAll(es, scope, m);
      forall i | 0 <= i < |ns|
        ensures Denotes(h, ns[i], vs[i], m)
      {
        MeaningAllAt(es, scope, m, i);
        assert Lowered(h, q, context, ns[i], es[i]);
      }
      var ts := DenotesAll(h, ns, vs, m);
      assert Represents(h, |g.ops|, Node(o, ts));
    }
  }

  // ---------------------------------------------------------------- the visitor

  /** The operator table of the visitor. */
  function OpMap(token: string): Outcome<ColumnOp> {
    if token == "+" then Done(Add)
    else if token == "-" then Done(Sub)
    else if token == "*" then Done(Mul)
    else if token == "/" then Done(Div)
    else if token == "|" || token == "||" || token == "OR" then Done(Or)
    else if token == "&" || token == "&&" || token == "AND" then Done(And)
    else if token == "^" || token == "XOR" then Done(Xor)
    else if token == "~" || token == "!" || token == "NOT" then Done(Not)
    else if token == "!=" || token == "<>" then Done(Neq)
    else if token == "<=" then Done(Lte)
    else if token == ">=" then Done(Gte)
    else if token == "<" then Done(Lt)
    else if token == ">" then Done(Gt)
    else if token == "=" || token == "==" then Done(Eq)
    else if token == "IN" then Done(In)
    else if token == "NOTIN" then Done(NotIn)
    else if token == "LIKE" then Done(Like)
    else if token == "NOTLIKE" then Done(NotLike)
    else if token == "ILIKE" then Done(ILike)
    else if token == "NOTILIKE" then Done(NotILike)
    else if token == "ISNULL" then Done(IsNull)
    else if token == "ISNOTNULL" then Done(IsNotNull)
    else if token == "NULL" then Done(NullOp)
    else if token == "TRUE" then Done(TrueOp)
    else if token == "FALSE" then Done(FalseOp)
    else Thrown
  }

  /** Every comparison token of the grammar is in the table, under the operator that compares that way. */
  lemma CmpTokenMeans(op: string, a: Val, b: Val, m: Interp)
    requires CmpToken(op)
    ensures OpMap(op).Done?
    ensures Apply(Plain(NODE_NONE, OpMap(op).value, Any), [a, b], m) == CompareToken(op, a, b)
  {
    CmpOpFound(op);
    CmpOpMeans(OpMap(op).value, a, b, m);
  }

  function CmpOp(op: string): ColumnOp {
    if op == "=" || op == "==" then Eq
    else if op == "!=" || op == "<>" then Neq
    else if op == "<" then Lt
    else if op == ">" then Gt
    else if op == "<=" then Lte
    else Gte
  }

  lemma CmpOpFound(op: string)
    requires CmpToken(op)
    ensures OpMap(op) == Done(CmpOp(op))
  {
  }

  lemma CmpOpMeans(op: ColumnOp, a: Val, b: Val, m: Interp)
    ensures op.Eq? ==> Apply(Plain(NODE_NONE, op, Any), [a, b], m) == Compare(IsEq, a, b)
    ensures op.Neq? ==> Apply(Plain(NODE_NONE, op, Any), [a, b], m) == Compare(IsNeq, a, b)
    ensures op.Lt? ==> Apply(Plain(NODE_NONE, op, Any), [a, b], m) == Compare(IsLess, a, b)
    ensures op.Gt? ==> Apply(Plain(NODE_NONE, op, Any), [a, b], m) == Compare(IsGreater, a, b)
    ensures op.Lte? ==> Apply(Plain(NODE_NONE, op, Any), [a, b], m) == Compare(IsAtMost, a, b)
    ensures op.Gte? ==> Apply(Plain(NODE_NONE, op, Any), [a, b], m) == Compare(IsAtLeast, a, b)
  {
  }

  lemma NotTokenFound(op: string)
    requires NotToken(op)
    ensures OpMap(NormalizeOp(op)) == Done(Not)
  {
  }

  lemma NotMeaning(e: SqlExpr, scope: Scope, m: Interp)
    requires e.NotExpr?
    ensures Apply(Plain(NODE_NONE, Not, Any), MeaningAll([e.arg], scope, m), m) == Meaning(e, scope, m)
  {
    MeaningAllAt([e.arg], scope, m, 0);
  }

  lemma CmpTokenFound(op: string)
    requires CmpToken(op)
    ensures OpMap(op).Done?
  {
  }

  lemma LikeTokenMeans(op: string, vs: seq<Val>, m: Interp)
    requires LikeToken(op)
    ensures OpMap(NormalizeOp(op)).Done?
    ensures Apply(Plain(NODE_NONE, OpMap(NormalizeOp(op)).value, Any), vs, m) == LikeMeaning(op, vs, m)
  {
    var token := NormalizeOp(op);
    LikeFound(token);
    LikeOpMeans(token, vs, m);
  }

  function LikeOp(token: string): ColumnOp {
    if token == "LIKE" then Like
    else if token == "NOTLIKE" then NotLike
    else if token == "ILIKE" then ILike
    else NotILike
  }

  lemma LikeFound(token: string)
    requires token == "LIKE" || token == "NOTLIKE" || token == "ILIKE" || token == "NOTILIKE"
    ensures OpMap(token) == Done(LikeOp(token))
  {
  }

  lemma LikeOpMeans(token: string, vs: seq<Val>, m: Interp)
    ensures Apply(Plain(NODE_NONE, LikeOp(token), Any), vs, m) == LikeTokenValue(token, vs, m)
  {
  }

  lemma ArithTokensMean(a: Val, b: Val, m: Interp)
    ensures NormalizeOp("*") == "*" && NormalizeOp("/") == "/" && NormalizeOp("+") == "+" && NormalizeOp("-") == "-"
    ensures Apply(Plain(NODE_NONE, Mul, Any), [a, b], m) == Mul2(a, b)
    ensures Apply(Plain(NODE_NONE, Div, Any), [a, b], m) == Div2(a, b)
    ensures Apply(Plain(NODE_NONE, Add, Any), [a, b], m) == Add2(a, b)
    ensures Apply(Plain(NODE_NONE, Sub, Any), [a, b], m) == Sub2(a, b)
  {
    assert [a, b][1..] == [b] && [b][1..] == [];
    assert SumOf([]) == Num(0.0) && ProductOf([]) == Num(1.0);
    assert SumOf([b]) == Add2(b, Num(0.0)) && SumOf([a, b]) == Add2(a, SumOf([b]));
    assert ProductOf([b]) == Mul2(b, Num(1.0)) && ProductOf([a, b]) == Mul2(a, ProductOf([b]));
  }

  lemma {:induction false} SingleMeaning(v: Val)
    ensures AllOf([v]) == Truth(v)
  {
    assert [v][1..] == [];
  }

  /** One comparison of a chain, as an expression of its own. */
  function Link(l: SqlExpr, ops: seq<string>, rs: seq<SqlExpr>, i: nat): SqlExpr
    requires i < |ops| && i < |rs|
  {
    ComparisonExpr(if i == 0 then l else rs[i - 1], [ops[i]], [rs[i]])
  }

  function Links(l: SqlExpr, ops: seq<string>, rs: seq<SqlExpr>, k: nat): (links: seq<SqlExpr>)
    requires k <= |ops| && k <= |rs|
    ensures |links| == k
    ensures forall i :: 0 <= i < k ==> links[i] == Link(l, ops, rs, i)
  {
    seq(k, i requires 0 <= i < k => Link(l, ops, rs, i))
  }

  lemma ChainOfOne(a: Val, op: string, r: SqlExpr, scope: Scope, m: Interp)
    ensures ChainMeaning(a, [op], [r], scope, m) == [CompareToken(op, a, Meaning(r, scope, m))]
  {
    var b := Meaning(r, scope, m);
    assert [op][1..] == [] && [r][1..] == [];
    assert ChainMeaning(b, [], [], scope, m) == [];
  }

  lemma CompareTokenIsTruth(op: string, a: Val, b: Val)
    ensures Truth(CompareToken(op, a, b)) == CompareToken(op, a, b)
  {
  }

  lemma LinksSnoc(l: SqlExpr, ops: seq<string>, rs: seq<SqlExpr>, i: nat)
    requires i < |ops| && i < |rs|
    ensures Links(l, ops, rs, i + 1) == Links(l, ops, rs, i) + [Link(l, ops, rs, i)]
  {
  }

  lemma MeaningOfChain(l: SqlExpr, ops: seq<string>, rs: seq<SqlExpr>, scope: Scope, m: Interp)
    ensures Meaning(ComparisonExpr(l, ops, rs), scope, m)
            == AllOf(ChainMeaning(Meaning(l, scope, m), ops, rs, scope, m))
  {
  }

  lemma LinkMeaning(l: SqlExpr, op: string, r: SqlExpr, scope: Scope, m: Interp)
    ensures Meaning(ComparisonExpr(l, [op], [r]), scope, m)
            == CompareToken(op, Meaning(l, scope, m), Meaning(r, scope, m))
  {
    var a, b := Meaning(l, scope, m), Meaning(r, scope, m);
    MeaningOfChain(l, [op], [r], scope, m);
    ChainOfOne(a, op, r, scope, m);
    SingleMeaning(CompareToken(op, a, b));
    CompareTokenIsTruth(op, a, b);
  }

  lemma PairMeaning(l: SqlExpr, r: SqlExpr, scope: Scope, m: Interp)
    ensures MeaningAll([l, r], scope, m) == [Meaning(l, scope, m), Meaning(r, scope, m)]
  {
    assert [l, r][1..] == [r] && [r][1..] == [];
    assert MeaningAll([r], scope, m) == [Meaning(r, scope, m)];
  }

  lemma LinkNodeMeaning(l: SqlExpr, op: string, r: SqlExpr, scope: Scope, m: Interp)
    requires CmpToken(op)
    ensures OpMap(op).Done?
    ensures Apply(Plain(NODE_NONE, OpMap(op).value, Any), MeaningAll([l, r], scope, m), m)
            == Meaning(ComparisonExpr(l, [op], [r]), scope, m)
  {
    PairMeaning(l, r, scope, m);
    LinkMeaning(l, op, r, scope, m);
    CmpTokenMeans(op, Meaning(l, scope, m), Meaning(r, scope, m), m);
  }

  /** A chain means the conjunction of its comparisons. */
  lemma {:induction false} ChainIsLinks(l: SqlExpr, ops: seq<string>, rs: seq<SqlExpr>, scope: Scope, m: Interp)
    requires |ops| == |rs|
    ensures ChainMeaning(Meaning(l, scope, m), ops, rs, scope, m) == MeaningAll(Links(l, ops, rs, |ops|), scope, m)
    decreases |rs|
  {
    if rs != [] {
      ChainIsLinks(rs[0], ops[1..], rs[1..], scope, m);
      LinkMeaning(l, ops[0], rs[0], scope, m);
      assert Links(l, ops, rs, |ops|)[1..] == Links(rs[0], ops[1..], rs[1..], |ops| - 1);
    }
  }

  lemma ChainNodeMeaning(e: SqlExpr, scope: Scope, m: Interp)
    requires e.ComparisonExpr? && |e.ops| == |e.rights|
    ensures Apply(Plain(NODE_NONE, And, Any), MeaningAll(Links(e.left, e.ops, e.rights, |e.ops|), scope, m), m)
            == Meaning(e, scope, m)
  {
    ChainIsLinks(e.left, e.ops, e.rights, scope, m);
    MeaningOfChain(e.left, e.ops, e.rights, scope, m);
  }

  /** A chain of one comparison is its only link. */
  lemma OnlyLink(e: SqlExpr)
    requires e.ComparisonExpr? && |e.ops| == |e.rights| == 1
    ensures Link(e.left, e.ops, e.rights, 0) == e
  {
    assert e.ops == [e.ops[0]] && e.rights == [e.rights[0]];
  }

  /** The record of every node the visitor appends: literals have data frame id 0, all other nodes none. */
  predicate LoweredRecord(o: Operation) {
    && o.sequence.Single? && o.name == NODE_NONE
    && match o.op
       case Const => o.df == 0 && (o.typ.Int64? || o.typ.Float64? || o.typ.String?)
       case NullOp => o.df == 0 && o.typ.Any? && o.constId == NODE_NONE
       case TrueOp => o.df == 0 && o.typ.BoolType? && o.constId == NODE_NONE
       case FalseOp => o.df == 0 && o.typ.BoolType? && o.constId == NODE_NONE
       case _ => o.df == NODE_NONE && o.typ.Any? && o.constId == NODE_NONE
  }

  predicate LoweredRecords(ops: seq<Operation>, base: nat) {
    base <= |ops| && forall n :: base <= n < |ops| ==> LoweredRecord(ops[n])
  }

  /** How many nodes an expression is lowered to: columns have one already, and every operand gets its nodes once. */
  function NodeCount(e: SqlExpr): nat
    decreases e
  {
    match e
    case ColumnRef(_, _) => 0
    case Paren(x) => NodeCount(x)
    case MulDiv(_, l, r) => NodeCount(l) + NodeCount(r) + 1
    case AddSub(_, l, r) => NodeCount(l) + NodeCount(r) + 1
    case NotExpr(_, x) => NodeCount(x) + 1
    case LikeExpr(_, l, r) => NodeCount(l) + NodeCount(r) + 1
    case BetweenExpr(x, _, lo, hi) => NodeCount(x) + NodeCount(lo) + NodeCount(hi) + 3
    case ComparisonExpr(l, ops, rs) => NodeCount(l) + NodeCounts(rs) + |ops| + if |ops| >= 2 then 1 else 0
    case AndExpr(x, xs) => NodeCount(x) + NodeCounts(xs) + if xs == [] then 0 else 1
    case XorExpr(x, xs) => NodeCount(x) + NodeCounts(xs) + if xs == [] then 0 else 1
    case OrExpr(x, xs) => NodeCount(x) + NodeCounts(xs) + if xs == [] then 0 else 1
    case _ => 1
  }

  function NodeCounts(es: seq<SqlExpr>): nat
    decreases es
  {
    if es == [] then 0 else NodeCounts(es[..|es| - 1]) + NodeCount(es[|es| - 1])
  }

  lemma TwoCounts(x: SqlExpr, y: SqlExpr)
    ensures NodeCounts([x, y]) == NodeCount(x) + NodeCount(y)
  {
    assert [x, y][..1] == [x] && [x][..0] == [];
    assert NodeCounts([x]) == NodeCounts([]) + NodeCount(x);
  }

  lemma NodeCountsSnoc(es: seq<SqlExpr>, i: nat)
    requires i < |es|
    ensures NodeCounts(es[..i + 1]) == NodeCounts(es[..i]) + NodeCount(es[i])
  {
    assert es[..i + 1][..i] == es[..i];
  }

  predicate IsJunctionOf(op: ColumnOp, first: SqlExpr, args: seq<SqlExpr>, e: SqlExpr) {
    || (op.And? && e == AndExpr(first, args))
    || (op.Xor? && e == XorExpr(first, args))
    || (op.Or? && e == OrExpr(first, args))
  }

  lemma SeveralMeaning(op: ColumnOp, first: SqlExpr, args: seq<SqlExpr>, e: SqlExpr, scope: Scope, m: Interp)
    requires IsJunctionOf(op, first, args, e) && args != []
    ensures Apply(Plain(NODE_NONE, op, Any), MeaningAll([first] + args, scope, m), m) == Meaning(e, scope, m)
  {
    assert ([first] + args)[1..] == args;
    assert MeaningAll([first] + args, scope, m) == [Meaning(first, scope, m)] + MeaningAll(args, scope, m);
  }

  /** The newest constant of its kind is the value of the literal, however the tables grow later. */
  predicate NewestConstant(o: Operation, q: Pools, e: SqlExpr) {
    match e
    case StringLiteral(raw) =>
      o == Constant(if q.strings == [] then 0 else |q.strings| - 1, String) && |q.strings| > 0
        && q.strings[|q.strings| - 1] == Unescape(raw)
    case IntLiteral(value) =>
      o == Constant(if q.ints == [] then 0 else |q.ints| - 1, Int64) && |q.ints| > 0 && q.ints[|q.ints| - 1] == value
    case FloatLiteral(number) =>
      o == Constant(if q.floats == [] then 0 else |q.floats| - 1, Float64) && |q.floats| > 0
        && q.floats[|q.floats| - 1] == number
    case _ => false
  }

  lemma ConstantLowered(g: Graph, p: Pools, context: map<string, nat>, o: Operation, q: Pools, e: SqlExpr)
    requires Topological(g) && ContextInRange(context, g) && PoolsExtend(p, q) && NewestConstant(o, q, e)
    ensures var h := Append(g, o, []);
            Topological(h) && Extends(g, h) && Lowered(h, q, context, |g.ops|, e)
  {
    forall scope: Scope, m: Interp | PoolsExtend(q, m.pools)
      ensures Apply(o, MeaningAll([], scope, m), m) == Meaning(e, scope, m)
    {
      assert Apply(o, [], m) == ConstValue(o, m.pools);
    }
    AppendLowered(g, p, context, o, [], [], q, e);
  }

  class SqlVisitor {
    const outGraph: QueryGraph
    var exprVarContext: map<string, nat>
    const underflows: real -> bool  // the small numbers the C library refuses
    ghost const base: nat  // the nodes there were before the visitor

    constructor (graph: QueryGraph, context: map<string, nat>, underflows: real -> bool)
      ensures outGraph == graph && exprVarContext == context && this.underflows == underflows
      ensures base == |graph.operations|
    {
      outGraph, exprVarContext := graph, context;
      this.underflows := underflows;
      base := |graph.operations|;
    }

    /**
     Parents come after their children, arithmetic has its operands, every node the visitor has
     appended has the record it should have, and every known name is bound to a node.
     */
    ghost predicate Valid()
      reads this, outGraph
    {
      && Topological(outGraph.View()) && Wide(outGraph.View()) && LoweredRecords(outGraph.operations, base)
      && ContextInRange(exprVarContext, outGraph.View())
    }

    /** The graph and its constant tables have only grown. */
    twostate predicate Grown()
      reads this, outGraph
    {
      && Extends(old(outGraph.View()), outGraph.View())
      && PoolsExtend(old(outGraph.ConstantPools()), outGraph.ConstantPools())
    }

    twostate predicate Added(k: int)
      reads outGraph
    {
      |outGraph.operations| == |old(outGraph.operations)| + k
    }

    predicate Accepts(e: SqlExpr)
      reads this
    {
      Compiles(e, exprVarContext.Keys, underflows)
    }

    predicate AcceptsAll(es: seq<SqlExpr>)
      reads this
    {
      CompileAll(es, exprVarContext.Keys, underflows)
    }

    ghost predicate Holds(n: nat, e: SqlExpr)
      reads this, outGraph
    {
      Lowered(outGraph.View(), outGraph.ConstantPools(), exprVarContext, n, e)
    }

    ghost predicate HoldsAll(ns: seq<nat>, es: seq<SqlExpr>)
      reads this, outGraph
    {
      LoweredAll(outGraph.View(), outGraph.ConstantPools(), exprVarContext, ns, es)
    }

    method AppendLoweredNode(df: int, op: ColumnOp, typ: ValueType, args: seq<nat>, ghost es: seq<SqlExpr>,
        ghost e: SqlExpr)
      returns (n: nat)
      requires Valid() && HoldsAll(args, es) && (IsArithmetic(op) ==> |args| >= 2) && LoweredRecord(Plain(df, op, typ))
      requires forall scope: Scope, m: Interp ::
                 Apply(Plain(df, op, typ), MeaningAll(es, scope, m), m) == Meaning(e, scope, m)
      modifies outGraph
      ensures Valid() && Grown() && Holds(n, e) && Added(1)
    {
      ghost var g, p := outGraph.View(), outGraph.ConstantPools();
      n := outGraph.AppendNode(df, op, typ, args);
      AppendLowered(g, p, exprVarContext, Plain(df, op, typ), args, es, p, e);
    }

    /** Looks the operator up and appends its node. */
    method AppendOperation(op: string, args: seq<nat>, ghost es: seq<SqlExpr>, ghost e: SqlExpr)
      returns (r: Outcome<nat>)
      requires Valid() && HoldsAll(args, es)
      requires OpMap(NormalizeOp(op)).Done? ==>
                 && (IsArithmetic(OpMap(NormalizeOp(op)).value) ==> |args| >= 2)
                 && LoweredRecord(Plain(NODE_NONE, OpMap(NormalizeOp(op)).value, Any))
      requires OpMap(NormalizeOp(op)).Done? ==> forall scope: Scope, m: Interp ::
                 Apply(Plain(NODE_NONE, OpMap(NormalizeOp(op)).value, Any), MeaningAll(es, scope, m), m)
                 == Meaning(e, scope, m)
      modifies outGraph
      ensures Valid() && Grown()
      ensures r.Done? <==> OpMap(NormalizeOp(op)).Done?
      ensures r.Done? ==> Holds(r.value, e) && Added(1)
    {
      var value := OpMap(NormalizeOp(op));
      if value.Thrown? {
        return Thrown;
      }
      var n := AppendLoweredNode(NODE_NONE, value.value, Any, args, es, e);
      r := Done(n);
    }

    /** Visits some operands from left to right. */
    method VisitAll(first: SqlExpr, args: seq<SqlExpr>, ghost whole: SqlExpr) returns (r: Outcome<seq<nat>>)
      requires Valid() && first < whole && Parsed(first)
      requires forall i :: 0 <= i < |args| ==> args[i] < whole && Parsed(args[i])
      modifies outGraph
      ensures Valid() && Grown()
      ensures r.Done? <==> Accepts(first) && AcceptsAll(args)
      ensures r.Done? ==> HoldsAll(r.value, [first] + args) && Added(NodeCount(first) + NodeCounts(args))
      decreases whole, 1
    {
      ghost var start := |outGraph.operations|;
      var n := Visit(first);
      if n.Thrown? {
        return Thrown;
      }
      var ids := [n.value];
      for i := 0 to |args|
        invariant Valid() && Grown()
        invariant HoldsAll(ids, [first] + args[..i])
        invariant |outGraph.operations| == start + NodeCount(first) + NodeCounts(args[..i])
        invariant AcceptsAll(args[..i])
      {
        n := VisitArg(ids, first, args, i, whole);
        if n.Thrown? {
          return Thrown;
        }
        ids := ids + [n.value];
      }
      assert args[..|args|] == args;
      r := Done(ids);
    }

    /** One turn of the loop of `VisitAll`; the operands visited before keep their nodes. */
    method VisitArg(ghost ids: seq<nat>, ghost first: SqlExpr, args: seq<SqlExpr>, i: nat, ghost whole: SqlExpr)
      returns (n: Outcome<nat>)
      requires i < |args| && args[i] < whole && Parsed(args[i])
      requires Valid() && HoldsAll(ids, [first] + args[..i])
      modifies outGraph
      ensures Valid() && Grown()
      ensures if n.Done? then AcceptsAll(args[..i]) ==> AcceptsAll(args[..i + 1]) else !AcceptsAll(args)
      ensures n.Done? ==> && HoldsAll(ids + [n.value], [first] + args[..i + 1])
                          && Added(NodeCounts(args[..i + 1]) - NodeCounts(args[..i]))
      decreases whole, 0
    {
      ghost var g, p := outGraph.View(), outGraph.ConstantPools();
      CompileAllSnoc(args, i, exprVarContext.Keys, underflows);
      NodeCountsSnoc(args, i);
      n := Visit(args[i]);
      if n.Thrown? {
        return;
      }
      LoweredAllExtends(g, outGraph.View(), p, outGraph.ConstantPools(), exprVarContext, ids, [first] + args[..i]);
      assert [first] + args[..i + 1] == ([first] + args[..i]) + [args[i]];
    }

    method VisitBoth(left: SqlExpr, right: SqlExpr, ghost whole: SqlExpr) returns (r: Outcome<seq<nat>>)
      requires Valid() && left < whole && Parsed(left) && right < whole && Parsed(right)
      modifies outGraph
      ensures Valid() && Grown()
      ensures r.Done? <==> Accepts(left) && Accepts(right)
      ensures r.Done? ==> HoldsAll(r.value, [left, right]) && Added(NodeCount(left) + NodeCount(right))
      decreases whole, 2
    {
      r := VisitAll(left, [right], whole);
      assert [right][0] == right && [left] + [right] == [left, right];
      assert [right][..0] == [] && NodeCounts([right]) == NodeCounts([]) + NodeCount(right);
    }

    method VisitStringLiteral(e: SqlExpr) returns (n: nat)
      requires Valid() && e.StringLiteral?
      modifies outGraph
      ensures Valid() && Grown() && Holds(n, e) && Added(1)
    {
      var str := UnescapeSqlString(e.raw);
      ghost var g, p := outGraph.View(), outGraph.ConstantPools();
      n := outGraph.AppendStringConstant(str);
      ConstantLowered(g, p, exprVarContext, Constant(|p.strings|, String), outGraph.ConstantPools(), e);
    }

    method VisitIntLiteral(e: SqlExpr) returns (n: nat)
      requires Valid() && e.IntLiteral?
      modifies outGraph
      ensures Valid() && Grown() && Holds(n, e) && Added(1)
    {
      ghost var g, p := outGraph.View(), outGraph.ConstantPools();
      n := outGraph.AppendInt64Constant(e.value);
      ConstantLowered(g, p, exprVarContext, Constant(|p.ints|, Int64), outGraph.ConstantPools(), e);
    }

    method VisitFloatLiteral(e: SqlExpr) returns (n: nat)
      requires Valid() && e.FloatLiteral?
      modifies outGraph
      ensures Valid() && Grown() && Holds(n, e) && Added(1)
    {
      ghost var g, p := outGraph.View(), outGraph.ConstantPools();
      n := outGraph.AppendFloat64Constant(e.number);
      ConstantLowered(g, p, exprVarContext, Constant(|p.floats|, Float64), outGraph.ConstantPools(), e);
    }

    /** NULL, TRUE and FALSE. */
    method VisitKeyword(op: ColumnOp, typ: ValueType, ghost e: SqlExpr) returns (n: nat)
      requires Valid()
      requires (op.NullOp? && e.NullLiteral?) || (op.TrueOp? && e.TrueLiteral?) || (op.FalseOp? && e.FalseLiteral?)
      requires typ == if op.NullOp? then Any else BoolType
      modifies outGraph
      ensures Valid() && Grown() && Holds(n, e) && Added(1)
    {
      n := AppendLoweredNode(0, op, typ, [], [], e);
    }

    method VisitLiteralExpr(e: SqlExpr) returns (r: Outcome<nat>)
      requires Valid()
      requires || e.StringLiteral? || e.IntLiteral? || e.FloatLiteral?
               || e.NullLiteral? || e.TrueLiteral? || e.FalseLiteral?
      modifies outGraph
      ensures Valid() && Grown()
      ensures r.Done? <==> Accepts(e)
      ensures r.Done? ==> Holds(r.value, e) && Added(NodeCount(e))
    {
      var n: nat;
      match e {
        case StringLiteral(_) =>
          n := VisitStringLiteral(e);
        case IntLiteral(value) =>
          if !(INT64_MIN <= value <= INT64_MAX) {
            return Thrown;
          }
          n := VisitIntLiteral(e);
        case FloatLiteral(number) =>
          if !FloatFits(number, underflows) {
            return Thrown;
          }
          n := VisitFloatLiteral(e);
        case NullLiteral =>
          n := VisitKeyword(NullOp, Any, e);
        case TrueLiteral =>
          n := VisitKeyword(TrueOp, BoolType, e);
        case FalseLiteral =>
          n := VisitKeyword(FalseOp, BoolType, e);
      }
      r := Done(n);
    }

    method VisitColumnExpr(e: SqlExpr) returns (r: Outcome<nat>)
      requires Valid() && e.ColumnRef?
      ensures r.Done? <==> Accepts(e)
      ensures r.Done? ==> Holds(r.value, e)
      ensures e.table == "" ==> r == if e.column in exprVarContext then Done(exprVarContext[e.column]) else Thrown
      ensures e.table != "" ==>
                && (forall key :: key in exprVarContext && SplitsAs(key, e.table, e.column) ==>
                      r == Done(exprVarContext[key]))
                && (r.Done? ==> exists key :: key in exprVarContext && SplitsAs(key, e.table, e.column))
    {
      var name := QualifiedName(e.table, e.column);
      forall key | e.table != ""
        ensures name == key <==> SplitsAs(key, e.table, e.column)
      {
        QualifiedSplits(key, e.table, e.column);
      }
      if name in exprVarContext {
        return Done(exprVarContext[name]);
      }
      r := Thrown;
    }

    method VisitMulDivExpr(e: SqlExpr) returns (r: Outcome<nat>)
      requires Valid() && Parsed(e) && e.MulDiv?
      modifies outGraph
      ensures Valid() && Grown()
      ensures r.Done? <==> Accepts(e)
      ensures r.Done? ==> Holds(r.value, e) && Added(NodeCount(e))
      decreases e, 3
    {
      var ids := VisitBoth(e.left, e.right, e);
      if ids.Thrown? {
        return Thrown;
      }
      forall scope: Scope, m: Interp
        ensures NormalizeOp("*") == "*" && NormalizeOp("/") == "/"
        ensures Apply(Plain(NODE_NONE, OpMap(e.op).value, Any), MeaningAll([e.left, e.right], scope, m), m)
                == Meaning(e, scope, m)
      {
        PairMeaning(e.left, e.right, scope, m);
        ArithTokensMean(Meaning(e.left, scope, m), Meaning(e.right, scope, m), m);
      }
      r := AppendOperation(e.op, ids.value, [e.left, e.right], e);
    }

    method VisitAddSubExpr(e: SqlExpr) returns (r: Outcome<nat>)
      requires Valid() && Parsed(e) && e.AddSub?
      modifies outGraph
      ensures Valid() && Grown()
      ensures r.Done? <==> Accepts(e)
      ensures r.Done? ==> Holds(r.value, e) && Added(NodeCount(e))
      decreases e, 3
    {
      var ids := VisitBoth(e.left, e.right, e);
      if ids.Thrown? {
        return Thrown;
      }
      forall scope: Scope, m: Interp
        ensures NormalizeOp("+") == "+" && NormalizeOp("-") == "-"
        ensures Apply(Plain(NODE_NONE, OpMap(e.op).value, Any), MeaningAll([e.left, e.right], scope, m), m)
                == Meaning(e, scope, m)
      {
        PairMeaning(e.left, e.right, scope, m);
        ArithTokensMean(Meaning(e.left, scope, m), Meaning(e.right, scope, m), m);
      }
      r := AppendOperation(e.op, ids.value, [e.left, e.right], e);
    }

    method VisitNotExpr(e: SqlExpr) returns (r: Outcome<nat>)
      requires Valid() && Parsed(e) && e.NotExpr?
      modifies outGraph
      ensures Valid() && Grown()
      ensures r.Done? <==> Accepts(e)
      ensures r.Done? ==> Holds(r.value, e) && Added(NodeCount(e))
      decreases e, 3
    {
      var id := Visit(e.arg);
      if id.Thrown? {
        return Thrown;
      }
      forall scope: Scope, m: Interp
        ensures OpMap(NormalizeOp(e.op)) == Done(Not)
        ensures Apply(Plain(NODE_NONE, Not, Any), MeaningAll([e.arg], scope, m), m) == Meaning(e, scope, m)
      {
        NotTokenFound(e.op);
        NotMeaning(e, scope, m);
      }
      r := AppendOperation(e.op, [id.value], [e.arg], e);
    }

    method VisitLikeExpr(e: SqlExpr) returns (r: Outcome<nat>)
      requires Valid() && Parsed(e) && e.LikeExpr?
      modifies outGraph
      ensures Valid() && Grown()
      ensures r.Done? <==> Accepts(e)
      ensures r.Done? ==> Holds(r.value, e) && Added(NodeCount(e))
      decreases e, 3
    {
      var ids := VisitBoth(e.left, e.right, e);
      if ids.Thrown? {
        return Thrown;
      }
      forall scope: Scope, m: Interp
        ensures OpMap(NormalizeOp(e.op)).Done?
        ensures Apply(Plain(NODE_NONE, OpMap(NormalizeOp(e.op)).value, Any), MeaningAll([e.left, e.right], scope, m), m)
                == Meaning(e, scope, m)
      {
        PairMeaning(e.left, e.right, scope, m);
        LikeTokenMeans(e.op, [Meaning(e.left, scope, m), Meaning(e.right, scope, m)], m);
      }
      r := AppendOperation(e.op, ids.value, [e.left, e.right], e);
    }

    method VisitBetweenExpr(e: SqlExpr) returns (r: Outcome<nat>)
      requires Valid() && Parsed(e) && e.BetweenExpr?
      modifies outGraph
      ensures Valid() && Grown()
      ensures r.Done? <==> Accepts(e)
      ensures r.Done? ==> Holds(r.value, e) && Added(NodeCount(e))
      decreases e, 3
    {
      var ids := VisitAll(e.lower, [e.left, e.upper], e);
      assert [e.left, e.upper][0] == e.left && [e.left, e.upper][1] == e.upper;
      TwoCounts(e.left, e.upper);
      if ids.Thrown? {
        return Thrown;
      }
      ghost var all := [e.lower] + [e.left, e.upper];
      assert Holds(ids.value[0], all[0]) && Holds(ids.value[1], all[1]) && Holds(ids.value[2], all[2]);
      var n := AppendBetween(ids.value[0], ids.value[1], ids.value[2], e.negated, e);
      r := Done(n);
    }

    method AppendBetween(lower: nat, middle: nat, upper: nat, negated: bool, ghost e: SqlExpr) returns (n: nat)
      requires Valid() && e.BetweenExpr? && negated == e.negated
      requires Holds(lower, e.lower) && Holds(middle, e.left) && Holds(upper, e.upper)
      modifies outGraph
      ensures Valid() && Grown()
      ensures Holds(n, e) && Added(3)
    {
      var cmp1 := AppendComparison("<=", lower, middle, e.lower, e.left, [upper], [e.upper]);
      assert HoldsAll([upper], [e.upper]) ==> Holds([upper][0], [e.upper][0]);
      var cmp2 := AppendComparison("<=", middle, upper, e.left, e.upper, [cmp1], Bounds(e)[..1]);
      assert HoldsAll([cmp1], Bounds(e)[..1]) ==> Holds([cmp1][0], Bounds(e)[..1][0]);
      forall scope: Scope, m: Interp
        ensures Apply(Plain(NODE_NONE, if negated then Nand else And, Any), MeaningAll(Bounds(e), scope, m), m)
                == Meaning(e, scope, m)
      {
        BetweenMeaning(e, scope, m);
      }
      n := AppendLoweredNode(NODE_NONE, if negated then Nand else And, Any, [cmp1, cmp2], Bounds(e), e);
    }

    /** Appends one comparison node; other nodes keep what they are lowerings of. */
    method AppendComparison(op: string, left: nat, right: nat, ghost l: SqlExpr, ghost r: SqlExpr, ghost ns: seq<nat>,
        ghost es: seq<SqlExpr>)
      returns (n: nat)
      requires Valid() && CmpToken(op) && OpMap(op).Done?
      requires Holds(left, l) && Holds(right, r) && HoldsAll(ns, es)
      modifies outGraph
      ensures Valid() && Grown() && Added(1)
      ensures Holds(n, ComparisonExpr(l, [op], [r])) && Holds(left, l) && Holds(right, r) && HoldsAll(ns, es)
    {
      ghost var g, p := outGraph.View(), outGraph.ConstantPools();
      forall scope: Scope, m: Interp
        ensures Apply(Plain(NODE_NONE, OpMap(op).value, Any), MeaningAll([l, r], scope, m), m)
                == Meaning(ComparisonExpr(l, [op], [r]), scope, m)
      {
        LinkNodeMeaning(l, op, r, scope, m);
      }
      n := AppendLoweredNode(NODE_NONE, OpMap(op).value, Any, [left, right], [l, r], ComparisonExpr(l, [op], [r]));
      ghost var h, q := outGraph.View(), outGraph.ConstantPools();
      LoweredExtends(g, h, p, q, exprVarContext, left, l);
      LoweredExtends(g, h, p, q, exprVarContext, right, r);
      LoweredAllExtends(g, h, p, q, exprVarContext, ns, es);
    }

    method VisitComparisonExpr(e: SqlExpr) returns (r: Outcome<nat>)
      requires Valid() && Parsed(e) && e.ComparisonExpr?
      modifies outGraph
      ensures Valid() && Grown()
      ensures r.Done? <==> Accepts(e)
      ensures r.Done? ==> Holds(r.value, e) && Added(NodeCount(e))
      decreases e, 3
    {
      var left := Visit(e.left);
      if left.Thrown? {
        return Thrown;
      }
      var cmpIds := VisitChain(left.value, e.left, e.ops, e.rights, e);
      if cmpIds.Thrown? {
        return Thrown;
      }
      r := AppendChain(cmpIds.value, e);
    }

    /** The loop of `VisitComparisonExpr`: one comparison node for each operator. */
    method VisitChain(left: nat, ghost l: SqlExpr, ops: seq<string>, rights: seq<SqlExpr>, ghost whole: SqlExpr)
      returns (r: Outcome<seq<nat>>)
      requires Valid() && Holds(left, l) && |ops| == |rights|
      requires CmpTokens(ops)
      requires forall i :: 0 <= i < |rights| ==> rights[i] < whole && Parsed(rights[i])
      modifies outGraph
      ensures Valid() && Grown()
      ensures r.Done? <==> AcceptsAll(rights)
      ensures r.Done? ==> HoldsAll(r.value, Links(l, ops, rights, |ops|)) && Added(NodeCounts(rights) + |ops|)
      decreases whole, 2
    {
      var cmpIds: seq<nat> := [];
      var leftId := left;
      ghost var start := |outGraph.operations|;
      for i := 0 to |ops|
        invariant Valid() && Grown()
        invariant HoldsAll(cmpIds, Links(l, ops, rights, i))
        invariant |outGraph.operations| == start + NodeCounts(rights[..i]) + i
        invariant Holds(leftId, if i == 0 then l else rights[i - 1])
        invariant AcceptsAll(rights[..i])
      {
        var next := VisitNext(leftId, l, ops, rights, i, cmpIds, whole);
        if next.Thrown? {
          return Thrown;
        }
        leftId := next.value.0;
        cmpIds := cmpIds + [next.value.1];
      }
      assert rights[..|rights|] == rights;
      r := Done(cmpIds);
    }

    /** One turn of the loop of `VisitChain`. */
    method VisitNext(leftId: nat, ghost l: SqlExpr, ops: seq<string>, rights: seq<SqlExpr>, i: nat,
        ghost cmpIds: seq<nat>, ghost whole: SqlExpr)
      returns (r: Outcome<(nat, nat)>)
      requires Valid() && |ops| == |rights| && i < |ops| && CmpToken(ops[i])
      requires rights[i] < whole && Parsed(rights[i])
      requires HoldsAll(cmpIds, Links(l, ops, rights, i))
      requires Holds(leftId, if i == 0 then l else rights[i - 1])
      modifies outGraph
      ensures Valid() && Grown()
      ensures if r.Done? then AcceptsAll(rights[..i]) ==> AcceptsAll(rights[..i + 1]) else !AcceptsAll(rights)
      ensures r.Done? ==> && Holds(r.value.0, rights[i])
                          && HoldsAll(cmpIds + [r.value.1], Links(l, ops, rights, i + 1))
                          && Added(NodeCounts(rights[..i + 1]) - NodeCounts(rights[..i]) + 1)
      decreases whole, 1
    {
      CompileAllSnoc(rights, i, exprVarContext.Keys, underflows);
      NodeCountsSnoc(rights, i);
      r := VisitLink(leftId, l, ops, rights, i, cmpIds, whole);
    }

    /** The right operand of a comparison in a chain, and its comparison with the left one. */
    method VisitLink(leftId: nat, ghost l: SqlExpr, ops: seq<string>, rights: seq<SqlExpr>, i: nat,
        ghost cmpIds: seq<nat>, ghost whole: SqlExpr)
      returns (r: Outcome<(nat, nat)>)
      requires Valid() && |ops| == |rights| && i < |ops| && CmpToken(ops[i])
      requires rights[i] < whole && Parsed(rights[i])
      requires HoldsAll(cmpIds, Links(l, ops, rights, i))
      requires Holds(leftId, if i == 0 then l else rights[i - 1])
      modifies outGraph
      ensures Valid() && Grown()
      ensures r.Done? <==> Accepts(rights[i])
      ensures r.Done? ==> && Holds(r.value.0, rights[i])
                          && HoldsAll(cmpIds + [r.value.1], Links(l, ops, rights, i + 1))
                          && Added(NodeCount(rights[i]) + 1)
      decreases whole, 0
    {
      ghost var g, p := outGraph.View(), outGraph.ConstantPools();
      ghost var links := Links(l, ops, rights, i);
      ghost var before := if i == 0 then l else rights[i - 1];
      var right := Visit(rights[i]);
      if right.Thrown? {
        return Thrown;
      }
      StillLowered(g, outGraph.View(), p, outGraph.ConstantPools(), exprVarContext, leftId, before, cmpIds, links);
      CmpTokenFound(ops[i]);
      var n := AppendComparison(ops[i], leftId, right.value, before, rights[i], cmpIds, links);
      LinksSnoc(l, ops, rights, i);
      r := Done((right.value, n));
    }

    /** A single comparison stands for itself; several are joined by AND. */
    method AppendChain(cmpIds: seq<nat>, ghost e: SqlExpr) returns (r: Outcome<nat>)
      requires Valid() && Parsed(e) && e.ComparisonExpr?
      requires HoldsAll(cmpIds, Links(e.left, e.ops, e.rights, |e.ops|))
      modifies outGraph
      ensures Valid() && Grown()
      ensures r.Done? && Holds(r.value, e) && Added(if |e.ops| >= 2 then 1 else 0)
    {
      ghost var all := Links(e.left, e.ops, e.rights, |e.ops|);
      if |cmpIds| >= 2 {
        forall scope: Scope, m: Interp
          ensures Apply(Plain(NODE_NONE, And, Any), MeaningAll(all, scope, m), m) == Meaning(e, scope, m)
        {
          ChainNodeMeaning(e, scope, m);
        }
        var n := AppendLoweredNode(NODE_NONE, And, Any, cmpIds, all, e);
        r := Done(n);
      } else {
        OnlyLink(e);
        assert Holds(cmpIds[0], all[0]);
        r := Done(cmpIds[0]);
      }
    }

    method VisitAndExpr(e: SqlExpr) returns (r: Outcome<nat>)
      requires Valid() && Parsed(e) && e.AndExpr?
      modifies outGraph
      ensures Valid() && Grown()
      ensures r.Done? <==> Accepts(e)
      ensures r.Done? ==> Holds(r.value, e) && Added(NodeCount(e))
      decreases e, 3
    {
      var ids := VisitAll(e.first, e.args, e);
      if ids.Thrown? {
        return Thrown;
      }
      r := AppendUnlessSingle(And, ids.value, e.first, e.args, e);
    }

    method VisitXorExpr(e: SqlExpr) returns (r: Outcome<nat>)
      requires Valid() && Parsed(e) && e.XorExpr?
      modifies outGraph
      ensures Valid() && Grown()
      ensures r.Done? <==> Accepts(e)
      ensures r.Done? ==> Holds(r.value, e) && Added(NodeCount(e))
      decreases e, 3
    {
      var ids := VisitAll(e.first, e.args, e);
      if ids.Thrown? {
        return Thrown;
      }
      r := AppendUnlessSingle(Xor, ids.value, e.first, e.args, e);
    }

    method VisitOrExpr(e: SqlExpr) returns (r: Outcome<nat>)
      requires Valid() && Parsed(e) && e.OrExpr?
      modifies outGraph
      ensures Valid() && Grown()
      ensures r.Done? <==> Accepts(e)
      ensures r.Done? ==> Holds(r.value, e) && Added(NodeCount(e))
      decreases e, 3
    {
      var ids := VisitAll(e.first, e.args, e);
      if ids.Thrown? {
        return Thrown;
      }
      r := AppendUnlessSingle(Or, ids.value, e.first, e.args, e);
    }

    /** A single operand stands for itself; several get a node of their own. */
    method AppendUnlessSingle(op: ColumnOp, ids: seq<nat>, ghost first: SqlExpr, ghost args: seq<SqlExpr>,
        ghost e: SqlExpr)
      returns (r: Outcome<nat>)
      requires Valid() && HoldsAll(ids, [first] + args)
      requires IsJunctionOf(op, first, args, e)
      modifies outGraph
      ensures Valid() && Grown()
      ensures r.Done? && Holds(r.value, e) && Added(if args == [] then 0 else 1)
    {
      if |ids| == 1 {
        assert Holds(ids[0], ([first] + args)[0]);
        LoweredSame(outGraph.View(), outGraph.ConstantPools(), exprVarContext, ids[0], first, e);
        return Done(ids[0]);
      }
      forall scope: Scope, m: Interp
        ensures Apply(Plain(NODE_NONE, op, Any), MeaningAll([first] + args, scope, m), m) == Meaning(e, scope, m)
      {
        SeveralMeaning(op, first, args, e, scope, m);
      }
      var n := AppendLoweredNode(NODE_NONE, op, Any, ids, [first] + args, e);
      r := Done(n);
    }

    /**
     The compiler is correct: it only appends, keeps parents after children, succeeds exactly on the
     expressions whose names are known and whose numbers fit, and then returns a node that denotes
     what SQL says the expression means.
     */
    method Visit(e: SqlExpr) returns (r: Outcome<nat>)
      requires Valid() && Parsed(e)
      modifies outGraph
      ensures Valid() && Grown()
      ensures r.Done? <==> Accepts(e)
      ensures r.Done? ==> Holds(r.value, e) && Added(NodeCount(e))
      decreases e, 4
    {
      match e
      case StringLiteral(_) => r := VisitLiteralExpr(e);
      case IntLiteral(_) => r := VisitLiteralExpr(e);
      case FloatLiteral(_) => r := VisitLiteralExpr(e);
      case NullLiteral => r := VisitLiteralExpr(e);
      case TrueLiteral => r := VisitLiteralExpr(e);
      case FalseLiteral => r := VisitLiteralExpr(e);
      case ColumnRef(_, _) => r := VisitColumnExpr(e);
      case Paren(inside) =>
        r := Visit(inside);
        if r.Done? {
          LoweredSame(outGraph.View(), outGraph.ConstantPools(), exprVarContext, r.value, inside, e);
        }
      case MulDiv(_, _, _) => r := VisitMulDivExpr(e);
      case AddSub(_, _, _) => r := VisitAddSubExpr(e);
      case NotExpr(_, _) => r := VisitNotExpr(e);
      case LikeExpr(_, _, _) => r := VisitLikeExpr(e);
      case BetweenExpr(_, _, _, _) => r := VisitBetweenExpr(e);
      case ComparisonExpr(_, _, _) => r := VisitComparisonExpr(e);
      case AndExpr(_, _) => r := VisitAndExpr(e);
      case XorExpr(_, _) => r := VisitXorExpr(e);
      case OrExpr(_, _) => r := VisitOrExpr(e);
    }
  }

  lemma LoweredSame(g: Graph, p: Pools, context: map<string, nat>, n: nat, d: SqlExpr, e: SqlExpr)
    requires Lowered(g, p, context, n, d)
    requires forall scope: Scope, m: Interp :: Meaning(d, scope, m) == Meaning(e, scope, m)
    ensures Lowered(g, p, context, n, e)
  {
  }

  /** The two comparisons a BETWEEN is lowered to. */
  function Bounds(e: SqlExpr): seq<SqlExpr>
    requires e.BetweenExpr?
  {
    [ComparisonExpr(e.lower, ["<="], [e.left]), ComparisonExpr(e.left, ["<="], [e.upper])]
  }

  lemma BoundsValue(lo: Val, v: Val, hi: Val)
    ensures AllOf([Compare(IsAtMost, lo, v), Compare(IsAtMost, v, hi)])
            == And2(Compare(IsAtLeast, v, lo), Compare(IsAtMost, v, hi))
  {
    var vs := [Compare(IsAtMost, lo, v), Compare(IsAtMost, v, hi)];
    assert vs[1..] == [vs[1]];
    SingleMeaning(vs[1]);
  }

  lemma BoundsMeaning(e: SqlExpr, scope: Scope, m: Interp)
    requires e.BetweenExpr?
    ensures var lo, v, hi := Meaning(e.lower, scope, m), Meaning(e.left, scope, m), Meaning(e.upper, scope, m);
            MeaningAll(Bounds(e), scope, m) == [Compare(IsAtMost, lo, v), Compare(IsAtMost, v, hi)]
  {
    PairMeaning(Bounds(e)[0], Bounds(e)[1], scope, m);
    LinkMeaning(e.lower, "<=", e.left, scope, m);
    LinkMeaning(e.left, "<=", e.upper, scope, m);
  }

  lemma JunctionMeaning(negated: bool, vs: seq<Val>, m: Interp)
    ensures Apply(Plain(NODE_NONE, if negated then Nand else And, Any), vs, m)
            == if negated then Not3(AllOf(vs)) else AllOf(vs)
  {
  }

  lemma MeaningOfBetween(e: SqlExpr, scope: Scope, m: Interp)
    requires e.BetweenExpr?
    ensures var lo, v, hi := Meaning(e.lower, scope, m), Meaning(e.left, scope, m), Meaning(e.upper, scope, m);
            var within := And2(Compare(IsAtLeast, v, lo), Compare(IsAtMost, v, hi));
            Meaning(e, scope, m) == if e.negated then Not3(within) else within
  {
  }

  lemma BetweenMeaning(e: SqlExpr, scope: Scope, m: Interp)
    requires e.BetweenExpr?
    ensures Apply(Plain(NODE_NONE, if e.negated then Nand else And, Any), MeaningAll(Bounds(e), scope, m), m)
            == Meaning(e, scope, m)
  {
    var lo, v, hi := Meaning(e.lower, scope, m), Meaning(e.left, scope, m), Meaning(e.upper, scope, m);
    var vs := [Compare(IsAtMost, lo, v), Compare(IsAtMost, v, hi)];
    assert MeaningAll(Bounds(e), scope, m) == vs by { BoundsMeaning(e, scope, m); }
    JunctionMeaning(e.negated, vs, m);
    BoundsValue(lo, v, hi);
    MeaningOfBetween(e, scope, m);
  }

  /**
   What `Lowered` says of a whole compilation: read with its own constants, the node has the value SQL
   gives the expression.
   */
  lemma LoweredDen(g: Graph, p: Pools, context: map<string, nat>, n: nat, e: SqlExpr, scope: Scope, m: Interp)
    requires Topological(g) && ContextInRange(context, g)
    requires Lowered(g, p, context, n, e) && m.pools == p
    requires forall x :: x in context ==> x in scope && (TopologicalWellFormed(g); Den(g, context[x], m) == scope[x])
    ensures WellFormed(g) && Den(g, n, m) == Meaning(e, scope, m)
  {
    TopologicalWellFormed(g);
    forall x | x in context
      ensures Denotes(g, context[x], scope[x], m)
    {
      DenotesIsDen(g, context[x], scope[x], m);
    }
    assert InScope(g, context, scope, m);
    DenotesIsDen(g, n, Meaning(e, scope, m), m);
  }
}
