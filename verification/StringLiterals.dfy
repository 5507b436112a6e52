/** Decoding the text between the quotes of an SQL string literal, byte by byte. */
module StringLiterals {
  import opened SqlValues

  // The bytes with a role in literals, by their ASCII codes.
  const QUOTE: Byte := 39
  const DOUBLE_QUOTE: Byte := 34
  const BACKSLASH: Byte := 92
  const DIGIT_0: Byte := 48
  const DIGIT_7: Byte := 55
  const DIGIT_9: Byte := 57
  const UPPER_A: Byte := 65
  const UPPER_F: Byte := 70
  const UPPER_X: Byte := 88
  const LOWER_A: Byte := 97
  const LOWER_F: Byte := 102
  const LOWER_N: Byte := 110
  const LOWER_R: Byte := 114
  const LOWER_T: Byte := 116
  const LOWER_X: Byte := 120
  const NEWLINE: Byte := 10
  const TAB: Byte := 9
  const RETURN: Byte := 13

  predicate IsHexDigit(c: Byte) {
    || DIGIT_0 <= c <= DIGIT_9
    || UPPER_A <= c <= UPPER_F
    || LOWER_A <= c <= LOWER_F
  }

  function HexValue(c: Byte): (v: nat)
    requires IsHexDigit(c)
    ensures v < 16
  {
    if c <= DIGIT_9 then c - DIGIT_0
    else if c <= UPPER_F then c - UPPER_A + 10
    else c - LOWER_A + 10
  }

  predicate IsOctalDigit(c: Byte) {
    DIGIT_0 <= c <= DIGIT_7
  }

  /** The hexadecimal digits and their values, in numbers. */
  lemma HexDigitsAre(c: Byte)
    ensures IsHexDigit(c) <==> 48 <= c <= 57 || 65 <= c <= 70 || 97 <= c <= 102
    ensures 48 <= c <= 57 ==> HexValue(c) == c - 48
    ensures 65 <= c <= 70 ==> HexValue(c) == c - 55
    ensures 97 <= c <= 102 ==> HexValue(c) == c - 87
  {
  }

  /** How many of the first three bytes are octal digits, up to the first that is not. */
  function OctalCount(s: seq<Byte>): (k: nat)
    ensures k <= 3 && k <= |s|
    ensures forall i :: 0 <= i < k ==> IsOctalDigit(s[i])
    ensures k < 3 && k < |s| ==> !IsOctalDigit(s[k])
  {
    if |s| == 0 || !IsOctalDigit(s[0]) then 0
    else if |s| == 1 || !IsOctalDigit(s[1]) then 1
    else if |s| == 2 || !IsOctalDigit(s[2]) then 2
    else 3
  }

  function OctalValue(s: seq<Byte>): nat
    requires forall i :: 0 <= i < |s| ==> IsOctalDigit(s[i])
  {
    if s == [] then 0
    else
      var last := s[|s| - 1];
      assert IsOctalDigit(last);
      8 * OctalValue(s[..|s| - 1]) + (last - DIGIT_0)
  }

  /** What the byte after a backslash that starts no hexadecimal or octal escape stands for. */
  function SimpleEscape(c: Byte): seq<Byte> {
    if c == LOWER_N then [NEWLINE]
    else if c == LOWER_T then [TAB]
    else if c == LOWER_R then [RETURN]
    else if c in {BACKSLASH, QUOTE, DOUBLE_QUOTE} then [c]
    else [BACKSLASH, c]
  }

  /** The first unit of a literal: how many bytes it takes, and the bytes it stands for. */
  function FirstUnit(s: seq<Byte>): (u: (nat, seq<Byte>))
    requires s != []
    ensures 1 <= u.0 <= |s| && |u.1| <= u.0
  {
    if s[0] == QUOTE && |s| >= 2 && s[1] == QUOTE then (2, [QUOTE])
    else if s[0] == BACKSLASH && |s| >= 2 then
      if s[1] in {LOWER_X, UPPER_X} && |s| >= 4 && IsHexDigit(s[2]) && IsHexDigit(s[3]) then
        (4, [16 * HexValue(s[2]) + HexValue(s[3])])
      else if IsOctalDigit(s[1]) then
        var k := OctalCount(s[1..]);
        (1 + k, [OctalValue(s[1..1 + k]) % 256])
      else (2, SimpleEscape(s[1]))
    else (1, [s[0]])
  }

  /** The bytes a literal stands for.  It is never longer than the literal. */
  function Unescape(s: seq<Byte>): (r: seq<Byte>)
    ensures |r| <= |s|
    decreases |s|
  {
    if s == [] then [] else FirstUnit(s).1 + Unescape(s[FirstUnit(s).0..])
  }

  /** Up to three octal digits from index `start` on, and how many there were. */
  method ReadOctal(rawInput: seq<Byte>, start: nat) returns (value: nat, count: nat)
    requires start <= |rawInput|
    ensures count == OctalCount(rawInput[start..])
    ensures value == OctalValue(rawInput[start..][..count])
  {
    ghost var digits := rawInput[start..];
    value, count := 0, 0;
    while count < 3 && start + count < |rawInput| && IsOctalDigit(rawInput[start + count])
      invariant count <= OctalCount(digits)
      invariant value == OctalValue(digits[..count])
    {
      assert digits[count] == rawInput[start + count];
      assert digits[..count + 1][..count] == digits[..count];
      value := value * 8 + (rawInput[start + count] - DIGIT_0);
      count := count + 1;
    }
    assert count < |digits| ==> digits[count] == rawInput[start + count];
  }

  method ReadSimpleEscape(c: Byte) returns (bytes: seq<Byte>)
    ensures bytes == SimpleEscape(c)
  {
    if c == LOWER_N { bytes := [NEWLINE]; }
    else if c == LOWER_T { bytes := [TAB]; }
    else if c == LOWER_R { bytes := [RETURN]; }
    else if c == BACKSLASH || c == QUOTE || c == DOUBLE_QUOTE { bytes := [c]; }
    else { bytes := [BACKSLASH, c]; }
  }

  /** One turn of the loop of the decoder: the unit at index `start`, and the index after it. */
  method ReadUnit(rawInput: seq<Byte>, start: nat) returns (bytes: seq<Byte>, i: nat)
    requires start < |rawInput|
    ensures FirstUnit(rawInput[start..]) == (i - start, bytes) && start < i
  {
    ghost var rest := rawInput[start..];
    i := start;
    if rawInput[i] == QUOTE && i + 1 < |rawInput| && rawInput[i + 1] == QUOTE {
      UnitOfQuote(rest);
      bytes, i := [QUOTE], i + 2;
    } else if rawInput[i] == BACKSLASH && i + 1 < |rawInput| {
      var nextChar := rawInput[i + 1];
      if nextChar in {LOWER_X, UPPER_X} && i + 3 < |rawInput|
         && IsHexDigit(rawInput[i + 2]) && IsHexDigit(rawInput[i + 3]) {
        UnitOfHex(rest);
        bytes, i := [16 * HexValue(rawInput[i + 2]) + HexValue(rawInput[i + 3])], i + 4;
      } else if IsOctalDigit(nextChar) {
        var octalValue, count := ReadOctal(rawInput, i + 1);
        UnitOfOctal(rest);
        assert rest[1..] == rawInput[i + 1..] && rest[1..1 + count] == rawInput[i + 1..][..count];
        bytes, i := [octalValue % 256], i + 1 + count;
      } else {
        UnitOfSimple(rest);
        bytes := ReadSimpleEscape(nextChar);
        i := i + 2;
      }
    } else {
      UnitOfPlain(rest);
      bytes, i := [rawInput[i]], i + 1;
    }
  }

  /** The decoder, walking an index over the literal. */
  method UnescapeSqlString(rawInput: seq<Byte>) returns (result: seq<Byte>)
    ensures result == Unescape(rawInput)
  {
    result := [];
    var i := 0;
    while i < |rawInput|
      invariant 0 <= i <= |rawInput|
      invariant Unescape(rawInput) == result + Unescape(rawInput[i..])
    {
      var bytes, next := ReadUnit(rawInput, i);
      UnescapeStep(rawInput, i, result, bytes, next);
      result := result + bytes;
      i := next;
    }
    assert rawInput[i..] == [];
  }

  lemma UnitOfQuote(s: seq<Byte>)
    requires |s| >= 2 && s[0] == QUOTE && s[1] == QUOTE
    ensures FirstUnit(s) == (2, [QUOTE])
  {
  }

  lemma UnitOfHex(s: seq<Byte>)
    requires |s| >= 4 && s[0] == BACKSLASH && s[1] in {LOWER_X, UPPER_X} && IsHexDigit(s[2]) && IsHexDigit(s[3])
    ensures FirstUnit(s) == (4, [16 * HexValue(s[2]) + HexValue(s[3])])
  {
  }

  lemma UnitOfOctal(s: seq<Byte>)
    requires |s| >= 2 && s[0] == BACKSLASH && IsOctalDigit(s[1])
    ensures var k := OctalCount(s[1..]); FirstUnit(s) == (1 + k, [OctalValue(s[1..1 + k]) % 256])
  {
  }

  lemma UnitOfSimple(s: seq<Byte>)
    requires |s| >= 2 && s[0] == BACKSLASH && !IsOctalDigit(s[1])
    requires !(s[1] in {LOWER_X, UPPER_X} && |s| >= 4 && IsHexDigit(s[2]) && IsHexDigit(s[3]))
    ensures FirstUnit(s) == (2, SimpleEscape(s[1]))
  {
  }

  lemma UnitOfPlain(s: seq<Byte>)
    requires s != [] && !(|s| >= 2 && s[0] == QUOTE && s[1] == QUOTE) && !(|s| >= 2 && s[0] == BACKSLASH)
    ensures FirstUnit(s) == (1, [s[0]])
  {
  }

  lemma UnescapeStep(rawInput: seq<Byte>, i: nat, result: seq<Byte>, bytes: seq<Byte>, next: nat)
    requires i < |rawInput| && Unescape(rawInput) == result + Unescape(rawInput[i..])
    requires FirstUnit(rawInput[i..]) == (next - i, bytes) && i < next
    ensures next <= |rawInput| && Unescape(rawInput) == (result + bytes) + Unescape(rawInput[next..])
  {
    UnescapeCons(rawInput[i..]);
    SliceOfSlice(rawInput, i, next);
    Associate(result, bytes, Unescape(rawInput[next..]));
  }

  lemma SliceOfSlice(s: seq<Byte>, i: nat, j: nat)
    requires i <= j <= |s|
    ensures s[i..][j - i..] == s[j..]
  {
  }

  lemma UnescapeCons(s: seq<Byte>)
    requires s != []
    ensures var unit := FirstUnit(s); unit.0 <= |s| && Unescape(s) == unit.1 + Unescape(s[unit.0..])
  {
  }

  lemma Associate(a: seq<Byte>, b: seq<Byte>, c: seq<Byte>)
    ensures a + (b + c) == (a + b) + c
  {
  }

  // ---------------------------------------------------------------- the round trip

  datatype Encoding = Raw | Doubled | CStyle | Hex(upper: bool, upperX: bool) | Octal

  /** Whether a byte can be written in the given way. */
  predicate Encodable(b: Byte, how: Encoding) {
    match how
    case Raw => b != QUOTE && b != BACKSLASH
    case Doubled => b == QUOTE
    case CStyle => b in {NEWLINE, TAB, RETURN, BACKSLASH, QUOTE, DOUBLE_QUOTE}
    case _ => true
  }

  function HexDigit(v: nat, upper: bool): Byte
    requires v < 16
  {
    if v < 10 then DIGIT_0 + v else (if upper then UPPER_A else LOWER_A) + v - 10
  }

  function EncodeByte(b: Byte, how: Encoding): seq<Byte>
    requires Encodable(b, how)
  {
    match how
    case Raw => [b]
    case Doubled => [QUOTE, QUOTE]
    case CStyle =>
      [BACKSLASH, if b == NEWLINE then LOWER_N else if b == TAB then LOWER_T else if b == RETURN then LOWER_R else b]
    case Hex(upper, upperX) =>
      [BACKSLASH, if upperX then UPPER_X else LOWER_X, HexDigit(b / 16, upper), HexDigit(b % 16, upper)]
    case Octal => [BACKSLASH, DIGIT_0 + b / 64, DIGIT_0 + b / 8 % 8, DIGIT_0 + b % 8]
  }

  predicate AllEncodable(bytes: seq<Byte>, hows: seq<Encoding>) {
    && |bytes| == |hows|
    && forall i :: 0 <= i < |bytes| ==> Encodable(bytes[i], hows[i])
  }

  function Encode(bytes: seq<Byte>, hows: seq<Encoding>): seq<Byte>
    requires AllEncodable(bytes, hows)
  {
    if bytes == [] then [] else EncodeByte(bytes[0], hows[0]) + Encode(bytes[1..], hows[1..])
  }

  lemma OctalValueOfThree(s: seq<Byte>)
    requires |s| == 3 && forall i :: 0 <= i < 3 ==> IsOctalDigit(s[i])
    ensures OctalValue(s) == 64 * (s[0] - DIGIT_0) + 8 * (s[1] - DIGIT_0) + (s[2] - DIGIT_0)
  {
    assert s[..2][..1] == [s[0]] && s[..2][1] == s[1];
    assert OctalValue([s[0]]) == 8 * OctalValue([]) + (s[0] - DIGIT_0) by { assert [s[0]][..0] == []; }
    assert OctalValue(s[..2]) == 8 * OctalValue([s[0]]) + (s[1] - DIGIT_0);
  }

  lemma HexDigitRead(v: nat, upper: bool)
    requires v < 16
    ensures IsHexDigit(HexDigit(v, upper)) && HexValue(HexDigit(v, upper)) == v
  {
  }

  lemma OctalRead(b: Byte, rest: seq<Byte>)
    ensures FirstUnit(EncodeByte(b, Octal) + rest) == (4, [b])
  {
    var digits: seq<Byte> := [DIGIT_0 + b / 64, DIGIT_0 + b / 8 % 8, DIGIT_0 + b % 8];
    assert EncodeByte(b, Octal) == [BACKSLASH] + digits;
    OctalPieceRead(digits, rest);
    OctalByteOf(b, digits);
  }

  lemma OctalByteOf(b: Byte, digits: seq<Byte>)
    requires digits == [DIGIT_0 + b / 64, DIGIT_0 + b / 8 % 8, DIGIT_0 + b % 8]
    ensures PieceOk(OctalDigits(digits)) && OctalByte(digits) == b
  {
    assert b == 64 * (b / 64) + 8 * (b / 8 % 8) + b % 8;
  }

  lemma HexRead(b: Byte, upper: bool, upperX: bool, rest: seq<Byte>)
    ensures FirstUnit(EncodeByte(b, Hex(upper, upperX)) + rest) == (4, [b])
  {
    HexDigitRead(b / 16, upper);
    HexDigitRead(b % 16, upper);
    UnitOfHex(EncodeByte(b, Hex(upper, upperX)) + rest);
  }

  /** An encoded byte is read back as one unit, whatever follows it. */
  lemma FirstUnitOfEncoded(b: Byte, how: Encoding, rest: seq<Byte>)
    requires Encodable(b, how)
    ensures FirstUnit(EncodeByte(b, how) + rest) == (|EncodeByte(b, how)|, [b])
  {
    var s := EncodeByte(b, how) + rest;
    match how
    case Octal => OctalRead(b, rest);
    case Hex(upper, upperX) => HexRead(b, upper, upperX, rest);
    case Raw => UnitOfPlain(s);
    case Doubled => UnitOfQuote(s);
    case CStyle => UnitOfSimple(s);
  }

  /** Decoding undoes every encoding, whichever way each byte was written. */
  lemma {:induction false} UnescapeEncode(bytes: seq<Byte>, hows: seq<Encoding>)
    requires AllEncodable(bytes, hows)
    ensures Unescape(Encode(bytes, hows)) == bytes
  {
    if bytes != [] {
      var code, rest := EncodeByte(bytes[0], hows[0]), Encode(bytes[1..], hows[1..]);
      FirstUnitOfEncoded(bytes[0], hows[0], rest);
      assert (code + rest)[|code|..] == rest;
      UnescapeEncode(bytes[1..], hows[1..]);
    }
  }

  // ---------------------------------------------------------------- every literal, piece by piece

  /** The ways to write something in a literal. */
  datatype Piece =
    | OneByte(b: Byte)
    | QuotePair
    | LoneQuote
    | Named(c: Byte)
    | HexPair(high: Byte, low: Byte, upperX: bool)
    | OctalDigits(digits: seq<Byte>)
    | NoEscape(c: Byte)
    | BareX(upperX: bool)
    | LastBackslash

  predicate PieceOk(p: Piece) {
    match p
    case OneByte(b) => b != QUOTE && b != BACKSLASH
    case Named(c) => c in {LOWER_N, LOWER_T, LOWER_R, BACKSLASH, QUOTE, DOUBLE_QUOTE}
    case HexPair(high, low, _) => IsHexDigit(high) && IsHexDigit(low)
    case OctalDigits(digits) => 1 <= |digits| <= 3 && forall i :: 0 <= i < |digits| ==> DIGIT_0 <= digits[i] <= DIGIT_7
    case NoEscape(c) =>
      && c !in {LOWER_N, LOWER_T, LOWER_R, BACKSLASH, QUOTE, DOUBLE_QUOTE, LOWER_X, UPPER_X}
      && !(DIGIT_0 <= c <= DIGIT_7)
    case _ => true
  }

  function Written(p: Piece): seq<Byte> {
    match p
    case OneByte(b) => [b]
    case QuotePair => [QUOTE, QUOTE]
    case LoneQuote => [QUOTE]
    case Named(c) => [BACKSLASH, c]
    case HexPair(high, low, upperX) => [BACKSLASH, if upperX then UPPER_X else LOWER_X, high, low]
    case OctalDigits(digits) => [BACKSLASH] + digits
    case NoEscape(c) => [BACKSLASH, c]
    case BareX(upperX) => [BACKSLASH, if upperX then UPPER_X else LOWER_X]
    case LastBackslash => [BACKSLASH]
  }

  /** What may follow a piece: a lone quote, a bare x and a short octal number would otherwise be read on. */
  predicate MayPrecede(p: Piece, rest: seq<Byte>) {
    match p
    case LoneQuote => rest == [] || rest[0] != QUOTE
    case OctalDigits(digits) => |digits| == 3 || rest == [] || !(DIGIT_0 <= rest[0] <= DIGIT_7)
    case BareX(_) => !(|rest| >= 2 && IsHexDigit(rest[0]) && IsHexDigit(rest[1]))
    case LastBackslash => rest == []
    case _ => true
  }

  function DigitValue(c: Byte): int {
    c - 48
  }

  /** The number octal digits are, kept within a byte. */
  function OctalByte(digits: seq<Byte>): Byte
    requires PieceOk(OctalDigits(digits))
  {
    var v :=
      if |digits| == 1 then DigitValue(digits[0])
      else if |digits| == 2 then 8 * DigitValue(digits[0]) + DigitValue(digits[1])
      else 64 * DigitValue(digits[0]) + 8 * DigitValue(digits[1]) + DigitValue(digits[2]);
    if v >= 256 then v - 256 else v
  }

  /** What a piece stands for.  A backslash that starts no escape is kept, with the byte after it. */
  function StandsFor(p: Piece): seq<Byte>
    requires PieceOk(p)
  {
    match p
    case OneByte(b) => [b]
    case QuotePair => [39]
    case LoneQuote => [39]
    case Named(c) => [if c == 110 then 10 else if c == 116 then 9 else if c == 114 then 13 else c]
    case HexPair(high, low, _) => [16 * HexValue(high) + HexValue(low)]
    case OctalDigits(digits) => [OctalByte(digits)]
    case NoEscape(c) => [92, c]
    case BareX(upperX) => [92, if upperX then 88 else 120]
    case LastBackslash => [92]
  }

  lemma OctalValueOfTwo(s: seq<Byte>)
    requires |s| == 2 && IsOctalDigit(s[0]) && IsOctalDigit(s[1])
    ensures OctalValue(s) == 8 * (s[0] - DIGIT_0) + (s[1] - DIGIT_0)
  {
    OctalValueOfOne(s[..1]);
  }

  lemma OctalValueOfOne(s: seq<Byte>)
    requires |s| == 1 && IsOctalDigit(s[0])
    ensures OctalValue(s) == s[0] - DIGIT_0
  {
    assert s[..0] == [] && OctalValue([]) == 0;
  }

  lemma OctalPieceRead(digits: seq<Byte>, rest: seq<Byte>)
    requires PieceOk(OctalDigits(digits)) && MayPrecede(OctalDigits(digits), rest)
    ensures FirstUnit([BACKSLASH] + digits + rest) == (1 + |digits|, [OctalByte(digits)])
  {
    var s := [BACKSLASH] + digits + rest;
    var t := s[1..];
    assert t == digits + rest;
    assert OctalCount(t) == |digits| by {
      assert forall i :: 0 <= i < |digits| ==> IsOctalDigit(t[i]);
      assert |digits| < 3 && rest != [] ==> t[|digits|] == rest[0];
    }
    UnitOfOctal(s);
    assert s[1..1 + |digits|] == digits;
    if |digits| == 1 {
      OctalValueOfOne(digits);
    } else if |digits| == 2 {
      OctalValueOfTwo(digits);
    } else {
      OctalValueOfThree(digits);
    }
  }

  /** A piece is read as one unit, whatever may follow it. */
  lemma FirstUnitOfPiece(p: Piece, rest: seq<Byte>)
    requires PieceOk(p) && MayPrecede(p, rest)
    ensures FirstUnit(Written(p) + rest) == (|Written(p)|, StandsFor(p))
  {
    var s := Written(p) + rest;
    match p
    case OctalDigits(digits) => OctalPieceRead(digits, rest);
    case HexPair(_, _, _) => UnitOfHex(s);
    case QuotePair => UnitOfQuote(s);
    case Named(_) => UnitOfSimple(s);
    case NoEscape(_) => UnitOfSimple(s);
    case BareX(_) =>
      assert |s| >= 4 ==> s[2] == rest[0] && s[3] == rest[1];
      UnitOfSimple(s);
    case OneByte(_) => UnitOfPlain(s);
    case LoneQuote =>
      assert |s| >= 2 ==> s[1] == rest[0];
      UnitOfPlain(s);
    case LastBackslash => UnitOfPlain(s);
  }

  function TextOf(ps: seq<Piece>): seq<Byte> {
    if ps == [] then [] else Written(ps[0]) + TextOf(ps[1..])
  }

  predicate AllOk(ps: seq<Piece>) {
    ps != [] ==> PieceOk(ps[0]) && MayPrecede(ps[0], TextOf(ps[1..])) && AllOk(ps[1..])
  }

  function AllStandFor(ps: seq<Piece>): seq<Byte>
    requires AllOk(ps)
  {
    if ps == [] then [] else StandsFor(ps[0]) + AllStandFor(ps[1..])
  }

  /** A literal decodes to what its pieces stand for. */
  lemma {:induction false} UnescapePieces(ps: seq<Piece>)
    requires AllOk(ps)
    ensures Unescape(TextOf(ps)) == AllStandFor(ps)
  {
    if ps != [] {
      var code, rest := Written(ps[0]), TextOf(ps[1..]);
      FirstUnitOfPiece(ps[0], rest);
      assert (code + rest)[|code|..] == rest;
      UnescapePieces(ps[1..]);
    }
  }

  /** One piece at a time: what it stands for comes out, whatever may follow it. */
  lemma UnescapePiece(p: Piece, rest: seq<Byte>)
    requires PieceOk(p) && MayPrecede(p, rest)
    ensures Unescape(Written(p) + rest) == StandsFor(p) + Unescape(rest)
  {
    FirstUnitOfPiece(p, rest);
    assert (Written(p) + rest)[|Written(p)|..] == rest;
  }

  /**
   A backslash is kept, with the byte after it, before any byte but n, t, r, x, X, a backslash, the two
   quotes and the digits 0 to 7; and at the end.
   */
  lemma BackslashKept(c: Byte, rest: seq<Byte>)
    requires c !in {110, 116, 114, 120, 88, 92, 39, 34} && !(48 <= c <= 55)
    ensures Unescape([92, c] + rest) == [92, c] + Unescape(rest)
    ensures Unescape([92]) == [92]
  {
    UnescapePiece(NoEscape(c), rest);
    UnescapePiece(LastBackslash, []);
    assert [92] + [] == [92 as Byte];
  }

  function PieceOf(s: seq<Byte>): Piece
    requires s != []
  {
    if s[0] == QUOTE then if |s| >= 2 && s[1] == QUOTE then QuotePair else LoneQuote
    else if s[0] != BACKSLASH then OneByte(s[0])
    else if |s| == 1 then LastBackslash
    else EscapeOf(s)
  }

  function EscapeOf(s: seq<Byte>): Piece
    requires |s| >= 2
  {
    var c := s[1];
    if c in {LOWER_X, UPPER_X} then
      if |s| >= 4 && IsHexDigit(s[2]) && IsHexDigit(s[3]) then HexPair(s[2], s[3], c == UPPER_X)
      else BareX(c == UPPER_X)
    else if IsOctalDigit(c) then OctalDigits(s[1..1 + OctalCount(s[1..])])
    else if c in {LOWER_N, LOWER_T, LOWER_R, BACKSLASH, QUOTE, DOUBLE_QUOTE} then Named(c)
    else NoEscape(c)
  }

  lemma OctalSplits(s: seq<Byte>)
    requires |s| >= 2 && s[0] == BACKSLASH && IsOctalDigit(s[1])
    ensures var k := OctalCount(s[1..]);
            && 1 <= k < |s| && PieceOk(OctalDigits(s[1..1 + k])) && s[..1 + k] == [BACKSLASH] + s[1..1 + k]
            && MayPrecede(OctalDigits(s[1..1 + k]), s[1 + k..])
  {
    var t := s[1..];
    var k := OctalCount(t);
    assert t[..k] == s[1..1 + k];
    assert k < |t| ==> s[1 + k..][0] == t[k];
  }

  lemma PieceSplits(s: seq<Byte>) returns (rest: seq<Byte>)
    requires s != []
    ensures s == Written(PieceOf(s)) + rest && PieceOk(PieceOf(s)) && MayPrecede(PieceOf(s), rest)
  {
    var p := PieceOf(s);
    rest := s[|Written(p)|..];
    if p.OctalDigits? {
      OctalSplits(s);
    }
    assert s[..|Written(p)|] == Written(p);
  }

  /** Every literal is made of such pieces; so this says of every literal what it decodes to. */
  lemma {:induction false} EveryTextHasPieces(s: seq<Byte>) returns (ps: seq<Piece>)
    ensures AllOk(ps) && TextOf(ps) == s && Unescape(s) == AllStandFor(ps)
    decreases |s|
  {
    if s == [] {
      ps := [];
    } else {
      var rest := PieceSplits(s);
      var more := EveryTextHasPieces(rest);
      ps := [PieceOf(s)] + more;
      assert ps[1..] == more;
    }
    UnescapePieces(ps);
  }
}
