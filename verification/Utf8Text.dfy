// pb_validate_utf8 against the grammar of UTF-8, and the encoder of the JSON parser against the same.
module Utf8Text {
  import opened Bytes
  import JsonStrings

  // --- Section 4 of RFC 3629

  predicate Tail(b: byte) { 0x80 <= b <= 0xBF }

  predicate Utf8Char(c: seq<byte>) {
    match |c|
    case 1 => c[0] <= 0x7F
    case 2 => 0xC2 <= c[0] <= 0xDF && Tail(c[1])
    case 3 =>
      && Tail(c[2])
      && ((c[0] == 0xE0 && 0xA0 <= c[1] <= 0xBF)
          || (0xE1 <= c[0] <= 0xEC && Tail(c[1]))
          || (c[0] == 0xED && 0x80 <= c[1] <= 0x9F)
          || (0xEE <= c[0] <= 0xEF && Tail(c[1])))
    case 4 =>
      && Tail(c[2]) && Tail(c[3])
      && ((c[0] == 0xF0 && 0x90 <= c[1] <= 0xBF)
          || (0xF1 <= c[0] <= 0xF3 && Tail(c[1]))
          || (c[0] == 0xF4 && 0x80 <= c[1] <= 0x8F))
    case _ => false
  }

  // Some division of s into characters exists.
  ghost predicate Utf8Octets(s: seq<byte>) {
    s == [] || exists n | 1 <= n <= |s| :: Utf8Char(s[..n]) && Utf8Octets(s[n..])
  }

  // The bytes of U+FFFE or U+FFFF stand somewhere in s.
  predicate NoncharacterAt(s: seq<byte>, i: nat) {
    i + 3 <= |s| && s[i] == 0xEF && s[i + 1] == 0xBF && s[i + 2] >= 0xBE && s[i + 2] <= 0xBF
  }

  ghost predicate Acceptable(s: seq<byte>) {
    Utf8Octets(s) && forall i: nat :: !NoncharacterAt(s, i)
  }

  // The length of a character by its first byte.
  function LengthByFirst(b: byte): nat {
    if b < 0x80 then 1 else if b / 0x20 == 6 then 2 else if b / 0x10 == 14 then 3 else if b / 8 == 30 then 4 else 0
  }

  lemma FirstTellsLength(c: seq<byte>)
    requires Utf8Char(c)
    ensures |c| == LengthByFirst(c[0])
    ensures forall i | 1 <= i < |c| :: Tail(c[i])
  {
  }

  // A text starts with exactly one character, and goes on as a text.
  lemma FirstChar(s: seq<byte>, n: nat)
    requires s != [] && n == LengthByFirst(s[0])
    ensures Utf8Octets(s) <==> 1 <= n <= |s| && Utf8Char(s[..n]) && Utf8Octets(s[n..])
  {
    hide Utf8Char, LengthByFirst;
    if Utf8Octets(s) {
      var k :| 1 <= k <= |s| && Utf8Char(s[..k]) && Utf8Octets(s[k..]);
      FirstTellsLength(s[..k]);
    }
  }

  lemma NoncharacterFirst(s: seq<byte>, n: nat)
    requires 1 <= n <= |s| && Utf8Char(s[..n])
    ensures (forall i: nat :: !NoncharacterAt(s, i))
      <==> !NoncharacterAt(s, 0) && forall i: nat :: !NoncharacterAt(s[n..], i)
  {
    FirstTellsLength(s[..n]);
    assert forall i | 1 <= i < n :: s[i] == s[..n][i];
    hide Utf8Char;
    if !NoncharacterAt(s, 0) && forall i: nat :: !NoncharacterAt(s[n..], i) {
      forall i: nat ensures !NoncharacterAt(s, i) {
        if i >= n {
          assert !NoncharacterAt(s[n..], i - n);
        }
      }
    }
    if forall i: nat :: !NoncharacterAt(s, i) {
      forall i: nat ensures !NoncharacterAt(s[n..], i) {
        assert !NoncharacterAt(s, n + i);
      }
    }
  }

  lemma OneChar(s: seq<byte>, n: nat)
    requires s != [] && n == LengthByFirst(s[0])
    ensures Acceptable(s) <==> 1 <= n <= |s| && Utf8Char(s[..n]) && !NoncharacterAt(s, 0) && Acceptable(s[n..])
  {
    hide Utf8Char, LengthByFirst, NoncharacterAt;
    FirstChar(s, n);
    if 1 <= n <= |s| && Utf8Char(s[..n]) {
      NoncharacterFirst(s, n);
    }
  }

  // The tests of pb_validate_utf8 on one character, on masked bits. It reads a byte only when those
  // in front of it are not zero.
  method OneCharTests(str: seq<byte>, s: nat) returns (length: nat)
    requires s < |str| && str[s] != 0 && str[|str| - 1] == 0 && forall i | 0 <= i < |str| - 1 :: str[i] != 0
    ensures var n := LengthByFirst(str[s]);
      if 1 <= n < |str| - s && Utf8Char(str[s..s + n]) && !NoncharacterAt(str[s..|str| - 1], 0) then length == n
      else length == 0
  {
    if str[s] < 0x80 {
      return 1;
    } else if str[s] / 0x20 == 6 {
      if str[s + 1] / 0x40 != 2 || str[s] / 2 == 0x60 {
        return 0;
      }
      return 2;
    } else if str[s] / 0x10 == 14 {
      if str[s + 1] / 0x40 != 2 || str[s + 2] / 0x40 != 2
        || (str[s] == 0xE0 && str[s + 1] / 0x20 == 4)
        || (str[s] == 0xED && str[s + 1] / 0x20 == 5)
        || (str[s] == 0xEF && str[s + 1] == 0xBF && str[s + 2] / 2 == 0x5F) {
        return 0;
      }
      return 3;
    } else if str[s] / 8 == 30 {
      if str[s + 1] / 0x40 != 2 || str[s + 2] / 0x40 != 2 || str[s + 3] / 0x40 != 2
        || (str[s] == 0xF0 && str[s + 1] / 0x10 == 8)
        || (str[s] == 0xF4 && str[s + 1] > 0x8F) || str[s] > 0xF4 {
        return 0;
      }
      return 4;
    }
    return 0;
  }

  // pb_validate_utf8 on a zero-terminated string.
  method ValidateUtf8(str: seq<byte>) returns (valid: bool)
    requires str != [] && str[|str| - 1] == 0 && forall i | 0 <= i < |str| - 1 :: str[i] != 0
    ensures valid <==> Acceptable(str[..|str| - 1])
  {
    ghost var text := str[..|str| - 1];
    hide Utf8Char, LengthByFirst, Acceptable, NoncharacterAt;
    var s := 0;
    assert text[0..] == text;
    while str[s] != 0
      invariant 0 <= s < |str|
      invariant Acceptable(text) <==> Acceptable(text[s..])
      decreases |str| - s
    {
      var length := OneCharTests(str, s);
      OneChar(text[s..], LengthByFirst(str[s]));
      assert str[s..|str| - 1] == text[s..];
      if length == 0 {
        Slices(str, s, LengthByFirst(str[s]));
        return false;
      }
      Slices(str, s, length);
      s := s + length;
    }
    NothingLeft(text[s..]);
    valid := true;
  }

  lemma Slices(str: seq<byte>, s: nat, n: nat)
    requires s < |str|
    ensures s + n <= |str| - 1 ==> str[s..s + n] == str[..|str| - 1][s..][..n]
    ensures s + n <= |str| - 1 ==> str[..|str| - 1][s..][n..] == str[..|str| - 1][s + n..]
  {
  }

  lemma NothingLeft(s: seq<byte>)
    requires s == []
    ensures Acceptable(s)
  {
  }

  // --- Section 3 of RFC 3629

  predicate Surrogate(code: nat) { 0xD800 <= code <= 0xDFFF }

  lemma EncodedForms(code: nat)
    requires code <= 0x10_FFFF
    ensures JsonStrings.Utf8(code) ==
      if code < 0x80 then [code]
      else if code < 0x800 then [0xC0 + code / 0x40, 0x80 + code % 0x40]
      else if code < 0x1_0000 then Form3(code / 0x1000, code / 0x40 % 0x40, code % 0x40)
      else Form4(code / 0x4_0000, code / 0x1000 % 0x40, code / 0x40 % 0x40, code % 0x40)
  {
  }

  function Form3(a: nat, b: nat, c: nat): seq<byte>
    requires a < 0x10 && b < 0x40 && c < 0x40
  {
    [0xE0 + a, 0x80 + b, 0x80 + c]
  }

  function Form4(a: nat, b: nat, c: nat, d: nat): seq<byte>
    requires a < 8 && b < 0x40 && c < 0x40 && d < 0x40
  {
    [0xF0 + a, 0x80 + b, 0x80 + c, 0x80 + d]
  }

  // Below these code points a shorter form is due, and surrogates are the codes from 0xD800 on with
  // this first byte.
  lemma Ranges(code: nat)
    ensures 0x800 <= code < 0x1_0000 ==>
      && (code / 0x1000 == 0 ==> code / 0x40 % 0x40 >= 0x20)
      && (Surrogate(code) <==> code / 0x1000 == 13 && code / 0x40 % 0x40 >= 0x20)
    ensures 0x1_0000 <= code <= 0x10_FFFF ==>
      && code / 0x4_0000 <= 4
      && (code / 0x4_0000 == 0 ==> code / 0x1000 % 0x40 >= 0x10)
      && (code / 0x4_0000 == 4 ==> code / 0x1000 % 0x40 < 0x10)
  {
    Sextets(code);
  }

  lemma Sextets(code: nat)
    ensures code == code / 0x40 * 0x40 + code % 0x40
    ensures code / 0x40 == code / 0x1000 * 0x40 + code / 0x40 % 0x40
    ensures code / 0x1000 == code / 0x4_0000 * 0x40 + code / 0x1000 % 0x40
  {
  }

  // What the JSON parser writes for a code point is a character of the grammar, unless the code
  // point is a surrogate.
  lemma EncodedIsChar(code: nat)
    requires code <= 0x10_FFFF
    ensures Utf8Char(JsonStrings.Utf8(code)) <==> !Surrogate(code)
  {
    EncodedForms(code);
    Ranges(code);
    hide JsonStrings.Utf8;
  }

  // Six more bits.
  function Join(bits: nat, tail: byte): nat {
    bits * 0x40 + tail % 0x40
  }

  // The code point of a character.
  function CodePoint(c: seq<byte>): nat
    requires Utf8Char(c)
  {
    match |c|
    case 1 => c[0]
    case 2 => Join(c[0] % 0x20, c[1])
    case 3 => Join(Join(c[0] % 0x10, c[1]), c[2])
    case _ => Join(Join(Join(c[0] % 8, c[1]), c[2]), c[3])
  }

  lemma JoinSplits(bits: nat, tail: byte)
    ensures Join(bits, tail) / 0x40 == bits && Join(bits, tail) % 0x40 == tail % 0x40
    ensures Join(bits, tail) / 0x1000 == bits / 0x40 && Join(bits, tail) / 0x4_0000 == bits / 0x1000
  {
  }

  lemma ThreeBytes(a: nat, b: byte, c: byte)
    requires a < 16 && 0x80 <= b <= 0xBF && 0x80 <= c <= 0xBF && (a == 0 ==> b >= 0xA0)
    ensures var code := Join(Join(a, b), c);
      && 0x800 <= code < 0x1_0000
      && code / 0x1000 == a && 0x80 + code / 0x40 % 0x40 == b && 0x80 + code % 0x40 == c
  {
    JoinSplits(a, b);
    JoinSplits(Join(a, b), c);
    assert Join(a, b) >= 0x20;
    assert Join(a, b) < 0x400;
  }

  lemma FourBytes(a: nat, b: byte, c: byte, d: byte)
    requires a <= 4 && 0x80 <= b <= 0xBF && 0x80 <= c <= 0xBF && 0x80 <= d <= 0xBF
    requires (a == 0 ==> b >= 0x90) && (a == 4 ==> b <= 0x8F)
    ensures var code := Join(Join(Join(a, b), c), d);
      && 0x1_0000 <= code <= 0x10_FFFF
      && code / 0x4_0000 == a && 0x80 + code / 0x1000 % 0x40 == b
      && 0x80 + code / 0x40 % 0x40 == c && 0x80 + code % 0x40 == d
  {
    JoinSplits(a, b);
    JoinSplits(Join(a, b), c);
    JoinSplits(Join(Join(a, b), c), d);
    assert 0x10 <= Join(a, b) < 0x110;
    assert 0x400 <= Join(Join(a, b), c) < 0x4400;
  }

  // Every character of the grammar is the encoding of one code point, and of no other.
  lemma CharIsEncoded(c: seq<byte>)
    requires Utf8Char(c)
    ensures CodePoint(c) <= 0x10_FFFF && JsonStrings.Utf8(CodePoint(c)) == c
  {
    if |c| <= 2 {
      ShortIsEncoded(c);
    } else if |c| == 3 {
      ThreeIsEncoded(c);
    } else {
      FourIsEncoded(c);
    }
  }

  lemma ThreeIsEncoded(c: seq<byte>)
    requires Utf8Char(c) && |c| == 3
    ensures CodePoint(c) <= 0x10_FFFF && JsonStrings.Utf8(CodePoint(c)) == c
  {
    hide JsonStrings.Utf8;
    assert c[0] == 0xE0 + c[0] % 0x10;
    ThreeBytes(c[0] % 0x10, c[1], c[2]);
    assert CodePoint(c) == Join(Join(c[0] % 0x10, c[1]), c[2]);
    hide Join, CodePoint, Utf8Char;
    EncodedForms(CodePoint(c));
  }

  lemma FourIsEncoded(c: seq<byte>)
    requires Utf8Char(c) && |c| == 4
    ensures CodePoint(c) <= 0x10_FFFF && JsonStrings.Utf8(CodePoint(c)) == c
  {
    hide JsonStrings.Utf8;
    assert c[0] == 0xF0 + c[0] % 8;
    FourBytes(c[0] % 8, c[1], c[2], c[3]);
    assert CodePoint(c) == Join(Join(Join(c[0] % 8, c[1]), c[2]), c[3]);
    hide Join, CodePoint, Utf8Char;
    EncodedForms(CodePoint(c));
  }

  lemma ShortIsEncoded(c: seq<byte>)
    requires Utf8Char(c) && |c| <= 2
    ensures CodePoint(c) < 0x800 && JsonStrings.Utf8(CodePoint(c)) == c
  {
    if |c| == 2 {
      JoinSplits(c[0] % 0x20, c[1]);
    }
  }

  lemma JoinTail(bits: nat, b: nat)
    requires b < 0x40
    ensures Join(bits, 0x80 + b) == bits * 0x40 + b
  {
  }

  lemma FirstBits(a: nat)
    ensures a < 0x20 ==> (0xC0 + a) % 0x20 == a
    ensures a < 0x10 ==> (0xE0 + a) % 0x10 == a
    ensures a < 8 ==> (0xF0 + a) % 8 == a
  {
  }

  lemma ReadBack2(a: nat, b: nat)
    requires a < 0x20 && b < 0x40 && Utf8Char([0xC0 + a, 0x80 + b])
    ensures CodePoint([0xC0 + a, 0x80 + b]) == a * 0x40 + b
  {
    hide Utf8Char, Join;
    FirstBits(a);
    JoinTail(a, b);
  }

  lemma ReadBack3(a: nat, b: nat, c: nat)
    requires a < 0x10 && b < 0x40 && c < 0x40 && Utf8Char(Form3(a, b, c))
    ensures CodePoint(Form3(a, b, c)) == (a * 0x40 + b) * 0x40 + c
  {
    hide Utf8Char, Join;
    FirstBits(a);
    JoinTail(a, b);
    JoinTail(a * 0x40 + b, c);
  }

  lemma ReadBack4(a: nat, b: nat, c: nat, d: nat)
    requires a < 8 && b < 0x40 && c < 0x40 && d < 0x40 && Utf8Char(Form4(a, b, c, d))
    ensures CodePoint(Form4(a, b, c, d)) == ((a * 0x40 + b) * 0x40 + c) * 0x40 + d
  {
    hide Utf8Char, Join;
    FirstBits(a);
    JoinTail(a, b);
    JoinTail(a * 0x40 + b, c);
    JoinTail((a * 0x40 + b) * 0x40 + c, d);
  }

  lemma EncodingIsInjective(code: nat)
    requires code <= 0x10_FFFF && !Surrogate(code)
    ensures Utf8Char(JsonStrings.Utf8(code)) && CodePoint(JsonStrings.Utf8(code)) == code
  {
    EncodedIsChar(code);
    EncodedForms(code);
    Sextets(code);
    hide Utf8Char, JsonStrings.Utf8;
    if code >= 0x1_0000 {
      hide CodePoint;
      ReadBack4(code / 0x4_0000, code / 0x1000 % 0x40, code / 0x40 % 0x40, code % 0x40);
    } else if code >= 0x800 {
      hide CodePoint;
      ReadBack3(code / 0x1000, code / 0x40 % 0x40, code % 0x40);
    } else if code >= 0x80 {
      hide CodePoint;
      ReadBack2(code / 0x40, code % 0x40);
    }
  }

  // A literal that is not malformed never stands for a surrogate: it ends up as UTF-8.
  lemma LiteralsAreUtf8(w: seq<byte>)
    requires JsonStrings.ReadUtf16(w).Literal?
    ensures Utf8Char(JsonStrings.Utf8(JsonStrings.ReadUtf16(w).code))
  {
    EncodedIsChar(JsonStrings.ReadUtf16(w).code);
  }

  // --- Section 7 of RFC 8259

  predicate HexDig(b: byte) { 0x30 <= b <= 0x39 || 0x41 <= b <= 0x46 || 0x61 <= b <= 0x66 }

  // Digits of either case.
  function Digit(b: byte): (d: nat)
    requires HexDig(b)
    ensures d < 0x10
  {
    if b <= 0x39 then b - 0x30 else 10 + (b - 0x41) % 0x20
  }

  predicate FourDigits(t: seq<byte>) {
    |t| == 4 && HexDig(t[0]) && HexDig(t[1]) && HexDig(t[2]) && HexDig(t[3])
  }

  function Number(t: seq<byte>): (n: nat)
    requires FourDigits(t)
    ensures n < 0x1_0000
  {
    ((Digit(t[0]) * 0x10 + Digit(t[1])) * 0x10 + Digit(t[2])) * 0x10 + Digit(t[3])
  }

  function Unit(digits: seq<byte>): (e: seq<byte>)
    ensures |e| == |digits| + 2 && e[0] == 0x5C && e[1] == 0x75 && e[2..] == digits
  {
    [0x5C, 0x75] + digits
  }

  // e is an escape of the code point, in any spelling: one unit, or a surrogate pair.
  predicate IsEscape(e: seq<byte>, code: nat) {
    if code < 0x1_0000 then |e| == 6 && FourDigits(e[2..]) && e == Unit(e[2..]) && Number(e[2..]) == code
    else
      && |e| == 12 && FourDigits(e[2..6]) && FourDigits(e[8..]) && e == Unit(e[2..6]) + Unit(e[8..])
      && High(Number(e[2..6])) && Low(Number(e[8..])) && code == Paired(Number(e[2..6]), Number(e[8..]))
  }

  predicate High(n: nat) { 0xD800 <= n <= 0xDBFF }

  predicate Low(n: nat) { 0xDC00 <= n <= 0xDFFF }

  function Paired(high: nat, low: nat): (code: Scalar)
    requires High(high) && Low(low)
    ensures code >= 0x1_0000
  {
    0x1_0000 + (high - 0xD800) * 0x400 + (low - 0xDC00)
  }

  lemma NumberIsHex4(t: seq<byte>)
    requires FourDigits(t)
    ensures JsonStrings.Hex4(t) == Number(t)
  {
    DigitIsFromHex(t[0]);
    DigitIsFromHex(t[1]);
    DigitIsFromHex(t[2]);
    DigitIsFromHex(t[3]);
    hide JsonStrings.FromHex, Digit, HexDig;
  }

  lemma DigitIsFromHex(b: byte)
    requires HexDig(b)
    ensures JsonStrings.FromHex(b) == Some(Digit(b))
  {
  }

  // Every escape of a code point, surrogate pairs included, is read as that code point, whatever
  // follows; an escaped surrogate alone is not accepted.
  lemma EscapeReadsBack(e: seq<byte>, code: nat, tail: seq<byte>)
    requires code <= 0x10_FFFF && IsEscape(e, code)
    ensures !Surrogate(code) ==> JsonStrings.ReadUtf16(e + tail) == JsonStrings.Literal(code, |e|)
    ensures Surrogate(code) && (tail == [] || tail[0] != 0x5C) ==>
      JsonStrings.ReadUtf16(e + tail) == JsonStrings.Malformed
  {
    hide HexDig, Number, JsonStrings.Hex4;
    var w := e + tail;
    if code < 0x1_0000 {
      UnitIsRead(e[2..], tail);
      assert |w| >= 12 ==> w[6] == tail[0];
    } else {
      UnitIsRead(e[2..6], Unit(e[8..]) + tail);
      NumberIsHex4(e[8..]);
      assert w == Unit(e[2..6]) + (Unit(e[8..]) + tail);
      assert w[8..12] == e[8..] && w[6] == 0x5C && w[7] == 0x75;
      assert Number(e[2..6]) % 0x400 == Number(e[2..6]) - 0xD800 && Number(e[8..]) % 0x400 == Number(e[8..]) - 0xDC00;
    }
  }

  lemma UnitIsRead(digits: seq<byte>, tail: seq<byte>)
    requires FourDigits(digits)
    ensures |Unit(digits) + tail| >= 6 && (Unit(digits) + tail)[2..6] == digits
    ensures JsonStrings.Hex4((Unit(digits) + tail)[2..6]) == Number(digits)
    ensures (Unit(digits) + tail)[6..] == tail
  {
    NumberIsHex4(digits);
    hide JsonStrings.Hex4, Number;
    assert (Unit(digits) + tail)[2..6] == digits;
  }

  // A code point that is no surrogate.
  type Scalar = n: int | 0 <= n <= 0x10_FFFF && !(0xD800 <= n <= 0xDFFF)

  // One char of the grammar.
  datatype Char = Unescaped(code: Scalar) | TwoChar(letter: byte) | Escaped(digits: seq<byte>)

  const TWO_CHAR: map<byte, Scalar> :=
    map[0x22 := 0x22, 0x5C := 0x5C, 0x2F := 0x2F, 0x62 := 0x08, 0x66 := 0x0C, 0x6E := 0x0A, 0x72 := 0x0D, 0x74 := 0x09]

  predicate Grammatical(c: Char) {
    match c
    case Unescaped(code) => code >= 0x20 && code != 0x22 && code != 0x5C
    case TwoChar(letter) => letter in TWO_CHAR
    case Escaped(digits) => FourDigits(digits)
  }

  function CharText(c: Char): seq<byte> {
    match c
    case Unescaped(code) => JsonStrings.Utf8(code)
    case TwoChar(letter) => [0x5C, letter]
    case Escaped(digits) => Unit(digits)
  }

  function Text(chars: seq<Char>): seq<byte> {
    if chars == [] then [] else CharText(chars[0]) + Text(chars[1..])
  }

  predicate AllGrammatical(chars: seq<Char>) {
    forall i | 0 <= i < |chars| :: Grammatical(chars[i])
  }

  // The second half of a surrogate pair comes next.
  predicate LowNext(chars: seq<Char>)
    requires AllGrammatical(chars)
  {
    |chars| > 1 && chars[1].Escaped? && Low(Number(chars[1].digits))
  }

  // The code points of a text, with the halves of surrogate pairs put together; none if one half
  // stands alone.
  function Codes(chars: seq<Char>): Option<seq<Scalar>>
    requires AllGrammatical(chars)
    decreases |chars|
  {
    if chars == [] then Some([])
    else
      match chars[0]
      case Unescaped(code) => Before(code, Codes(chars[1..]))
      case TwoChar(letter) => Before(TWO_CHAR[letter], Codes(chars[1..]))
      case Escaped(digits) =>
        if !Surrogate(Number(digits)) then Before(Number(digits), Codes(chars[1..]))
        else if High(Number(digits)) && LowNext(chars) then
          Before(Paired(Number(digits), Number(chars[1].digits)), Codes(chars[2..]))
        else None
  }

  function Before(code: Scalar, more: Option<seq<Scalar>>): Option<seq<Scalar>> {
    if more.None? then None else Some([code] + more.value)
  }

  function EncodedText(codes: seq<Scalar>): seq<byte> {
    if codes == [] then [] else JsonStrings.Utf8(codes[0]) + EncodedText(codes[1..])
  }

  ghost function Encoded(codes: Option<seq<Scalar>>): Option<seq<byte>> {
    if codes.None? then None else Some(EncodedText(codes.value))
  }

  // Any text of the grammar, with unescaped and escaped characters in any mixture, comes out as the
  // UTF-8 of its code points, and is rejected exactly if half of a surrogate pair stands alone.
  lemma {:induction false} TextIsDecoded(chars: seq<Char>)
    requires AllGrammatical(chars)
    ensures JsonStrings.Unescape(Text(chars)) == Encoded(Codes(chars))
    decreases |chars|
  {
    hide JsonStrings.Unescape, JsonStrings.Utf8, JsonStrings.ReadUtf16, Grammatical, FourDigits, Number, Surrogate;
    if chars == [] {
      NothingEscaped();
    } else {
      var rest := Text(chars[1..]);
      TextIsDecoded(chars[1..]);
      assert Grammatical(chars[0]);
      match chars[0]
      case Unescaped(code) => UnescapedFirst(code, rest);
      case TwoChar(letter) => TwoCharFirst(letter, rest);
      case Escaped(digits) =>
        EscapedGrammatical(digits);
        if !Surrogate(Number(digits)) {
          UnitFirst(digits, rest);
        } else if High(Number(digits)) && LowNext(chars) {
          TextIsDecoded(chars[2..]);
          LowIsNext(chars);
          PairFirst(digits, chars[1].digits, Text(chars[2..]));
        } else {
          HalfAlone(chars);
        }
    }
  }

  lemma NothingEscaped()
    ensures JsonStrings.Unescape([]) == Some([])
  {
  }

  lemma OneByteFirst(b: byte, rest: seq<byte>)
    requires b != 0x5C
    ensures JsonStrings.Unescape([b] + rest) == JsonStrings.Prepend([b], JsonStrings.Unescape(rest))
  {
    hide JsonStrings.ReadUtf16, JsonStrings.SimpleEscape, JsonStrings.NextChar;
    assert ([b] + rest)[1..] == rest;
  }

  lemma PrependTwice(a: seq<byte>, b: seq<byte>, more: Option<seq<byte>>)
    ensures JsonStrings.Prepend(a, JsonStrings.Prepend(b, more)) == JsonStrings.Prepend(a + b, more)
    ensures JsonStrings.Prepend([], more) == more
  {
    if more.Some? {
      assert a + (b + more.value) == (a + b) + more.value && [] + more.value == more.value;
    }
  }

  lemma {:induction false} BytesFirst(bs: seq<byte>, rest: seq<byte>)
    requires 0x5C !in bs
    ensures JsonStrings.Unescape(bs + rest) == JsonStrings.Prepend(bs, JsonStrings.Unescape(rest))
  {
    hide *;
    var more := JsonStrings.Unescape(rest);
    if bs == [] {
      PrependTwice([], [], more);
      assert bs + rest == rest;
    } else {
      var first, others := [bs[0]], bs[1..];
      OneByteFirst(bs[0], others + rest);
      BytesFirst(others, rest);
      PrependTwice(first, others, more);
      assert bs == first + others && bs + rest == first + (others + rest);
    }
  }

  // No byte of an unescaped character is taken for a quote or a backslash.
  lemma UnescapedBytes(code: Scalar)
    requires Grammatical(Unescaped(code))
    ensures var bs := JsonStrings.Utf8(code);
      forall i | 0 <= i < |bs| :: bs[i] != 0x5C && bs[i] != 0x22
  {
  }

  lemma UnescapedFirst(code: Scalar, rest: seq<byte>)
    requires Grammatical(Unescaped(code))
    ensures JsonStrings.Unescape(JsonStrings.Utf8(code) + rest)
         == JsonStrings.Prepend(JsonStrings.Utf8(code), JsonStrings.Unescape(rest))
  {
    UnescapedBytes(code);
    hide *;
    BytesFirst(JsonStrings.Utf8(code), rest);
  }

  lemma TwoCharFirst(letter: byte, rest: seq<byte>)
    requires Grammatical(TwoChar(letter))
    ensures JsonStrings.Unescape([0x5C, letter] + rest)
         == JsonStrings.Prepend(JsonStrings.Utf8(TWO_CHAR[letter]), JsonStrings.Unescape(rest))
  {
    hide JsonStrings.ReadUtf16;
    assert ([0x5C, letter] + rest)[2..] == rest;
  }

  lemma EscapedGrammatical(digits: seq<byte>)
    requires Grammatical(Escaped(digits))
    ensures FourDigits(digits)
    ensures forall i | 0 <= i < 4 :: digits[i] != 0x5C && digits[i] != 0x22
  {
  }

  lemma UnitFirst(digits: seq<byte>, rest: seq<byte>)
    requires FourDigits(digits) && !Surrogate(Number(digits))
    ensures JsonStrings.Unescape(Unit(digits) + rest)
         == JsonStrings.Prepend(JsonStrings.Utf8(Number(digits)), JsonStrings.Unescape(rest))
  {
    hide JsonStrings.Utf8, JsonStrings.Hex4, Number, HexDig;
    UnitIsRead(digits, rest);
  }

  lemma PairFirst(high: seq<byte>, low: seq<byte>, rest: seq<byte>)
    requires FourDigits(high) && FourDigits(low) && High(Number(high)) && Low(Number(low))
    ensures JsonStrings.Unescape(Unit(high) + (Unit(low) + rest))
         == JsonStrings.Prepend(JsonStrings.Utf8(Paired(Number(high), Number(low))), JsonStrings.Unescape(rest))
  {
    hide JsonStrings.Utf8, JsonStrings.Hex4, JsonStrings.ReadUtf16, Number, HexDig;
    var e := Unit(high) + Unit(low);
    assert e[2..6] == high && e[8..] == low;
    EscapeReadsBack(e, Paired(Number(high), Number(low)), rest);
    var w := Unit(high) + (Unit(low) + rest);
    assert w == e + rest && w[12..] == rest;
    assert w[0] == 0x5C && w[1] == 0x75;
  }

  lemma LowIsNext(chars: seq<Char>)
    requires AllGrammatical(chars) && LowNext(chars)
    ensures FourDigits(chars[1].digits) && Text(chars[1..]) == Unit(chars[1].digits) + Text(chars[2..])
  {
    hide HexDig, Number;
    assert chars[1..][1..] == chars[2..];
    assert Grammatical(chars[1]);
  }

  lemma NoLowBehind(chars: seq<Char>)
    requires AllGrammatical(chars)
    requires !(chars != [] && chars[0].Escaped? && Low(Number(chars[0].digits)))
    ensures var t := Text(chars);
      |t| < 6 || t[0] != 0x5C || t[1] != 0x75 || !Low(JsonStrings.Hex4(t[2..6]))
  {
    hide JsonStrings.Utf8, JsonStrings.Hex4, Number, HexDig;
    if chars != [] {
      var rest := Text(chars[1..]);
      assert Grammatical(chars[0]);
      match chars[0]
      case Unescaped(code) =>
        UnescapedBytes(code);
        assert Text(chars)[0] == JsonStrings.Utf8(code)[0];
      case TwoChar(letter) =>
        assert Text(chars)[1] == letter;
      case Escaped(digits) => UnitIsRead(digits, rest);
    }
  }

  lemma HalfAlone(chars: seq<Char>)
    requires AllGrammatical(chars) && chars != [] && chars[0].Escaped? && Surrogate(Number(chars[0].digits))
    requires !(High(Number(chars[0].digits)) && LowNext(chars))
    ensures JsonStrings.Unescape(Text(chars)) == None
  {
    hide JsonStrings.Hex4, Number, HexDig;
    var digits, rest := chars[0].digits, Text(chars[1..]);
    assert Grammatical(chars[0]);
    UnitIsRead(digits, rest);
    var w := Unit(digits) + rest;
    assert w[6..] == rest && w[0] == 0x5C && w[1] == 0x75;
    if High(Number(digits)) {
      NoLowBehind(chars[1..]);
      assert |w| >= 12 ==> w[8..12] == rest[2..6] && w[6] == rest[0] && w[7] == rest[1];
    }
  }

  lemma {:induction false} EncodedTextIsUtf8(codes: seq<Scalar>)
    ensures Utf8Octets(EncodedText(codes))
  {
    hide JsonStrings.Utf8;
    if codes != [] {
      EncodedTextIsUtf8(codes[1..]);
      EncodedIsChar(codes[0]);
      var c, more := JsonStrings.Utf8(codes[0]), EncodedText(codes[1..]);
      assert (c + more)[..|c|] == c && (c + more)[|c|..] == more;
    }
  }

  // --- Whole literals

  lemma {:induction false} EndBehindBytes(w: seq<byte>, i: nat, n: nat)
    requires i + n <= |w|
    requires forall k | i <= k < i + n :: w[k] != 0x5C && w[k] != 0x22
    ensures JsonStrings.EndOfString(w, i) == JsonStrings.EndOfString(w, i + n)
    decreases n
  {
    if n > 0 {
      EndBehindBytes(w, i + 1, n - 1);
    }
  }

  lemma EndBehindPair(w: seq<byte>, i: nat)
    requires i + 1 < |w| && w[i] == 0x5C
    ensures JsonStrings.EndOfString(w, i) == JsonStrings.EndOfString(w, i + 2)
  {
  }

  lemma EndBehindChar(w: seq<byte>, i: nat, c: Char)
    requires Grammatical(c) && i + |CharText(c)| <= |w| && w[i..i + |CharText(c)|] == CharText(c)
    ensures JsonStrings.EndOfString(w, i) == JsonStrings.EndOfString(w, i + |CharText(c)|)
  {
    hide JsonStrings.Utf8, JsonStrings.EndOfString, Grammatical, HexDig;
    var t := CharText(c);
    assert forall k | i <= k < i + |t| :: w[k] == t[k - i];
    match c
    case Unescaped(code) =>
      UnescapedBytes(code);
      EndBehindBytes(w, i, |t|);
    case TwoChar(letter) =>
      EndBehindPair(w, i);
    case Escaped(digits) =>
      EscapedGrammatical(digits);
      EndBehindPair(w, i);
      assert forall k | 0 <= k < 4 :: t[2 + k] == digits[k];
      EndBehindBytes(w, i + 2, 4);
  }

  lemma {:induction false} EndOfText(before: seq<byte>, chars: seq<Char>, tail: seq<byte>)
    requires AllGrammatical(chars)
    ensures JsonStrings.EndOfString(before + (Text(chars) + ([0x22] + tail)), |before|)
         == Some(|before| + |Text(chars)|)
    decreases |chars|
  {
    hide JsonStrings.EndOfString, CharText, Grammatical;
    var w := before + (Text(chars) + ([0x22] + tail));
    if chars == [] {
      assert w[|before|] == 0x22;
      EndHere(w, |before|);
    } else {
      var c, rest := CharText(chars[0]), Text(chars[1..]);
      assert w == (before + c) + (rest + ([0x22] + tail));
      assert w[|before|..|before| + |c|] == c;
      EndBehindChar(w, |before|, chars[0]);
      EndOfText(before + c, chars[1..], tail);
    }
  }

  lemma EndHere(w: seq<byte>, i: nat)
    requires i < |w| && w[i] == 0x22
    ensures JsonStrings.EndOfString(w, i) == Some(i)
  {
  }

  // parse_string on any string literal of the grammar, whatever follows it.
  lemma LiteralIsDecoded(chars: seq<Char>, tail: seq<byte>)
    requires AllGrammatical(chars)
    ensures JsonStrings.ParseString([0x22] + Text(chars) + [0x22] + tail)
         == match Codes(chars)
            case None => Bad
            case Some(codes) => Got(JsonStrings.CString(EncodedText(codes)), tail)
  {
    hide JsonStrings.EndOfString, JsonStrings.Unescape, JsonStrings.CString, Text, Codes, EncodedText;
    var w := Text(chars);
    var bs := [0x22] + w + [0x22] + tail;
    EndOfText([], chars, tail);
    TextIsDecoded(chars);
    assert bs[1..] == [] + (w + ([0x22] + tail));
    assert bs[1..][..|w|] == w && bs[1..][|w| + 1..] == tail;
  }

  // --- What is not in the grammar

  // A character that has no meaning behind a backslash rejects the literal.
  lemma UnknownEscape(letter: byte, rest: seq<byte>)
    requires letter !in TWO_CHAR && letter != 0x75
    ensures JsonStrings.Unescape([0x5C, letter] + rest) == None
  {
    hide JsonStrings.ReadUtf16;
    assert ([0x5C, letter] + rest)[1] == letter;
  }

  // Four characters that are not all hexadecimal digits count as the number zero.
  lemma NoNumber(t: seq<byte>, rest: seq<byte>)
    requires |t| == 4 && !FourDigits(t)
    ensures JsonStrings.Unescape(Unit(t) + rest) == JsonStrings.Prepend([0], JsonStrings.Unescape(rest))
  {
    NotHex(t);
    hide FourDigits, JsonStrings.Hex4;
    assert (Unit(t) + rest)[2..6] == t && (Unit(t) + rest)[6..] == rest;
  }

  lemma NotHex(t: seq<byte>)
    requires |t| == 4 && !FourDigits(t)
    ensures JsonStrings.Hex4(t) == 0
  {
  }

  // --- The storage for a literal

  function Escapes(chars: seq<Char>): nat {
    if chars == [] then 0 else (if chars[0].Unescaped? then 0 else 1) + Escapes(chars[1..])
  }

  // One byte for each byte between the quotes, less one for each escape, and two more.
  lemma StorageForm(chars: seq<Char>)
    requires AllGrammatical(chars)
    ensures JsonStrings.Allocation(Text(chars)) == |Text(chars)| + 2 - Escapes(chars)
  {
    hide JsonStrings.Skipped;
    assert [] + Text(chars) == Text(chars);
    EscapesCounted([], chars);
  }

  lemma {:induction false} EscapesCounted(before: seq<byte>, chars: seq<Char>)
    requires AllGrammatical(chars)
    ensures JsonStrings.Skipped(before + Text(chars), |before|) == Escapes(chars)
    decreases |chars|
  {
    hide JsonStrings.Skipped, CharText, Grammatical;
    var w := before + Text(chars);
    if chars == [] {
      assert w == before;
      NothingSkipped(w);
    } else {
      var c := CharText(chars[0]);
      assert w == (before + c) + Text(chars[1..]);
      assert w[|before|..|before| + |c|] == c;
      CharSkipped(w, |before|, chars[0]);
      EscapesCounted(before + c, chars[1..]);
    }
  }

  lemma NothingSkipped(w: seq<byte>)
    ensures JsonStrings.Skipped(w, |w|) == 0
  {
  }

  lemma {:induction false} BytesSkipped(w: seq<byte>, i: nat, n: nat)
    requires i + n <= |w| && forall k | i <= k < i + n :: w[k] != 0x5C
    ensures JsonStrings.Skipped(w, i) == JsonStrings.Skipped(w, i + n)
    decreases n
  {
    if n > 0 {
      BytesSkipped(w, i + 1, n - 1);
    }
  }

  lemma PairSkipped(w: seq<byte>, i: nat)
    requires i + 1 < |w| && w[i] == 0x5C
    ensures JsonStrings.Skipped(w, i) == 1 + JsonStrings.Skipped(w, i + 2)
  {
  }

  lemma CharSkipped(w: seq<byte>, i: nat, c: Char)
    requires Grammatical(c) && i + |CharText(c)| <= |w| && w[i..i + |CharText(c)|] == CharText(c)
    ensures JsonStrings.Skipped(w, i)
         == (if c.Unescaped? then 0 else 1) + JsonStrings.Skipped(w, i + |CharText(c)|)
  {
    hide JsonStrings.Utf8, JsonStrings.Skipped, Grammatical, HexDig;
    var t := CharText(c);
    assert forall k | i <= k < i + |t| :: w[k] == t[k - i];
    match c
    case Unescaped(code) =>
      UnescapedBytes(code);
      BytesSkipped(w, i, |t|);
    case TwoChar(letter) =>
      PairSkipped(w, i);
    case Escaped(digits) =>
      EscapedGrammatical(digits);
      PairSkipped(w, i);
      assert forall k | 0 <= k < 4 :: t[2 + k] == digits[k];
      BytesSkipped(w, i + 2, 4);
  }
}
