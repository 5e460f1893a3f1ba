// JSON string literals: how cJSON escapes the bytes of a C string and how it reads them back.
module JsonStrings {
  import opened Bytes

  const QUOTE: byte := 0x22
  const BACKSLASH: byte := 0x5C
  const SLASH: byte := 0x2F
  const LETTER_B: byte := 0x62
  const LETTER_F: byte := 0x66
  const LETTER_N: byte := 0x6E
  const LETTER_R: byte := 0x72
  const LETTER_T: byte := 0x74
  const LETTER_U: byte := 0x75
  const DIGIT_0: byte := 0x30

  // --- Printing

  function HexDigit(n: nat): byte
    requires n < 16
  {
    if n < 10 then DIGIT_0 + n else 0x61 + (n - 10)
  }

  predicate ShortEscape(b: byte) {
    b == QUOTE || b == BACKSLASH || b == 0x08 || b == 0x0C || b == 0x0A || b == 0x0D || b == 0x09
  }

  // One character of a string as it is printed.
  function Escape(b: byte): (e: seq<byte>)
    ensures |e| == 1 + if ShortEscape(b) then 1 else if b < 0x20 then 5 else 0
  {
    if b == QUOTE || b == BACKSLASH then [BACKSLASH, b]
    else if b == 0x08 then [BACKSLASH, LETTER_B]
    else if b == 0x0C then [BACKSLASH, LETTER_F]
    else if b == 0x0A then [BACKSLASH, LETTER_N]
    else if b == 0x0D then [BACKSLASH, LETTER_R]
    else if b == 0x09 then [BACKSLASH, LETTER_T]
    else if b < 0x20 then [BACKSLASH, LETTER_U, DIGIT_0, DIGIT_0, HexDigit(b / 16), HexDigit(b % 16)]
    else [b]
  }

  function EscapeAll(s: seq<byte>): seq<byte> {
    if s == [] then [] else Escape(s[0]) + EscapeAll(s[1..])
  }

  function Quoted(s: seq<byte>): seq<byte> {
    [QUOTE] + EscapeAll(s) + [QUOTE]
  }

  lemma {:induction false} EscapeAllAppend(a: seq<byte>, b: byte)
    ensures EscapeAll(a + [b]) == EscapeAll(a) + Escape(b)
  {
    hide Escape;
    if a == [] {
      assert [] + [b] == [b] && [b][1..] == [];
      assert EscapeAll([b]) == Escape(b) + EscapeAll([]);
      assert Escape(b) + [] == Escape(b);
    } else {
      EscapeAllAppend(a[1..], b);
      assert (a + [b])[1..] == a[1..] + [b];
      var x, y, z := Escape(a[0]), EscapeAll(a[1..]), Escape(b);
      assert x + (y + z) == (x + y) + z;
    }
  }

  // Printed strings contain no zero byte and no raw control character.
  lemma {:induction false} EscapeAllPrintable(s: seq<byte>)
    ensures forall b | b in EscapeAll(s) :: b >= 0x20
  {
    if s != [] {
      EscapeAllPrintable(s[1..]);
    }
  }

  // --- Reading

  function FromHex(b: byte): Option<nat> {
    if 0x30 <= b <= 0x39 then Some(b - 0x30)
    else if 0x41 <= b <= 0x46 then Some(10 + b - 0x41)
    else if 0x61 <= b <= 0x66 then Some(10 + b - 0x61)
    else None
  }

  // Four hexadecimal digits; anything else counts as zero.
  function Hex4(bs: seq<byte>): (h: nat)
    requires |bs| >= 4
    ensures h < 0x1_0000
  {
    var a, b, c, d := FromHex(bs[0]), FromHex(bs[1]), FromHex(bs[2]), FromHex(bs[3]);
    if a.None? || b.None? || c.None? || d.None? then 0
    else ((a.value * 16 + b.value) * 16 + c.value) * 16 + d.value
  }

  // UTF-8 (section 3 of RFC 3629).
  function Utf8(code: nat): (bs: seq<byte>)
    requires code <= 0x10_FFFF
    ensures 1 <= |bs| <= 4
  {
    if code < 0x80 then [code]
    else if code < 0x800 then [0xC0 + code / 0x40, 0x80 + code % 0x40]
    else if code < 0x1_0000 then [0xE0 + code / 0x1000, 0x80 + code / 0x40 % 0x40, 0x80 + code % 0x40]
    else [0xF0 + code / 0x4_0000, 0x80 + code / 0x1000 % 0x40, 0x80 + code / 0x40 % 0x40, 0x80 + code % 0x40]
  }

  // The code point of a \u literal and the number of bytes it takes.
  datatype Utf16 = Malformed | Literal(code: nat, length: nat)

  // w starts with a backslash and a u and ends where the string literal ends.
  function ReadUtf16(w: seq<byte>): (u: Utf16)
    ensures u.Literal? ==> u.code <= 0x10_FFFF && u.length <= |w|
    ensures u.Literal? ==> u.length == if u.code < 0x1_0000 then 6 else 12
  {
    if |w| < 6 then Malformed
    else
      var first := Hex4(w[2..6]);
      if 0xDC00 <= first <= 0xDFFF then Malformed
      else if 0xD800 <= first <= 0xDBFF then
        if |w| < 12 || w[6] != BACKSLASH || w[7] != LETTER_U then Malformed
        else
          var second := Hex4(w[8..12]);
          if second < 0xDC00 || second > 0xDFFF then Malformed
          else Literal(0x1_0000 + first % 0x400 * 0x400 + second % 0x400, 12)
      else Literal(first, 6)
  }

  // Position of the quote that ends a literal, behind the opening quote.
  function EndOfString(bs: seq<byte>, i: nat): (e: Option<nat>)
    ensures e.Some? ==> i <= e.value < |bs| && bs[e.value] == QUOTE
    decreases |bs| - i
  {
    if i >= |bs| then None
    else if bs[i] == QUOTE then Some(i)
    else if bs[i] == BACKSLASH then (if i + 1 >= |bs| then None else EndOfString(bs, i + 2))
    else EndOfString(bs, i + 1)
  }

  // Backslashes that the first pass counts from position i on.
  function Skipped(w: seq<byte>, i: nat): (n: nat)
    ensures 2 * n <= if i <= |w| then |w| - i + 1 else 0
    decreases |w| - i
  {
    if i >= |w| then 0
    else if w[i] == BACKSLASH then 1 + Skipped(w, i + 2)
    else Skipped(w, i + 1)
  }

  function SimpleEscape(c: byte): Option<byte> {
    if c == LETTER_B then Some(0x08)
    else if c == LETTER_F then Some(0x0C)
    else if c == LETTER_N then Some(0x0A)
    else if c == LETTER_R then Some(0x0D)
    else if c == LETTER_T then Some(0x09)
    else if c == QUOTE || c == BACKSLASH || c == SLASH then Some(c)
    else None
  }

  // The character behind a backslash; the literal ends with a quote.
  function NextChar(w: seq<byte>): byte {
    if |w| > 1 then w[1] else QUOTE
  }

  // The second pass over the inside of a literal. It follows \u literals by their length, so after
  // a malformed one it may take characters apart differently than the first pass did.
  function Unescape(w: seq<byte>): Option<seq<byte>>
    decreases |w|
  {
    if w == [] then Some([])
    else if w[0] != BACKSLASH then Prepend([w[0]], Unescape(w[1..]))
    else if NextChar(w) == LETTER_U then
      match ReadUtf16(w)
      case Malformed => None
      case Literal(code, length) => Prepend(Utf8(code), Unescape(w[length..]))
    else
      match SimpleEscape(NextChar(w))
      case None => None
      case Some(b) => Prepend([b], Unescape(if |w| > 1 then w[2..] else []))
  }

  function Prepend(a: seq<byte>, b: Option<seq<byte>>): Option<seq<byte>> {
    if b.None? then None else Some(a + b.value)
  }

  // A C string ends at its first zero.
  function CString(s: seq<byte>): (r: seq<byte>)
    ensures 0 !in r
  {
    if s == [] || s[0] == 0 then [] else [s[0]] + CString(s[1..])
  }

  function ParseString(bs: seq<byte>): (p: Parse<seq<byte>>)
    ensures p.Got? ==> |p.rest| < |bs|
  {
    if bs == [] || bs[0] != QUOTE then Bad
    else
      match EndOfString(bs[1..], 0)
      case None => Bad
      case Some(e) =>
        match Unescape(bs[1..][..e])
        case None => Bad
        case Some(out) => Got(CString(out), bs[1..][e + 1..])
  }

  // --- Reading inverts printing

  lemma {:induction false} CStringOfText(s: seq<byte>)
    requires 0 !in s
    ensures CString(s) == s
  {
    if s != [] {
      CStringOfText(s[1..]);
    }
  }

  lemma UnescapeOne(b: byte, w: seq<byte>)
    requires b != 0
    ensures Unescape(Escape(b) + w) == Prepend([b], Unescape(w))
  {
    var e := Escape(b);
    var all := e + w;
    if !ShortEscape(b) && b < 0x20 {
      assert all[0] == BACKSLASH && all[1] == LETTER_U;
      assert all[2..6] == [DIGIT_0, DIGIT_0, HexDigit(b / 16), HexDigit(b % 16)];
      HexOfByte(b);
      assert all[6..] == w;
    } else if ShortEscape(b) {
      assert all[2..] == w;
    } else {
      assert all[1..] == w;
    }
  }

  lemma HexOfByte(b: byte)
    requires b < 0x20
    ensures Hex4([DIGIT_0, DIGIT_0, HexDigit(b / 16), HexDigit(b % 16)]) == b
  {
  }

  lemma {:induction false} UnescapeInverts(s: seq<byte>)
    requires 0 !in s
    ensures Unescape(EscapeAll(s)) == Some(s)
  {
    if s != [] {
      UnescapeInverts(s[1..]);
      UnescapeOne(s[0], EscapeAll(s[1..]));
      assert [s[0]] + s[1..] == s;
    }
  }

  lemma EndBehindEscape(b: byte, w: seq<byte>, i: nat)
    requires i + |Escape(b)| <= |w| && w[i..i + |Escape(b)|] == Escape(b)
    ensures EndOfString(w, i) == EndOfString(w, i + |Escape(b)|)
  {
    var n := |Escape(b)|;
    assert forall k | 0 <= k < n :: w[i + k] == Escape(b)[k];
    if n == 6 {
      assert w[i] == Escape(b)[0] && w[i + 1] == Escape(b)[1];
      assert w[i + 2] == Escape(b)[2] && w[i + 3] == Escape(b)[3];
      assert w[i + 4] == Escape(b)[4] && w[i + 5] == Escape(b)[5];
      assert w[i + 2] == DIGIT_0 && w[i + 3] == DIGIT_0;
      assert EndOfString(w, i) == EndOfString(w, i + 2);
      assert EndOfString(w, i + 2) == EndOfString(w, i + 3);
      assert EndOfString(w, i + 3) == EndOfString(w, i + 4);
      assert EndOfString(w, i + 4) == EndOfString(w, i + 5);
      assert EndOfString(w, i + 5) == EndOfString(w, i + 6);
    }
  }

  lemma {:induction false} EndOfEscaped(before: seq<byte>, s: seq<byte>, tail: seq<byte>)
    ensures EndOfString(before + EscapeAll(s) + [QUOTE] + tail, |before|) == Some(|before| + |EscapeAll(s)|)
    decreases |s|
  {
    var w := before + EscapeAll(s) + [QUOTE] + tail;
    if s != [] {
      var e := Escape(s[0]);
      assert w == (before + e) + EscapeAll(s[1..]) + [QUOTE] + tail;
      assert w[|before|..|before| + |e|] == e;
      EndBehindEscape(s[0], w, |before|);
      EndOfEscaped(before + e, s[1..], tail);
    }
  }

  // What print_string_ptr writes for a C string, parse_string reads back, whatever follows.
  lemma StringRoundTrip(s: seq<byte>, tail: seq<byte>)
    requires 0 !in s
    ensures ParseString(Quoted(s) + tail) == Got(s, tail)
  {
    var bs := Quoted(s) + tail;
    var w, e := EscapeAll(s), |EscapeAll(s)|;
    assert bs[1..] == [] + w + [QUOTE] + tail;
    EndOfEscaped([], s, tail);
    assert bs[1..][..e] == w && bs[1..][e + 1..] == tail;
    UnescapeInverts(s);
    CStringOfText(s);
  }

  // --- The two passes of parse_string

  // The first pass, started at position i, comes to rest exactly at the end of w.
  predicate InStep(w: seq<byte>, i: nat)
    decreases |w| - i
  {
    if i >= |w| then i == |w|
    else if w[i] == BACKSLASH then InStep(w, i + 2)
    else InStep(w, i + 1)
  }

  lemma {:induction false} EndIsInStep(bs: seq<byte>, i: nat)
    requires EndOfString(bs, i).Some?
    ensures InStep(bs[..EndOfString(bs, i).value], i)
    decreases |bs| - i
  {
    var e := EndOfString(bs, i).value;
    if i < |bs| && bs[i] == BACKSLASH {
      EndIsInStep(bs, i + 2);
      assert i < e && bs[..e][i] == bs[i];
    } else if i < |bs| && bs[i] != QUOTE {
      EndIsInStep(bs, i + 1);
      assert i < e && bs[..e][i] == bs[i];
    }
  }

  // From a position where the first pass stood to q or the position behind it, the first pass
  // counts at most one backslash for every two bytes.
  lemma {:induction false} Hop(w: seq<byte>, b: nat, q: nat) returns (b': nat)
    requires b <= q + 1 && q <= |w| && InStep(w, b)
    ensures q <= b' <= q + 1 && InStep(w, b')
    ensures Skipped(w, b) <= Skipped(w, b') + (if b <= q then (q - b + 1) / 2 else 0)
    decreases if b < q then q - b else 0
  {
    if b >= q {
      b' := b;
    } else if w[b] == BACKSLASH {
      b' := Hop(w, b + 2, q);
    } else {
      b' := Hop(w, b + 1, q);
    }
  }

  // The bytes written so far and the bytes still to be read, less the backslashes the first pass
  // counted in them, never exceed what the first pass allowed for. In step or not, b is the next
  // position where the first pass stood.
  ghost predicate Budget(w: seq<byte>, p: nat, b: nat, written: nat) {
    && p <= b <= p + 1 && InStep(w, b) && p <= |w|
    && written + (|w| - p) <= |w| - Skipped(w, 0) + Skipped(w, b)
  }

  lemma {:induction false} InStepEnds(w: seq<byte>, i: nat)
    requires InStep(w, i)
    ensures i <= |w|
  {
  }

  lemma BudgetBound(w: seq<byte>, p: nat, b: nat, written: nat)
    requires Budget(w, p, b, written)
    ensures written <= |w| - Skipped(w, 0) && p <= |w|
  {
    InStepEnds(w, b);
  }

  lemma BudgetCopy(w: seq<byte>, p: nat, b: nat, written: nat)
    requires p < |w| && w[p] != BACKSLASH && Budget(w, p, b, written)
    ensures Budget(w, p + 1, p + 1, written + 1)
  {
  }

  lemma BudgetEscape(w: seq<byte>, p: nat, b: nat, written: nat, length: nat, n: nat) returns (b': nat)
    requires p + length <= |w| && Budget(w, p, b, written)
    requires (length == 2 && n == 1) || (length == 6 && n <= 3) || (length == 12 && n <= 4)
    ensures Budget(w, p + length, b', written + n)
  {
    b' := Hop(w, b, p + length);
  }

  // A backslash in last place pairs with the closing quote; the first pass took it for the second
  // half of an escape, so there is room for one more byte.
  lemma BudgetLast(w: seq<byte>, p: nat, b: nat, written: nat)
    requires p + 1 == |w| && w[p] == BACKSLASH && Budget(w, p, b, written)
    ensures b == |w| && written + 1 <= |w| - Skipped(w, 0)
  {
    assert !InStep(w, p + 2);
  }

  // What the second pass has written when it is through or meets an escape that is malformed.
  function Output(w: seq<byte>): seq<byte>
    decreases |w|
  {
    if w == [] then []
    else if w[0] != BACKSLASH then [w[0]] + Output(w[1..])
    else if NextChar(w) == LETTER_U then
      match ReadUtf16(w)
      case Malformed => []
      case Literal(code, length) => Utf8(code) + Output(w[length..])
    else
      match SimpleEscape(NextChar(w))
      case None => []
      case Some(b) => [b] + Output(if |w| > 1 then w[2..] else [])
  }

  lemma {:induction false} OutputIsText(w: seq<byte>)
    requires Unescape(w).Some?
    ensures Output(w) == Unescape(w).value
    decreases |w|
  {
    hide ReadUtf16, Utf8, SimpleEscape;
    if w == [] {
    } else if w[0] != BACKSLASH {
      OutputIsText(w[1..]);
    } else if NextChar(w) == LETTER_U {
      OutputIsText(w[ReadUtf16(w).length..]);
    } else {
      OutputIsText(if |w| > 1 then w[2..] else []);
    }
  }

  // For every literal, well-formed or not and in step or not, the second pass never writes more than
  // the first allowed.
  lemma {:induction false} TwoPassBound(w: seq<byte>, p: nat, b: nat, written: nat)
    requires Budget(w, p, b, written)
    ensures written + |Output(w[p..])| <= |w| - Skipped(w, 0)
    decreases |w| - p
  {
    hide ReadUtf16, Utf8, SimpleEscape, Budget, Skipped;
    BudgetBound(w, p, b, written);
    var rest := w[p..];
    if p == |w| {
    } else if w[p] != BACKSLASH {
      BudgetCopy(w, p, b, written);
      assert rest[1..] == w[p + 1..];
      TwoPassBound(w, p + 1, p + 1, written + 1);
    } else if NextChar(rest) == LETTER_U {
      var u := ReadUtf16(rest);
      if u.Literal? {
        var n := |Utf8(u.code)|;
        LiteralLength(u.code);
        var b' := BudgetEscape(w, p, b, written, u.length, n);
        assert rest[u.length..] == w[p + u.length..];
        TwoPassBound(w, p + u.length, b', written + n);
      }
    } else if p + 1 < |w| {
      var b' := BudgetEscape(w, p, b, written, 2, 1);
      assert rest[2..] == w[p + 2..];
      TwoPassBound(w, p + 2, b', written + 1);
    } else {
      BudgetLast(w, p, b, written);
    }
  }

  lemma LiteralLength(code: nat)
    requires code <= 0x10_FFFF
    ensures code < 0x1_0000 ==> |Utf8(code)| <= 3
  {
  }

  // The space parse_string allocates for the literal w, for its text and a terminator.
  function Allocation(w: seq<byte>): nat {
    |w| + 1 - Skipped(w, 0) + 1
  }

  // Whatever stands between the quotes, what is written and a terminator fit.
  lemma TextFits(bs: seq<byte>)
    requires EndOfString(bs, 0).Some?
    ensures var w := bs[..EndOfString(bs, 0).value];
      |Output(w)| + 1 < Allocation(w) && (Unescape(w).Some? ==> |Unescape(w).value| + 1 < Allocation(w))
  {
    hide Unescape, Output;
    var w := bs[..EndOfString(bs, 0).value];
    EndIsInStep(bs, 0);
    assert w[0..] == w;
    TwoPassBound(w, 0, 0, 0);
    if Unescape(w).Some? {
      OutputIsText(w);
    }
  }
}
