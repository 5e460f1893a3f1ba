// The parser: a cursor over a zero-terminated text. Every method is tied to what JsonSpec makes of
// the text in front of the cursor. The trees it builds are values.
module JsonParser {
  import opened Bytes
  import opened JsonStrings
  import opened JsonSpec

  // parse_hex4: four digits, or 0.
  method ParseHex4(input: seq<byte>, at: nat) returns (h: nat)
    requires at + 4 <= |input|
    ensures h == Hex4(input[at..at + 4])
  {
    ghost var w := input[at..at + 4];
    h := 0;
    var i := 0;
    while i < 4
      invariant 0 <= i <= 4
      invariant HexPrefix(w, i, h)
    {
      var c := input[at + i];
      assert c == w[i];
      if 0x30 <= c <= 0x39 {
        h := h + (c - 0x30);
      } else if 0x41 <= c <= 0x46 {
        h := h + (10 + c - 0x41);
      } else if 0x61 <= c <= 0x66 {
        h := h + (10 + c - 0x61);
      } else {
        return 0;
      }
      if i < 3 {
        h := h * 16;
      }
      i := i + 1;
    }
  }

  // The first i digits have been read; all but the last one are shifted already.
  ghost predicate HexPrefix(w: seq<byte>, i: nat, h: nat)
    requires |w| == 4
  {
    match i
    case 0 => h == 0
    case 1 => FromHex(w[0]).Some? && h == FromHex(w[0]).value * 16
    case 2 => FromHex(w[0]).Some? && FromHex(w[1]).Some? && h == (FromHex(w[0]).value * 16 + FromHex(w[1]).value) * 16
    case 3 =>
      && FromHex(w[0]).Some? && FromHex(w[1]).Some? && FromHex(w[2]).Some?
      && h == ((FromHex(w[0]).value * 16 + FromHex(w[1]).value) * 16 + FromHex(w[2]).value) * 16
    case _ =>
      && FromHex(w[0]).Some? && FromHex(w[1]).Some? && FromHex(w[2]).Some? && FromHex(w[3]).Some?
      && h == ((FromHex(w[0]).value * 16 + FromHex(w[1]).value) * 16 + FromHex(w[2]).value) * 16 + FromHex(w[3]).value
  }

  // All bytes of the UTF-8 form but the first, the last one first.
  method WriteContinuations(code: nat, length: nat, output: array<byte>, at: nat) returns (codepoint: nat)
    requires code <= 0x10_FFFF && length == |Utf8(code)| && at + length <= output.Length
    modifies output
    ensures codepoint == Shifted(code, length - 1)
    ensures forall k | 0 <= k < at :: output[k] == old(output[k])
    ensures forall k | at < k < at + length :: output[k] == Utf8(code)[k - at]
  {
    Utf8Length(code);
    hide *;
    codepoint := code;
    var position := length - 1;
    while position > 0
      invariant 0 <= position < length
      invariant forall k | 0 <= k < at :: output[k] == old(output[k])
      invariant codepoint == Shifted(code, length - 1 - position)
      invariant forall k | at + position < k < at + length :: output[k] == Utf8(code)[k - at]
    {
      Continuation(code, length, position);
      output[at + position] := 0x80 + codepoint % 0x40;  // (codepoint | 0x80) & 0xBF
      codepoint := codepoint / 0x40;
      position := position - 1;
    }
  }

  // Writes the UTF-8 form of a code point.
  method WriteUtf8(code: nat, output: array<byte>, at: nat) returns (length: nat)
    requires code <= 0x10_FFFF && at + |Utf8(code)| <= output.Length
    modifies output
    ensures length == |Utf8(code)|
    ensures output[..at + length] == old(output[..at]) + Utf8(code)
  {
    Utf8Length(code);
    hide *;
    var codepoint := code;
    var firstByteMark := 0;
    if codepoint < 0x80 {
      length := 1;
    } else if codepoint < 0x800 {
      length := 2;
      firstByteMark := 0xC0;
    } else if codepoint < 0x1_0000 {
      length := 3;
      firstByteMark := 0xE0;
    } else {
      length := 4;
      firstByteMark := 0xF0;
    }
    codepoint := WriteContinuations(code, length, output, at);
    FirstByte(code, length);
    if length > 1 {
      output[at] := codepoint + firstByteMark;  // the bits are disjoint
    } else {
      output[at] := codepoint % 0x80;
    }
    Joined(output[..at + length], old(output[..at]), Utf8(code));
  }

  lemma Joined(out: seq<byte>, before: seq<byte>, text: seq<byte>)
    requires |out| == |before| + |text|
    requires forall k | 0 <= k < |before| :: out[k] == before[k]
    requires forall k | |before| <= k < |out| :: out[k] == text[k - |before|]
    ensures out == before + text
  {
  }

  lemma Utf8Length(code: nat)
    requires code <= 0x10_FFFF
    ensures |Utf8(code)| == if code < 0x80 then 1 else if code < 0x800 then 2 else if code < 0x1_0000 then 3 else 4
    ensures Shifted(code, 0) == code
  {
  }

  // The code point without its n lowest groups of six bits.
  ghost function Shifted(code: nat, n: nat): nat {
    if n == 0 then code else Shifted(code, n - 1) / 0x40
  }

  lemma Continuation(code: nat, length: nat, position: nat)
    requires code <= 0x10_FFFF && length == |Utf8(code)| && 0 < position < length
    ensures Utf8(code)[position] == 0x80 + Shifted(code, length - 1 - position) % 0x40
    ensures Shifted(code, length - position) == Shifted(code, length - 1 - position) / 0x40
  {
    assert Shifted(code, 1) == Shifted(code, 0) / 0x40;
    assert Shifted(code, 2) == Shifted(code, 1) / 0x40;
  }

  lemma FirstByte(code: nat, length: nat)
    requires code <= 0x10_FFFF && length == |Utf8(code)|
    ensures Utf8(code)[0] == Shifted(code, length - 1)
      + if length == 1 then 0 else if length == 2 then 0xC0 else if length == 3 then 0xE0 else 0xF0
  {
    assert Shifted(code, 1) == Shifted(code, 0) / 0x40;
    assert Shifted(code, 2) == Shifted(code, 1) / 0x40;
    assert Shifted(code, 3) == Shifted(code, 2) / 0x40;
  }

  lemma SliceOfSlice(s: seq<byte>, p: nat, end: nat, i: nat, j: nat)
    requires p <= end <= |s| && i <= j <= end - p
    ensures s[p + i..p + j] == s[p..end][i..j]
  {
    assert forall k | 0 <= k < j - i :: s[p + i..p + j][k] == s[p..end][i..j][k];
  }

  // utf16_literal_to_utf8 for the literal at position p; 0 when it is malformed.
  method Utf16LiteralToUtf8(input: seq<byte>, p: nat, end: nat, output: array<byte>, at: nat)
    returns (sequenceLength: nat, newAt: nat)
    requires p <= end <= |input|
    requires var u := ReadUtf16(input[p..end]); u.Literal? ==> at + |Utf8(u.code)| <= output.Length
    requires at <= output.Length
    modifies output
    ensures var u := ReadUtf16(input[p..end]);
      if u.Malformed? then sequenceLength == 0
      else
        && sequenceLength == u.length && newAt == at + |Utf8(u.code)|
        && output[..newAt] == old(output[..at]) + Utf8(u.code)
  {
    hide Utf8, Hex4;
    ghost var w := input[p..end];
    newAt := at;
    if end - p < 6 {
      return 0, at;
    }
    var first := ParseHex4(input, p + 2);
    assert input[p + 2..p + 6] == w[2..6] by { SliceOfSlice(input, p, end, 2, 6); }
    var codepoint: nat;
    if 0xDC00 <= first <= 0xDFFF {
      return 0, at;
    }
    if 0xD800 <= first <= 0xDBFF {
      sequenceLength := 12;
      if end - (p + 6) < 6 {
        return 0, at;
      }
      if input[p + 6] != BACKSLASH || input[p + 7] != LETTER_U {
        return 0, at;
      }
      var second := ParseHex4(input, p + 8);
      assert input[p + 8..p + 12] == w[8..12] by { SliceOfSlice(input, p, end, 8, 12); }
      if second < 0xDC00 || second > 0xDFFF {
        return 0, at;
      }
      codepoint := 0x1_0000 + first % 0x400 * 0x400 + second % 0x400;
    } else {
      sequenceLength := 6;
      codepoint := first;
    }
    var length := WriteUtf8(codepoint, output, at);
    newAt := at + length;
  }

  class ParseBuffer {
    const content: seq<byte>
    var offset: nat
    var depth: nat

    // The text ends with a zero byte, and the cursor stays in front of its end.
    ghost predicate Valid()
      reads this
    {
      0 < |content| && content[|content| - 1] == 0 && offset < |content|
    }

    ghost function Rest(): seq<byte>
      requires offset <= |content|
      reads this
    {
      content[offset..]
    }

    constructor (content: seq<byte>)
      requires 0 < |content| && content[|content| - 1] == 0
      ensures Valid() && this.content == content && offset == 0 && depth == 0
    {
      this.content, offset, depth := content, 0, 0;
    }

    // The byte at the cursor.
    function Here(): byte
      requires offset < |content|
      reads this
    {
      content[offset]
    }

    method SkipWhitespace()
      requires Valid()
      modifies this`offset
      ensures Valid() && old(offset) <= offset < |content|
      ensures Rest() == SkipSpace(old(Rest()))
    {
      while offset < |content| && content[offset] <= 0x20
        invariant old(offset) <= offset <= |content|
        invariant offset < |content| ==> SkipSpace(old(Rest())) == SkipSpace(Rest())
        invariant offset == |content| ==> SkipSpace(old(Rest())) == content[offset - 1..]
      {
        assert content[offset..][1..] == content[offset + 1..];
        offset := offset + 1;
      }
      if offset == |content| {
        offset := offset - 1;
      }
    }

    method SkipByteOrderMark()
      requires Valid() && offset == 0
      modifies this`offset
      ensures Valid() && Rest() == JsonSpec.SkipByteOrderMark(content)
    {
      if offset + 4 < |content| && BYTE_ORDER_MARK <= content {
        offset := offset + 3;
      }
      assert content[0..] == content;
    }

    method LooksAt(text: seq<byte>) returns (yes: bool)
      requires Valid()
      ensures yes == (text <= Rest())
    {
      yes := offset + |text| <= |content| && content[offset..offset + |text|] == text;
      assert offset + |text| <= |content| ==> content[offset..offset + |text|] == Rest()[..|text|];
    }

    // First pass: where the literal ends and how many backslashes are not part of the text.
    method ScanString() returns (ok: bool, inputEnd: nat, skippedBytes: nat)
      requires offset < |content| && Here() == QUOTE
      ensures ok <==> EndOfString(Rest()[1..], 0).Some?
      ensures ok ==>
        && inputEnd == offset + 1 + EndOfString(Rest()[1..], 0).value && inputEnd < |content|
        && content[inputEnd] == QUOTE && skippedBytes == Skipped(content[offset + 1..inputEnd], 0)
    {
      ghost var bs := Rest()[1..];
      var start := offset + 1;
      inputEnd := start;
      skippedBytes := 0;
      while inputEnd < |content| && content[inputEnd] != QUOTE
        invariant start <= inputEnd <= |content|
        invariant EndOfString(bs, 0) == EndOfString(bs, inputEnd - start)
        invariant forall e | inputEnd - start <= e <= |bs| ::
          Skipped(bs[..e], 0) == skippedBytes + Skipped(bs[..e], inputEnd - start)
      {
        ghost var i := inputEnd - start;
        assert content[inputEnd] == bs[i];
        if content[inputEnd] == BACKSLASH {
          if inputEnd + 1 >= |content| {
            return false, 0, 0;
          }
          skippedBytes := skippedBytes + 1;
          inputEnd := inputEnd + 1;
        }
        inputEnd := inputEnd + 1;
        forall e | inputEnd - start <= e <= |bs|
          ensures Skipped(bs[..e], 0) == skippedBytes + Skipped(bs[..e], inputEnd - start)
        {
          assert bs[..e][i] == bs[i];
        }
      }
      if inputEnd >= |content| || content[inputEnd] != QUOTE {
        return false, 0, 0;
      }
      assert content[inputEnd] == bs[inputEnd - start];
      assert content[start..inputEnd] == bs[..inputEnd - start];
      ok := true;
    }

    // Second pass, into storage of the size the first pass computed. That no write ever leaves the
    // array is part of what is verified here.
    method UnescapeInto(inputEnd: nat, output: array<byte>) returns (ok: bool, length: nat, inputPointer: nat)
      requires Valid() && offset + 1 <= inputEnd < |content| && content[inputEnd] == QUOTE
      requires InStep(content[offset + 1..inputEnd], 0)
      requires output.Length == Allocation(content[offset + 1..inputEnd])
      modifies output
      ensures ok <==> Unescape(content[offset + 1..inputEnd]).Some?
      ensures offset < inputPointer <= inputEnd + 1
      ensures ok ==> length < output.Length && Unescape(content[offset + 1..inputEnd]) == Some(output[..length])
    {
      hide *;
      var start := offset + 1;
      ghost var w := content[start..inputEnd];
      inputPointer := start;
      length := 0;
      ghost var b: nat := 0;
      Beginning(w);
      assert output[..0] == [];
      while inputPointer < inputEnd
        invariant start <= inputPointer <= inputEnd + 1 && length < output.Length
        invariant inputPointer <= inputEnd ==> Progress(w, inputPointer - start, b, output[..length])
        invariant inputPointer > inputEnd ==> Unescape(w) == Some(output[..length])
      {
        ghost var p := inputPointer - start;
        ghost var before := output[..length];
        assert content[inputPointer] == w[p];
        if content[inputPointer] != BACKSLASH {
          CopyStep(w, p, b, before);
          output[length] := content[inputPointer];
          length := length + 1;
          inputPointer := inputPointer + 1;
          b := p + 1;
          assert output[..length] == before + [w[p]];
        } else {
          var c := content[inputPointer + 1];
          NextIs(content, inputPointer, inputEnd);
          assert content[inputPointer..inputEnd] == w[p..];
          if c == LETTER_U {
            b := LiteralStep(w, p, b, before);
            var sequenceLength;
            sequenceLength, length := Utf16LiteralToUtf8(content, inputPointer, inputEnd, output, length);
            if sequenceLength == 0 {
              return false, length, inputPointer;
            }
            inputPointer := inputPointer + sequenceLength;
          } else {
            b := SimpleStep(w, p, b, before);
            var x := SimpleEscape(c);
            if x.None? {
              return false, length, inputPointer;
            }
            output[length] := x.value;
            length := length + 1;
            assert output[..length] == before + [x.value];
            inputPointer := inputPointer + 2;
          }
        }
      }
      if inputPointer == inputEnd {
        TheEnd(w, b, output[..length]);
      }
      ok := true;
    }

    // Allocates what the first pass asked for, and runs the second.
    method Unescaped(inputEnd: nat, skippedBytes: nat) returns (ok: bool, s: seq<byte>, inputPointer: nat)
      requires Valid() && offset + 1 <= inputEnd < |content| && content[inputEnd] == QUOTE
      requires InStep(content[offset + 1..inputEnd], 0)
      requires skippedBytes == Skipped(content[offset + 1..inputEnd], 0)
      ensures offset < inputPointer <= inputEnd + 1
      ensures ok <==> Unescape(content[offset + 1..inputEnd]).Some?
      ensures ok ==> s == CString(Unescape(content[offset + 1..inputEnd]).value)
    {
      hide Unescape, InStep, Skipped, CString;
      var allocationLength := inputEnd - offset - skippedBytes;
      var output := new byte[allocationLength + 1];
      var length;
      ok, length, inputPointer := UnescapeInto(inputEnd, output);
      s := [];
      if ok {
        ghost var text := output[..length];
        output[length] := 0;
        assert output[..length] == text;
        s := CString(output[..length]);
      }
    }

    // parse_string. What is read is the value of a C string.
    method ParseStringLiteral() returns (ok: bool, s: seq<byte>)
      requires Valid()
      modifies this`offset
      ensures offset <= |content|
      ensures ok <==> ParseString(old(Rest())).Got?
      ensures ok ==> Valid() && offset > old(offset) && ParseString(old(Rest())) == Got(s, Rest())
    {
      ghost var bs := Rest();
      StringParts(bs);
      hide EndOfString, Unescape, CString, ParseString, InStep, Skipped;
      s := [];
      if content[offset] != QUOTE {
        offset := offset + 1;
        return false, s;
      }
      var found, inputEnd, skippedBytes := ScanString();
      if !found {
        offset := offset + 1;
        return false, s;
      }
      TailSlices(content, offset, inputEnd);
      ok, s := FinishString(inputEnd, skippedBytes);
    }

    // The end of parse_string, when the first pass has found the closing quote.
    method FinishString(inputEnd: nat, skippedBytes: nat) returns (ok: bool, s: seq<byte>)
      requires Valid() && offset + 1 <= inputEnd < |content| && content[inputEnd] == QUOTE
      requires InStep(content[offset + 1..inputEnd], 0)
      requires skippedBytes == Skipped(content[offset + 1..inputEnd], 0)
      modifies this`offset
      ensures offset <= |content|
      ensures ok <==> Unescape(old(content[offset + 1..inputEnd])).Some?
      ensures ok ==> Valid() && offset == inputEnd + 1 && Rest() == content[inputEnd + 1..]
      ensures ok ==> s == CString(Unescape(old(content[offset + 1..inputEnd])).value)
    {
      hide Unescape, CString, InStep, Skipped;
      var inputPointer;
      ok, s, inputPointer := Unescaped(inputEnd, skippedBytes);
      if !ok {
        offset := inputPointer;
        return;
      }
      offset := inputEnd;
      offset := offset + 1;
    }

    lemma NumberInside()
      requires Valid()
      ensures offset + |Token(Rest())| < |content|
    {
      var k := TokenLength(Rest(), 63);
      if k > 0 {
        assert IsNumberChar(Rest()[k - 1]);
      }
    }

    // parse_number: at most 63 characters are copied for strtod.
    method ParseNumberLiteral(strtod: Strtod) returns (ok: bool, v: Json)
      requires Valid()
      modifies this`offset
      ensures offset <= |content|
      ensures ok <==> ParseNumber(strtod, old(Rest())).Got?
      ensures ok ==> Valid() && offset > old(offset) && ParseNumber(strtod, old(Rest())) == Got(v, Rest())
    {
      ghost var bs := Rest();
      NumberInside();
      var token := CopyNumber(content, offset);
      var afterEnd := Taken(strtod, token);
      v := Null;
      if afterEnd == 0 {
        return false, v;
      }
      v := Number(token[..afterEnd]);
      offset := offset + afterEnd;
      assert content[offset..] == bs[afterEnd..];
      ok := true;
    }

    // The words that parse_value compares with.
    method ParseWord() returns (ok: bool, v: Json)
      requires Valid()
      modifies this`offset
      ensures Valid() && ok == Word(old(Rest())).Got?
      ensures if ok then offset > old(offset) && Word(old(Rest())) == Got(v, Rest()) else offset == old(offset)
    {
      v := Null;
      var isNull := LooksAt(NULL_TEXT);
      if isNull {
        NoZero(content, offset, NULL_TEXT);
        offset := offset + 4;
        return true, Null;
      }
      var isFalse := LooksAt(FALSE_TEXT);
      if isFalse {
        NoZero(content, offset, FALSE_TEXT);
        offset := offset + 5;
        return true, False;
      }
      var isTrue := LooksAt(TRUE_TEXT);
      if isTrue {
        NoZero(content, offset, TRUE_TEXT);
        offset := offset + 4;
        return true, True;
      }
      ok := false;
    }

    method ParseNext(strtod: Strtod) returns (ok: bool, v: Json)
      requires Valid()
      modifies this
      ensures offset <= |content|
      ensures ok <==> ParseValue(strtod, old(Rest()), old(depth)).Got?
      ensures ok ==> Valid() && offset > old(offset) && depth == old(depth)
      ensures ok ==> ParseValue(strtod, old(Rest()), old(depth)) == Got(v, Rest())
      decreases |content| - offset, 5
    {
      ghost var bs := Rest();
      assert offset < |content| && bs != [] && bs[0] == content[offset];
      hide Word, ParseValue, ParseString, ParseNumber, ParseArray, ParseObject;
      ValueCases(strtod, bs, depth);
      ok, v := ParseWord();
      if ok {
        return;
      }
      var c := content[offset];
      if c == QUOTE {
        var s;
        ok, s := ParseStringLiteral();
        v := String(s);
      } else if c == MINUS || IsDigit(c) {
        ok, v := ParseNumberLiteral(strtod);
      } else if c == OPEN_BRACKET {
        ok, v := ParseArrayText(strtod);
      } else if c == OPEN_BRACE {
        ok, v := ParseObjectText(strtod);
      } else {
        ok := false;
      }
    }

    lemma Cursor(b: byte)
      requires offset < |content|
      ensures Begins(Rest(), b) <==> content[offset] == b
      ensures Rest() != [] && Rest()[1..] == content[offset + 1..]
    {
    }

    lemma NotLast()
      requires Valid() && (Begins(Rest(), OPEN_BRACKET) || Begins(Rest(), OPEN_BRACE))
      ensures offset + 1 < |content|
    {
    }

    // Over a comma or a colon and the white space behind it.
    method StepOver()
      requires Valid() && (offset + 1 < |content| || content[offset] == COLON)
      modifies this`offset
      ensures Valid() && old(offset) < offset < |content|
      ensures Rest() == SkipSpace(content[old(offset) + 1..])
    {
      offset := offset + 1;
      SkipWhitespace();
    }

    // Over the opening bracket and the white space behind it.
    method StepIn()
      requires Valid() && offset + 1 < |content|
      modifies this
      ensures Valid() && old(offset) < offset < |content| && depth == old(depth) + 1
      ensures Rest() == SkipSpace(old(Rest())[1..])
    {
      depth := depth + 1;
      offset := offset + 1;
      SkipWhitespace();
    }

    // To the character in front of the first element.
    method StepBack()
      requires offset > 0 && Valid()
      modifies this`offset
      ensures Valid() && offset == old(offset) - 1 && content[offset + 1..] == old(Rest())
    {
      offset := offset - 1;
    }

    // Over the closing bracket.
    method StepOut()
      requires Valid() && (content[offset] == CLOSE_BRACKET || content[offset] == CLOSE_BRACE) && depth > 0
      modifies this
      ensures Valid() && offset == old(offset) + 1 < |content| && depth == old(depth) - 1
      ensures Rest() == content[old(offset) + 1..]
    {
      depth := depth - 1;
      offset := offset + 1;
    }

    // parse_array
    method ParseArrayText(strtod: Strtod) returns (ok: bool, v: Json)
      requires Valid() && Begins(Rest(), OPEN_BRACKET)
      modifies this
      ensures offset <= |content|
      ensures ok <==> ParseArray(strtod, old(Rest()), old(depth)).Got?
      ensures ok ==> Valid() && offset > old(offset) && depth == old(depth)
      ensures ok ==> ParseArray(strtod, old(Rest()), old(depth)) == Got(v, Rest())
      decreases |content| - offset, 4
    {
      ghost var bs := Rest();
      hide *;
      ArrayCases(strtod, bs, depth);
      NotLast();
      v := Null;
      if depth >= NESTING_LIMIT {
        return false, v;
      }
      StepIn();
      ok, v := ParseArrayInside(strtod);
    }

    // The same behind the opening bracket.
    method ParseArrayInside(strtod: Strtod) returns (ok: bool, v: Json)
      requires Valid() && offset > 0 && depth > 0
      modifies this
      ensures offset <= |content|
      ensures ok <==> ArrayBehind(strtod, old(Rest()), old(depth)).Got?
      ensures ok ==> Valid() && offset > old(offset) - 1 && depth == old(depth) - 1
      ensures ok ==> ArrayBehind(strtod, old(Rest()), old(depth)) == Got(v, Rest())
      decreases |content| - offset + 1, 3
    {
      v := Null;
      hide ParseItems, ParseMembers, Rest, Begins;
      Cursor(CLOSE_BRACKET);
      if content[offset] == CLOSE_BRACKET {
        StepOut();
        return true, Array([]);
      }
      StepBack();
      var items;
      ok, items := ParseItemList(strtod);
      if ok {
        StepOut();
        v := Array(items);
      }
    }

    // The loop of parse_array: the cursor stands in front of the first element, and is left on the
    // closing bracket.
    method ParseItemList(strtod: Strtod) returns (ok: bool, items: seq<Json>)
      requires offset + 1 < |content| && Valid()
      modifies this
      ensures offset <= |content|
      ensures ok <==> ParseItems(strtod, old(content[offset + 1..]), old(depth), []).Got?
      ensures ok ==> Valid() && offset > old(offset) && offset + 1 < |content| && depth == old(depth)
      ensures ok ==> content[offset] == CLOSE_BRACKET
      ensures ok ==>
        ParseItems(strtod, old(content[offset + 1..]), old(depth), []) == Got(Array(items), content[offset + 1..])
      decreases |content| - offset, 2
    {
      hide ParseValue, ParseItems, SkipSpace, Begins, EndOfItems;
      ghost var whole := ParseItems(strtod, content[offset + 1..], depth, []);
      items := [];
      var more := true;
      while more
        invariant old(offset) <= offset < |content| && depth == old(depth)
        invariant more ==> offset + 1 < |content|
        invariant more ==> whole == ParseItems(strtod, content[offset + 1..], depth, items)
        invariant !more ==> offset > old(offset) && whole == EndOfItems(content[offset..], CLOSE_BRACKET, Array(items))
        decreases |content| - offset, more
      {
        ItemsCases(strtod, content[offset + 1..], depth, items);
        var parsed, item := ParseBehind(strtod);
        if !parsed {
          return false, items;
        }
        SkipWhitespace();
        items := items + [item];
        more := content[offset] == COMMA;
        AtCursor(content, offset, COMMA);
      }
      AtEndOfItems(content, offset, CLOSE_BRACKET, Array(items));
      ok := content[offset] == CLOSE_BRACKET;
    }

    // parse_object
    method ParseObjectText(strtod: Strtod) returns (ok: bool, v: Json)
      requires Valid() && Begins(Rest(), OPEN_BRACE)
      modifies this
      ensures offset <= |content|
      ensures ok <==> ParseObject(strtod, old(Rest()), old(depth)).Got?
      ensures ok ==> Valid() && offset > old(offset) && depth == old(depth)
      ensures ok ==> ParseObject(strtod, old(Rest()), old(depth)) == Got(v, Rest())
      decreases |content| - offset, 4
    {
      ghost var bs := Rest();
      hide *;
      ObjectCases(strtod, bs, depth);
      NotLast();
      v := Null;
      if depth >= NESTING_LIMIT {
        return false, v;
      }
      StepIn();
      ok, v := ParseObjectInside(strtod);
    }

    // The same behind the opening bracket.
    method ParseObjectInside(strtod: Strtod) returns (ok: bool, v: Json)
      requires Valid() && offset > 0 && depth > 0
      modifies this
      ensures offset <= |content|
      ensures ok <==> ObjectBehind(strtod, old(Rest()), old(depth)).Got?
      ensures ok ==> Valid() && offset > old(offset) - 1 && depth == old(depth) - 1
      ensures ok ==> ObjectBehind(strtod, old(Rest()), old(depth)) == Got(v, Rest())
      decreases |content| - offset + 1, 3
    {
      v := Null;
      hide ParseItems, ParseMembers, Rest, Begins;
      Cursor(CLOSE_BRACE);
      if content[offset] == CLOSE_BRACE {
        StepOut();
        return true, Object([]);
      }
      StepBack();
      var members;
      ok, members := ParseMemberList(strtod);
      if ok {
        StepOut();
        v := Object(members);
      }
    }

    // The loop of parse_object: the cursor stands in front of the first element, and is left on the
    // closing bracket.
    method ParseMemberList(strtod: Strtod) returns (ok: bool, members: seq<Member>)
      requires offset + 1 < |content| && Valid()
      modifies this
      ensures offset <= |content|
      ensures ok <==> ParseMembers(strtod, old(content[offset + 1..]), old(depth), []).Got?
      ensures ok ==> Valid() && offset > old(offset) && offset + 1 < |content| && depth == old(depth)
      ensures ok ==> content[offset] == CLOSE_BRACE
      ensures ok ==>
        ParseMembers(strtod, old(content[offset + 1..]), old(depth), []) == Got(Object(members), content[offset + 1..])
      decreases |content| - offset, 2
    {
      hide ParseMember, ParseMembers, SkipSpace, Begins, EndOfItems;
      ghost var whole := ParseMembers(strtod, content[offset + 1..], depth, []);
      members := [];
      var more := true;
      while more
        invariant old(offset) <= offset < |content| && depth == old(depth)
        invariant more ==> offset + 1 < |content|
        invariant more ==> whole == ParseMembers(strtod, content[offset + 1..], depth, members)
        invariant !more ==> offset > old(offset) && whole == EndOfItems(content[offset..], CLOSE_BRACE, Object(members))
        decreases |content| - offset, more
      {
        MembersCases(strtod, content[offset + 1..], depth, members);
        var parsed, m := ParseOneMember(strtod);
        if !parsed {
          return false, members;
        }
        SkipWhitespace();
        members := members + [m];
        more := content[offset] == COMMA;
        AtCursor(content, offset, COMMA);
      }
      AtEndOfItems(content, offset, CLOSE_BRACE, Object(members));
      ok := content[offset] == CLOSE_BRACE;
    }

    // Over a bracket, comma or colon to the value behind it.
    method ParseBehind(strtod: Strtod) returns (ok: bool, v: Json)
      requires Valid() && (offset + 1 < |content| || content[offset] == COLON)
      modifies this
      ensures offset <= |content|
      ensures ok <==> ParseValue(strtod, SkipSpace(old(content[offset + 1..])), old(depth)).Got?
      ensures ok ==> Valid() && offset > old(offset) && depth == old(depth)
      ensures ok ==> ParseValue(strtod, SkipSpace(old(content[offset + 1..])), old(depth)) == Got(v, Rest())
      decreases |content| - offset, 0
    {
      hide *;
      StepOver();
      ok, v := ParseNext(strtod);
    }

    // The name of a member and the white space around it, up to the colon.
    method ParseName() returns (ok: bool, key: seq<byte>)
      requires offset + 1 < |content| && Valid()
      modifies this`offset
      ensures offset <= |content|
      ensures ok <==> NameAndColon(old(content[offset + 1..])).Got?
      ensures ok ==> Valid() && offset > old(offset) && content[offset] == COLON
      ensures ok ==> NameAndColon(old(content[offset + 1..])) == Got(key, Rest())
    {
      hide SkipSpace, ParseString, Begins;
      StepOver();
      ok, key := ParseStringLiteral();
      if ok {
        SkipWhitespace();
        Cursor(COLON);
        ok := content[offset] == COLON;
      }
    }

    // The body of the loop in parse_object: the cursor stands on the brace or comma in front.
    method ParseOneMember(strtod: Strtod) returns (ok: bool, m: Member)
      requires offset + 1 < |content| && Valid()
      modifies this
      ensures offset <= |content|
      ensures ok <==> ParseMember(strtod, old(content[offset + 1..]), old(depth)).Got?
      ensures ok ==> Valid() && offset > old(offset) && depth == old(depth)
      ensures ok ==> ParseMember(strtod, old(content[offset + 1..]), old(depth)) == Got(m, Rest())
      decreases |content| - offset, 1
    {
      ghost var bs := content[offset + 1..];
      MemberCases(strtod, bs, depth);
      hide *;
      m := Member([], Null);
      var named, key := ParseName();
      if !named {
        return false, m;
      }
      ghost var name := NameAndColon(bs);
      assert Rest() == name.rest;
      Cursor(COLON);
      assert content[offset + 1..] == name.rest[1..];
      var v;
      ok, v := ParseBehind(strtod);
      m := Member(key, v);
    }
  }

  // The copying loop of parse_number.
  method CopyNumber(content: seq<byte>, offset: nat) returns (token: seq<byte>)
    requires offset <= |content|
    ensures token == Token(content[offset..])
  {
    hide *;
    ghost var bs := content[offset..];
    var numberString := new byte[64];
    var i := 0;
    TokenStart(bs);
    while i < 63 && offset + i < |content| && IsNumberChar(content[offset + i])
      invariant 0 <= i <= 63 && offset + i <= |content|
      invariant forall k | 0 <= k < i :: numberString[k] == bs[k]
      invariant Copied(bs, i)
    {
      TokenStep(bs, i);
      numberString[i] := content[offset + i];
      i := i + 1;
    }
    TokenStop(bs, i);
    token := numberString[..i];
  }

  // The first i characters are part of the token.
  ghost predicate Copied(bs: seq<byte>, i: nat) {
    i <= 63 && i <= |bs| && TokenLength(bs, 63) == i + TokenLength(bs[i..], 63 - i)
  }

  lemma TokenStart(bs: seq<byte>)
    ensures Copied(bs, 0)
  {
    assert bs[0..] == bs;
  }

  lemma TokenStep(bs: seq<byte>, i: nat)
    requires i < 63 && i < |bs| && IsNumberChar(bs[i]) && Copied(bs, i)
    ensures Copied(bs, i + 1)
  {
    assert bs[i..][1..] == bs[i + 1..];
  }

  lemma TokenStop(bs: seq<byte>, i: nat)
    requires Copied(bs, i) && (i == 63 || i == |bs| || !IsNumberChar(bs[i]))
    ensures Token(bs) == bs[..i]
  {
  }

  // cJSON_ParseWithLengthOpts on a zero-terminated text; end is what it stores in return_parse_end.
  method ParseWithLengthOpts(strtod: Strtod, value: seq<byte>, requireNullTerminated: bool)
    returns (item: Option<Json>, end: nat)
    requires value != [] && value[|value| - 1] == 0
    ensures end < |value|
    ensures ParseDocument(strtod, value, requireNullTerminated)
         == if item.Some? then Got(item.value, value[end..]) else Bad
  {
    DocumentCases(strtod, value, requireNullTerminated);
    hide ParseValue, ParseDocument, SkipSpace, JsonSpec.SkipByteOrderMark, Begins;
    var buffer := new ParseBuffer(value);
    buffer.SkipByteOrderMark();
    buffer.SkipWhitespace();
    ghost var bs := buffer.Rest();
    assert bs == SkipSpace(JsonSpec.SkipByteOrderMark(value));
    var ok, v := buffer.ParseNext(strtod);
    if ok && requireNullTerminated {
      buffer.SkipWhitespace();
      buffer.Cursor(0);
      ok := value[buffer.offset] == 0;
    }
    if ok {
      return Some(v), buffer.offset;
    }
    end := if buffer.offset < |value| then buffer.offset else |value| - 1;
    item := None;
  }

  lemma TailSlices(s: seq<byte>, at: nat, end: nat)
    requires at < end < |s|
    ensures s[at..][1..][..end - at - 1] == s[at + 1..end]
    ensures s[at..][1..][end - at..] == s[end + 1..]
  {
  }

  // What the byte at the cursor says about the text in front of it.
  lemma AtCursor(content: seq<byte>, at: nat, b: byte)
    requires at < |content|
    ensures Begins(content[at..], b) <==> content[at] == b
    ensures content[at..][1..] == content[at + 1..]
  {
  }

  lemma AtEndOfItems(content: seq<byte>, at: nat, close: byte, v: Json)
    requires at < |content|
    ensures EndOfItems(content[at..], close, v) == if content[at] == close then Got(v, content[at + 1..]) else Bad
  {
  }

  // A text without zeros found in a zero-terminated buffer does not reach the terminator.
  lemma NoZero(content: seq<byte>, at: nat, text: seq<byte>)
    requires 0 < |content| && content[|content| - 1] == 0 && at < |content|
    requires text <= content[at..] && 0 !in text
    ensures at + |text| < |content|
    ensures content[at + |text|..] == content[at..][|text|..]
  {
    forall k | at <= k < at + |text| ensures content[k] != 0 {
      assert text[k - at] == content[at..][k - at] && text[k - at] in text;
    }
  }

  // parse_string in terms of its two passes.
  lemma StringParts(bs: seq<byte>)
    ensures bs == [] || bs[0] != QUOTE || EndOfString(bs[1..], 0).None? ==> ParseString(bs).Bad?
    ensures bs != [] && bs[0] == QUOTE && EndOfString(bs[1..], 0).Some? ==>
      var e := EndOfString(bs[1..], 0).value;
      var w := bs[1..][..e];
      && InStep(w, 0)
      && ParseString(bs) == match Unescape(w) case None => Bad case Some(out) => Got(CString(out), bs[1..][e + 1..])
  {
    hide Unescape, EndOfString, CString, InStep;
    if bs != [] && EndOfString(bs[1..], 0).Some? {
      EndIsInStep(bs[1..], 0);
    }
  }

  // The second pass has dealt with p bytes of the literal w and written out.
  ghost predicate Progress(w: seq<byte>, p: nat, b: nat, out: seq<byte>) {
    p <= |w| && Budget(w, p, b, |out|) && Unescape(w) == Prepend(out, Unescape(w[p..]))
  }

  lemma Beginning(w: seq<byte>)
    requires InStep(w, 0)
    ensures Progress(w, 0, 0, []) && Allocation(w) > 0
  {
    assert w[0..] == w;
    if Unescape(w).Some? {
      assert [] + Unescape(w).value == Unescape(w).value;
    }
  }

  lemma NextIs(content: seq<byte>, at: nat, end: nat)
    requires at < end < |content| && content[end] == QUOTE
    ensures content[at + 1] == NextChar(content[at..end])
  {
  }

  lemma PrependBoth(a: seq<byte>, b: seq<byte>, c: Option<seq<byte>>)
    ensures Prepend(a, Prepend(b, c)) == Prepend(a + b, c)
  {
    if c.Some? {
      assert a + (b + c.value) == a + b + c.value;
    }
  }

  lemma CopyStep(w: seq<byte>, p: nat, b: nat, out: seq<byte>)
    requires Progress(w, p, b, out) && p < |w| && w[p] != BACKSLASH
    ensures Progress(w, p + 1, p + 1, out + [w[p]]) && |out| + 1 < Allocation(w)
  {
    BudgetCopy(w, p, b, |out|);
    BudgetBound(w, p + 1, p + 1, |out| + 1);
    assert w[p..][1..] == w[p + 1..];
    assert Unescape(w[p..]) == Prepend([w[p]], Unescape(w[p + 1..])) by { hide InStep, Skipped; }
    PrependBoth(out, [w[p]], Unescape(w[p + 1..]));
  }

  lemma LiteralStep(w: seq<byte>, p: nat, b: nat, out: seq<byte>) returns (b': nat)
    requires Progress(w, p, b, out) && p < |w| && w[p] == BACKSLASH && NextChar(w[p..]) == LETTER_U
    ensures var u := ReadUtf16(w[p..]);
      if u.Malformed? then Unescape(w).None?
      else
        && |out| + |Utf8(u.code)| < Allocation(w) && 6 <= u.length <= |w| - p
        && Progress(w, p + u.length, b', out + Utf8(u.code))
  {
    hide ReadUtf16, Utf8, InStep, Skipped;
    b' := b;
    var u := ReadUtf16(w[p..]);
    assert Unescape(w[p..]) ==
      if u.Malformed? then None else Prepend(Utf8(u.code), Unescape(w[p..][u.length..]));
    if u.Literal? {
      var text := Utf8(u.code);
      LiteralSize(u);
      b' := BudgetEscape(w, p, b, |out|, u.length, |text|);
      BudgetBound(w, p + u.length, b', |out| + |text|);
      assert w[p..][u.length..] == w[p + u.length..];
      PrependBoth(out, text, Unescape(w[p + u.length..]));
    }
  }

  lemma LiteralSize(u: Utf16)
    requires u.Literal? && u.code <= 0x10_FFFF && u.length == if u.code < 0x1_0000 then 6 else 12
    ensures (u.length == 6 && |Utf8(u.code)| <= 3) || (u.length == 12 && |Utf8(u.code)| <= 4)
  {
  }

  lemma SimpleStep(w: seq<byte>, p: nat, b: nat, out: seq<byte>) returns (b': nat)
    requires Progress(w, p, b, out) && p < |w| && w[p] == BACKSLASH && NextChar(w[p..]) != LETTER_U
    ensures var x := SimpleEscape(NextChar(w[p..]));
      if x.None? then Unescape(w).None?
      else
        && |out| + 1 < Allocation(w)
        && if p + 1 < |w| then Progress(w, p + 2, b', out + [x.value]) else Unescape(w) == Some(out + [x.value])
  {
    hide ReadUtf16, Utf8, InStep, Skipped;
    b' := b;
    var x := SimpleEscape(NextChar(w[p..]));
    if x.Some? {
      if p + 1 < |w| {
        b' := BudgetEscape(w, p, b, |out|, 2, 1);
        BudgetBound(w, p + 2, b', |out| + 1);
        assert w[p..][2..] == w[p + 2..];
        assert Unescape(w[p..]) == Prepend([x.value], Unescape(w[p + 2..]));
        PrependBoth(out, [x.value], Unescape(w[p + 2..]));
      } else {
        BudgetLast(w, p, b, |out|);
        assert Unescape(w[p..]) == Prepend([x.value], Some([]));
        assert out + ([x.value] + []) == out + [x.value];
      }
    }
  }

  lemma TheEnd(w: seq<byte>, b: nat, out: seq<byte>)
    requires Progress(w, |w|, b, out)
    ensures Unescape(w) == Some(out)
  {
    assert out + [] == out;
  }
}
