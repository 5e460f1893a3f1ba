// Message descriptors: the packed form that PB_BIND builds and the iterator that unpacks it.
module Descriptor {
  import opened Bytes

  const LTYPE_BOOL := 0x00
  const LTYPE_VARINT := 0x01
  const LTYPE_UVARINT := 0x02
  const LTYPE_SVARINT := 0x03
  const LTYPE_FIXED32 := 0x04
  const LTYPE_FIXED64 := 0x05
  const LTYPE_LAST_PACKABLE := 0x05
  const LTYPE_BYTES := 0x06
  const LTYPE_STRING := 0x07
  const LTYPE_SUBMESSAGE := 0x08
  const LTYPE_SUBMSG_W_CB := 0x09
  const LTYPE_EXTENSION := 0x0A
  const LTYPE_FIXED_LENGTH_BYTES := 0x0B

  const HTYPE_REQUIRED := 0x00
  const HTYPE_OPTIONAL := 0x10
  const HTYPE_REPEATED := 0x20
  const HTYPE_ONEOF := 0x30

  const ATYPE_STATIC := 0x00
  const ATYPE_POINTER := 0x80

  function LType(type_: nat): nat { type_ % 0x10 }

  function HType(type_: nat): nat { type_ / 0x10 % 4 * 0x10 }

  function AType(type_: nat): nat { type_ / 0x40 * 0x40 }

  predicate IsSubmsg(type_: nat) {
    LType(type_) == LTYPE_SUBMESSAGE || LType(type_) == LTYPE_SUBMSG_W_CB
  }

  // One line of a message's field list. dataOffset is where the field's storage starts in the
  // message structure and sizeOffset how far in front of it the has flag, the count or the oneof
  // selector is (0: none). width is the number of words the field is bound with, and sub is the
  // field list of a submessage type.
  datatype Field = Field(
    tag: nat, type_: nat, dataOffset: nat, dataSize: nat, sizeOffset: nat, arraySize: nat,
    width: nat, sub: seq<Field>)

  // What the generated constants hold for one message type.
  datatype MsgDesc = MsgDesc(fieldCount: nat, fieldInfo: seq<uint32>, submsgInfo: seq<MsgDesc>)

  // The static assertions that guard the four packed forms. int_least8_t(sizeOffset) is
  // non-negative exactly when sizeOffset % 256 is below 128.
  predicate Fits(f: Field) {
    && f.type_ < 0x100
    && (f.width == 1 ==>
          f.tag < 0x40 && f.dataOffset < 0x100 && f.sizeOffset < 0x10 && f.dataSize < 0x10 && f.arraySize < 2)
    && (f.width == 2 ==>
          f.tag < 0x400 && f.dataOffset < 0x1_0000 && f.sizeOffset < 0x10 && f.dataSize < 0x1000
          && f.arraySize < 0x1000)
    && (f.width == 4 || f.width == 8 ==>
          f.tag < 0x1_0000 && f.dataOffset < 0x1_0000 && f.sizeOffset % 0x100 < 0x80
          && f.dataSize < 0x1_0000 && f.arraySize < 0x1_0000)
    && (f.width == 1 || f.width == 2 || f.width == 4 || f.width == 8)
  }

  // The tag's lowest bits and the type, above the two bits of the format.
  function LowBits(f: Field): (low: nat)
    requires f.type_ < 0x100
    ensures low + 3 < 0x1_0000
  {
    TagBits(f.tag);
    f.tag * 4 % 0x100 + f.type_ * 0x100
  }

  lemma TagBits(tag: nat)
    ensures tag * 4 % 0x100 == 4 * (tag % 0x40)
  {
  }

  // PB_FIELDINFO_1, _2, _4 and _8. The masked parts of a word do not overlap.
  function Pack(f: Field): (words: seq<uint32>)
    requires Fits(f)
    ensures |words| == f.width
  {
    var low := LowBits(f);
    if f.width == 1 then
      [0 + low + f.dataOffset % 0x100 * 0x1_0000 + f.sizeOffset % 0x10 * 0x100_0000
       + f.dataSize % 0x10 * 0x1000_0000]
    else if f.width == 2 then
      [1 + low + f.arraySize % 0x1000 * 0x1_0000 + f.sizeOffset % 0x10 * 0x1000_0000,
       f.dataOffset % 0x1_0000 + f.dataSize % 0x1000 * 0x1_0000 + f.tag / 0x40 % 0x10 * 0x1000_0000]
    else if f.width == 4 then
      [2 + low + f.arraySize % 0x1_0000 * 0x1_0000,
       f.sizeOffset % 0x100 + f.tag / 0x40 * 0x100, f.dataOffset, f.dataSize]
    else
      [3 + low, f.sizeOffset % 0x100 + f.tag / 0x40 * 0x100, f.dataOffset, f.dataSize, f.arraySize, 0, 0, 0]
  }

  ghost predicate AllFit(fields: seq<Field>)
    decreases fields
  {
    forall i | 0 <= i < |fields| :: Fits(fields[i]) && AllFit(fields[i].sub)
  }

  function Words(fields: seq<Field>): seq<uint32>
    requires AllFit(fields)
  {
    if fields == [] then [] else Pack(fields[0]) + Words(fields[1..])
  }

  function Submessages(fields: seq<Field>): seq<MsgDesc>
    requires AllFit(fields)
    decreases fields, 0
  {
    if fields == [] then []
    else (if IsSubmsg(fields[0].type_) then [Bind(fields[0].sub)] else []) + Submessages(fields[1..])
  }

  // PB_BIND: the packed words, closed by a zero word, and the submessage descriptors in order.
  function Bind(fields: seq<Field>): MsgDesc
    requires AllFit(fields)
    decreases fields, 1
  {
    MsgDesc(|fields|, Words(fields) + [0], Submessages(fields))
  }

  // Sums over the fields in front of position i.
  function WordsBefore(fields: seq<Field>, i: nat): nat
    requires i <= |fields|
  {
    if i == 0 then 0 else WordsBefore(fields, i - 1) + fields[i - 1].width
  }

  function RequiredBefore(fields: seq<Field>, i: nat): (n: nat)
    requires i <= |fields|
    ensures n <= i
  {
    if i == 0 then 0
    else RequiredBefore(fields, i - 1) + if HType(fields[i - 1].type_) == HTYPE_REQUIRED then 1 else 0
  }

  lemma {:induction false} RequiredGrows(fields: seq<Field>, i: nat, n: nat)
    requires i <= n <= |fields|
    ensures RequiredBefore(fields, i) <= RequiredBefore(fields, n)
    ensures i < n && HType(fields[i].type_) == HTYPE_REQUIRED ==> RequiredBefore(fields, i) < RequiredBefore(fields, n)
    decreases n
  {
    if i < n {
      RequiredGrows(fields, i, n - 1);
    }
  }

  function SubmsgBefore(fields: seq<Field>, i: nat): nat
    requires i <= |fields|
  {
    if i == 0 then 0 else SubmsgBefore(fields, i - 1) + if IsSubmsg(fields[i - 1].type_) then 1 else 0
  }

  lemma {:induction false} BeforeTail(fields: seq<Field>, i: nat)
    requires 0 < i <= |fields|
    ensures WordsBefore(fields, i) == fields[0].width + WordsBefore(fields[1..], i - 1)
    ensures SubmsgBefore(fields, i)
         == (if IsSubmsg(fields[0].type_) then 1 else 0) + SubmsgBefore(fields[1..], i - 1)
  {
    if i > 1 {
      BeforeTail(fields, i - 1);
    }
  }

  // The words of field i start where the widths of the earlier fields end.
  lemma {:induction false} WordsAt(fields: seq<Field>, i: nat)
    requires AllFit(fields) && i < |fields|
    ensures WordsBefore(fields, i) + fields[i].width <= |Words(fields)|
    ensures forall k | 0 <= k < fields[i].width ::
      Words(fields)[WordsBefore(fields, i) + k] == Pack(fields[i])[k]
  {
    hide Pack, Fits;
    if i > 0 {
      var tail := fields[1..];
      assert forall j | 0 <= j < |tail| :: tail[j] == fields[j + 1];
      WordsAt(tail, i - 1);
      BeforeTail(fields, i);
      var at := WordsBefore(tail, i - 1);
      forall k | 0 <= k < fields[i].width
        ensures Words(fields)[WordsBefore(fields, i) + k] == Pack(fields[i])[k]
      {
        assert Words(fields)[fields[0].width + (at + k)] == Words(tail)[at + k];
      }
    }
  }

  // The words the iterator reads at field i, and the closing zero of an empty message.
  lemma BoundWords(fields: seq<Field>, i: nat)
    requires AllFit(fields) && (if fields == [] then i == 0 else i < |fields|)
    ensures WordsBefore(fields, i) < |Bind(fields).fieldInfo|
    ensures Bind(fields).fieldInfo[|Bind(fields).fieldInfo| - 1] == 0
    ensures fields != [] ==> WordsBefore(fields, i) + fields[i].width < |Bind(fields).fieldInfo|
    ensures fields != [] ==> forall k | 0 <= k < fields[i].width ::
      Bind(fields).fieldInfo[WordsBefore(fields, i) + k] == Pack(fields[i])[k]
  {
    if fields != [] {
      WordsAt(fields, i);
    }
  }

  lemma {:induction false} SubmessageAt(fields: seq<Field>, i: nat)
    requires AllFit(fields) && i < |fields| && IsSubmsg(fields[i].type_)
    ensures SubmsgBefore(fields, i) < |Submessages(fields)|
    ensures Submessages(fields)[SubmsgBefore(fields, i)] == Bind(fields[i].sub)
  {
    if i > 0 {
      var tail := fields[1..];
      assert forall j | 0 <= j < |tail| :: tail[j] == fields[j + 1];
      SubmessageAt(tail, i - 1);
      BeforeTail(fields, i);
    }
  }

  // A bit field of a word: lo in the bits below p, x in the next ones, hi above them.
  lemma Bits(w: nat, lo: nat, p: nat, x: nat, n: nat, hi: nat)
    requires 0 < p && 0 < n && lo < p && x < n && w == lo + p * (x + n * hi)
    ensures w / p % n == x && w % p == lo
  {
    Split(lo, p, x + n * hi);
    Split(x, n, hi);
  }

  lemma Split(lo: nat, p: nat, hi: nat)
    requires 0 < p && lo < p
    ensures (lo + p * hi) / p == hi && (lo + p * hi) % p == lo
  {
    var w := lo + p * hi;
    var d := w / p - hi;
    assert p * d == lo - w % p;
    if d >= 1 {
      AtLeast(p, d);
    } else if d <= -1 {
      AtLeast(p, -d);
    }
  }

  function Format(width: nat): nat {
    if width == 1 then 0 else if width == 2 then 1 else if width == 4 then 2 else 3
  }

  // What the first word holds above the type.
  function FirstWordTop(f: Field): nat {
    if f.width == 1 then f.dataOffset + 0x100 * (f.sizeOffset + 0x10 * f.dataSize)
    else if f.width == 2 then f.arraySize + 0x1000 * f.sizeOffset
    else if f.width == 4 then f.arraySize
    else 0
  }

  lemma FirstWordShape(f: Field)
    requires Fits(f)
    ensures Pack(f)[0] == Format(f.width) + 4 * (f.tag % 0x40 + 0x40 * (f.type_ + 0x100 * FirstWordTop(f)))
  {
    TagBits(f.tag);
    if f.width == 1 {
      assert f.dataOffset % 0x100 == f.dataOffset && f.sizeOffset % 0x10 == f.sizeOffset;
    } else if f.width == 2 {
      assert f.arraySize % 0x1000 == f.arraySize && f.sizeOffset % 0x10 == f.sizeOffset;
    } else {
      assert f.arraySize % 0x1_0000 == f.arraySize;
    }
  }

  lemma FirstWord(f: Field)
    requires Fits(f)
    ensures Pack(f)[0] % 4 == Format(f.width)
    ensures Pack(f)[0] / 4 % 0x40 == f.tag % 0x40
    ensures Pack(f)[0] / 0x100 % 0x100 == f.type_
    ensures Pack(f)[0] / 0x1_0000 == FirstWordTop(f)
  {
    hide Pack, FirstWordTop;
    FirstWordShape(f);
    var w, low, top := Pack(f)[0], Format(f.width) + 4 * (f.tag % 0x40), FirstWordTop(f);
    Bits(w, Format(f.width), 4, f.tag % 0x40, 0x40, f.type_ + 0x100 * top);
    Bits(w, low, 0x100, f.type_, 0x100, top);
    Split(low + 0x100 * f.type_, 0x1_0000, top);
  }

  lemma DivDiv(w: nat)
    ensures w / 0x1_0000 / 0x100 == w / 0x100_0000
    ensures w / 0x1_0000 / 0x1000 == w / 0x1000_0000
  {
  }

  lemma OneWord(f: Field)
    requires Fits(f) && f.width == 1
    ensures Pack(f)[0] / 0x100_0000 % 0x10 == f.sizeOffset
    ensures Pack(f)[0] / 0x1_0000 % 0x100 == f.dataOffset
    ensures Pack(f)[0] / 0x1000_0000 % 0x10 == f.dataSize
  {
    FirstWord(f);
    var w := FirstWordTop(f);
    DivDiv(Pack(f)[0]);
    Bits(w, f.dataOffset, 0x100, f.sizeOffset, 0x10, f.dataSize);
    Bits(w, f.dataOffset + 0x100 * f.sizeOffset, 0x1000, f.dataSize, 0x10, 0);
  }

  lemma TwoWords(f: Field)
    requires Fits(f) && f.width == 2
    ensures Pack(f)[0] / 0x1_0000 % 0x1000 == f.arraySize
    ensures Pack(f)[0] / 0x1000_0000 % 0x10 == f.sizeOffset
    ensures f.tag % 0x40 + Pack(f)[1] / 0x1000_0000 * 0x40 == f.tag
    ensures Pack(f)[1] % 0x1_0000 == f.dataOffset
    ensures Pack(f)[1] / 0x1_0000 % 0x1000 == f.dataSize
  {
    FirstWord(f);
    DivDiv(Pack(f)[0]);
    Bits(FirstWordTop(f), f.arraySize, 0x1000, f.sizeOffset, 0x10, 0);
    SecondWord(f);
  }

  lemma SecondWord(f: Field)
    requires Fits(f) && f.width == 2
    ensures f.tag % 0x40 + Pack(f)[1] / 0x1000_0000 * 0x40 == f.tag
    ensures Pack(f)[1] % 0x1_0000 == f.dataOffset
    ensures Pack(f)[1] / 0x1_0000 % 0x1000 == f.dataSize
  {
    var w, high := Pack(f)[1], f.tag / 0x40;
    assert high < 0x10;
    assert w == f.dataOffset + 0x1_0000 * (f.dataSize + 0x1000 * high);
    Bits(w, f.dataOffset, 0x1_0000, f.dataSize, 0x1000, high);
    Split(f.dataOffset + 0x1_0000 * f.dataSize, 0x1000_0000, high);
  }

  lemma WideWords(f: Field)
    requires Fits(f) && (f.width == 4 || f.width == 8)
    ensures f.tag % 0x40 + Pack(f)[1] / 0x100 * 0x40 == f.tag
    ensures Pack(f)[1] % 0x100 == f.sizeOffset % 0x100
    ensures Pack(f)[2] == f.dataOffset && Pack(f)[3] == f.dataSize
    ensures if f.width == 4 then Pack(f)[0] / 0x1_0000 == f.arraySize else Pack(f)[4] == f.arraySize
  {
    FirstWord(f);
    Split(f.sizeOffset % 0x100, 0x100, f.tag / 0x40);
  }

  // A part of a word: a number and how many bits it has.
  datatype Part = Part(n: nat, bits: nat)

  // The word made of parts, the lowest first. Each of them has to fit into its bits.
  ghost function Word(parts: seq<Part>): Option<nat> {
    if parts == [] then Some(0)
    else
      match Word(parts[1..])
      case None => None
      case Some(w) =>
        if parts[0].n < Pow2(parts[0].bits) then Some(parts[0].n + Pow2(parts[0].bits) * w) else None
  }

  lemma WordGrows(n: nat, bits: nat, parts: seq<Part>, w: nat)
    requires n < Pow2(bits) && Word(parts) == Some(w)
    ensures Word([Part(n, bits)] + parts) == Some(n + Pow2(bits) * w)
  {
    assert ([Part(n, bits)] + parts)[1..] == parts;
  }

  lemma PartSizes()
    ensures Pow2(2) == 4 && Pow2(4) == 0x10 && Pow2(6) == 0x40 && Pow2(8) == 0x100 && Pow2(10) == 0x400
    ensures Pow2(12) == 0x1000 && Pow2(16) == 0x1_0000 && Pow2(24) == 0x100_0000
  {
    Pow2Sum(2, 8);
    Pow2Sum(4, 8);
    Pow2Sum(8, 8);
    Pow2Sum(8, 16);
  }

  lemma OnePart(n: nat, bits: nat)
    requires n < Pow2(bits)
    ensures Word([Part(n, bits)]) == Some(n)
  {
    WordGrows(n, bits, [], 0);
    assert [Part(n, bits)] + [] == [Part(n, bits)];
  }

  lemma TwoParts(n: nat, bits: nat, n1: nat, bits1: nat)
    requires n < Pow2(bits) && n1 < Pow2(bits1)
    ensures Word([Part(n, bits), Part(n1, bits1)]) == Some(n + Pow2(bits) * n1)
  {
    hide Word, Pow2;
    OnePart(n1, bits1);
    WordGrows(n, bits, [Part(n1, bits1)], n1);
    assert [Part(n, bits)] + [Part(n1, bits1)] == [Part(n, bits), Part(n1, bits1)];
  }

  lemma ThreeParts(n: nat, bits: nat, n1: nat, bits1: nat, n2: nat, bits2: nat)
    requires n < Pow2(bits) && n1 < Pow2(bits1) && n2 < Pow2(bits2)
    ensures Word([Part(n, bits), Part(n1, bits1), Part(n2, bits2)]) == Some(n + Pow2(bits) * (n1 + Pow2(bits1) * n2))
  {
    hide Word, Pow2;
    TwoParts(n1, bits1, n2, bits2);
    var rest := [Part(n1, bits1), Part(n2, bits2)];
    var w := Word(rest).value;
    WordGrows(n, bits, rest, w);
    assert [Part(n, bits)] + rest == [Part(n, bits), Part(n1, bits1), Part(n2, bits2)];
  }

  // The parts that every format begins with.
  function FirstParts(f: Field): seq<Part> {
    [Part(if f.width == 1 then 0 else if f.width == 2 then 1 else if f.width == 4 then 2 else 3, 2),
     Part(f.tag % 0x40, 6), Part(f.type_, 8)]
  }

  lemma FirstWordParts(f: Field, top: seq<Part>)
    requires Fits(f) && Word(top) == Some(FirstWordTop(f))
    ensures Word(FirstParts(f) + top) == Some(Pack(f)[0])
  {
    hide Pack, FirstWordTop, Word;
    PartSizes();
    FirstWordShape(f);
    var p := FirstParts(f);
    var t := FirstWordTop(f);
    WordGrows(f.type_, 8, top, t);
    WordGrows(f.tag % 0x40, 6, [p[2]] + top, f.type_ + 0x100 * t);
    WordGrows(p[0].n, 2, [p[1]] + ([p[2]] + top), f.tag % 0x40 + 0x40 * (f.type_ + 0x100 * t));
    assert [p[0]] + ([p[1]] + ([p[2]] + top)) == p + top;
  }

  // The words in each format, by the table in pb.h.
  lemma PackedFormat(f: Field)
    requires Fits(f)
    ensures var first, second := FirstParts(f), [Part(f.sizeOffset % 0x100, 8), Part(f.tag / 0x40, 24)];
      var w := Pack(f);
      match f.width
      case 1 =>
        Some(w[0]) == Word(first + [Part(f.dataOffset, 8), Part(f.sizeOffset, 4), Part(f.dataSize, 4)])
      case 2 =>
        && Some(w[0]) == Word(first + [Part(f.arraySize, 12), Part(f.sizeOffset, 4)])
        && Some(w[1]) == Word([Part(f.dataOffset, 16), Part(f.dataSize, 12), Part(f.tag / 0x40, 4)])
      case 4 =>
        && Some(w[0]) == Word(first + [Part(f.arraySize, 16)])
        && Some(w[1]) == Word(second) && w[2..] == [f.dataOffset, f.dataSize]
      case _ =>
        && Some(w[0]) == Word(first + [Part(0, 16)])
        && Some(w[1]) == Word(second) && w[2..] == [f.dataOffset, f.dataSize, f.arraySize, 0, 0, 0]
  {
    hide Word, Pow2;
    PartSizes();
    if f.width == 1 {
      ThreeParts(f.dataOffset, 8, f.sizeOffset, 4, f.dataSize, 4);
      FirstWordParts(f, [Part(f.dataOffset, 8), Part(f.sizeOffset, 4), Part(f.dataSize, 4)]);
    } else if f.width == 2 {
      TwoParts(f.arraySize, 12, f.sizeOffset, 4);
      FirstWordParts(f, [Part(f.arraySize, 12), Part(f.sizeOffset, 4)]);
      ThreeParts(f.dataOffset, 16, f.dataSize, 12, f.tag / 0x40, 4);
    } else {
      var n := if f.width == 4 then f.arraySize else 0;
      OnePart(n, 16);
      FirstWordParts(f, [Part(n, 16)]);
      TwoParts(f.sizeOffset % 0x100, 8, f.tag / 0x40, 24);
    }
  }

  lemma {:induction false} WordExists(parts: seq<Part>)
    ensures Word(parts).Some? <==> forall i | 0 <= i < |parts| :: parts[i].n < Pow2(parts[i].bits)
  {
    hide Pow2;
    if parts != [] {
      WordExists(parts[1..]);
      assert forall i | 1 <= i < |parts| :: parts[i] == parts[1..][i - 1];
    }
  }

  // A field can be bound with one or two words exactly if each part fits into its bits. The wide formats
  // take 16 bits of everything but the size offset, which has to be a non-negative number of eight.
  lemma FitsExactly(f: Field)
    ensures f.width == 1 ==> (Fits(f) <==> Word(OneWordParts(f)).Some? && f.arraySize <= 1)
    ensures f.width == 2 ==> (Fits(f) <==> Word(TwoWordParts(f)).Some?)
    ensures f.width == 4 || f.width == 8 ==>
      (Fits(f) <==> Word(WideParts(f)).Some? && f.sizeOffset % 0x100 <= 127)
    ensures f.width != 1 && f.width != 2 && f.width != 4 && f.width != 8 ==> !Fits(f)
  {
    hide Pow2;
    PartSizes();
    var a, b, c := OneWordParts(f), TwoWordParts(f), WideParts(f);
    WordExists(a);
    WordExists(b);
    WordExists(c);
    assert a[0].n == b[0].n == c[0].n == f.tag && a[1].n == b[1].n == c[1].n == f.type_;
    assert a[2].n == b[4].n == c[3].n == f.dataOffset && a[4].n == b[5].n == c[4].n == f.dataSize;
    assert a[3].n == b[3].n == f.sizeOffset && b[2].n == c[2].n == f.arraySize;
  }

  function OneWordParts(f: Field): seq<Part> {
    [Part(f.tag, 6), Part(f.type_, 8), Part(f.dataOffset, 8), Part(f.sizeOffset, 4), Part(f.dataSize, 4)]
  }

  function TwoWordParts(f: Field): seq<Part> {
    [Part(f.tag, 10), Part(f.type_, 8), Part(f.arraySize, 12), Part(f.sizeOffset, 4), Part(f.dataOffset, 16),
     Part(f.dataSize, 12)]
  }

  function WideParts(f: Field): seq<Part> {
    [Part(f.tag, 16), Part(f.type_, 8), Part(f.arraySize, 16), Part(f.dataOffset, 16), Part(f.dataSize, 16)]
  }

  // What the iterator can get back from the packed words: the one-word form has no room for the
  // array size and the wide forms keep eight bits of the size offset.
  function AsLoaded(f: Field): Field {
    if f.width == 1 then f.(arraySize := 1)
    else if f.width == 2 then f
    else f.(sizeOffset := f.sizeOffset % 0x100)
  }

  // A binding that loses nothing.
  predicate Exact(f: Field) {
    Fits(f) && (f.width == 1 ==> f.arraySize == 1) && (f.width >= 4 ==> f.sizeOffset < 0x80)
  }

  lemma LoadedExactly(f: Field)
    requires Fits(f)
    ensures AsLoaded(f) == f <==> Exact(f)
  {
  }

  // The words of a field determine what is loaded from them, and are determined by it: nothing else is
  // lost in packing.
  lemma WordsTell(f: Field, g: Field)
    requires Fits(f) && Fits(g) && f.sub == g.sub
    ensures Pack(f) == Pack(g) <==> AsLoaded(f) == AsLoaded(g)
  {
    if Pack(f) == Pack(g) {
      LoadedFromWords(f, g);
    }
  }

  lemma LoadedFromWords(f: Field, g: Field)
    requires Fits(f) && Fits(g) && f.sub == g.sub && Pack(f) == Pack(g)
    ensures AsLoaded(f) == AsLoaded(g)
  {
    hide Pack, FirstWordTop;
    FirstWord(f);
    FirstWord(g);
    if f.width == 1 {
      OneWord(f);
      OneWord(g);
    } else if f.width == 2 {
      TwoWords(f);
      TwoWords(g);
    } else {
      WideWords(f);
      WideWords(g);
    }
  }

  // The first field with the given tag that is not an extension placeholder.
  function Search(fields: seq<Field>, tag: nat): (r: Option<nat>)
    ensures r.Some? ==>
      && r.value < |fields| && fields[r.value].tag == tag && LType(fields[r.value].type_) != LTYPE_EXTENSION
    ensures r.None? ==>
      forall i | 0 <= i < |fields| :: fields[i].tag == tag ==> LType(fields[i].type_) == LTYPE_EXTENSION
  {
    SearchFrom(fields, tag, 0)
  }

  function SearchFrom(fields: seq<Field>, tag: nat, i: nat): (r: Option<nat>)
    requires i <= |fields|
    ensures r.Some? ==>
      && i <= r.value < |fields| && fields[r.value].tag == tag
      && LType(fields[r.value].type_) != LTYPE_EXTENSION
    ensures r.None? ==>
      forall j | i <= j < |fields| :: fields[j].tag == tag ==> LType(fields[j].type_) == LTYPE_EXTENSION
    decreases |fields| - i
  {
    if i == |fields| then None
    else if fields[i].tag == tag && LType(fields[i].type_) != LTYPE_EXTENSION then Some(i)
    else SearchFrom(fields, tag, i + 1)
  }

  ghost predicate DistinctTags(fields: seq<Field>) {
    forall i, j | 0 <= i < j < |fields| :: fields[i].tag != fields[j].tag
  }

  class FieldIter {
    const descriptor: MsgDesc
    ghost const fields: seq<Field>

    var index: nat
    var fieldInfoIndex: nat
    var requiredFieldIndex: nat
    var submessageIndex: nat

    var tag: nat
    var dataSize: nat
    var arraySize: nat
    var type_: nat
    var dataOffset: nat
    var sizeOffset: nat
    var submsgDesc: Option<MsgDesc>

    // The indexes are the sums over the fields in front of the current one.
    ghost predicate Positioned()
      reads this
    {
      && AllFit(fields) && descriptor == Bind(fields)
      && (fields == [] ==> index == 0)
      && (fields != [] ==> index < |fields|)
      && fieldInfoIndex == WordsBefore(fields, index)
      && requiredFieldIndex == RequiredBefore(fields, index)
      && submessageIndex == SubmsgBefore(fields, index)
    }

    // The unpacked values belong to the current field; an empty message leaves them zero.
    ghost predicate Loaded()
      reads this
      requires Positioned()
    {
      if fields == [] then
        tag == 0 && type_ == 0
      else
        var f := AsLoaded(fields[index]);
        && tag == f.tag && type_ == f.type_ && dataSize == f.dataSize && arraySize == f.arraySize
        && dataOffset == f.dataOffset && sizeOffset == f.sizeOffset
        && submsgDesc == (if IsSubmsg(f.type_) then Some(Bind(f.sub)) else None)
    }

    ghost predicate Valid()
      reads this
    {
      Positioned() && Loaded()
    }

    // The iterator is at field f, and the packed words kept all of it.
    ghost predicate At(f: Field)
      reads this
    {
      Valid() && fields != [] && fields[index] == f && AsLoaded(f) == f
    }

    // What the iterator shows of the field it is at.
    lemma Shows(f: Field)
      requires At(f)
      ensures tag == f.tag && type_ == f.type_ && dataSize == f.dataSize && arraySize == f.arraySize
      ensures dataOffset == f.dataOffset && sizeOffset == f.sizeOffset
      ensures submsgDesc == if IsSubmsg(f.type_) then Some(Bind(f.sub)) else None
      ensures IsSubmsg(f.type_) ==> AllFit(f.sub)
    {
    }

    // An array whose count is not stored, because all of its elements are always there.
    predicate IsFixedCount()
      reads this
    {
      && sizeOffset == 0 && HType(type_) == HTYPE_REPEATED
      && (AType(type_) == ATYPE_STATIC || AType(type_) == ATYPE_POINTER)
    }

    constructor Begin(descriptor: MsgDesc, ghost fields: seq<Field>)
      requires AllFit(fields) && descriptor == Bind(fields)
      ensures Valid() && this.descriptor == descriptor && this.fields == fields && index == 0
    {
      this.descriptor, this.fields := descriptor, fields;
      index, fieldInfoIndex, requiredFieldIndex, submessageIndex := 0, 0, 0, 0;
      tag, dataSize, arraySize, type_, dataOffset, sizeOffset := 0, 0, 0, 0, 0, 0;
      submsgDesc := None;
      new;
      var _ := LoadDescriptorValues();
    }

    method LoadDescriptorValues() returns (ok: bool)
      requires Positioned()
      requires fields == [] ==> tag == 0 && type_ == 0
      modifies this`tag, this`type_, this`dataSize, this`arraySize, this`dataOffset, this`sizeOffset,
               this`submsgDesc
      ensures Valid() && ok == (fields != [])
    {
      hide Pack, FirstWordTop, Words, WordsBefore, Submessages, SubmsgBefore, RequiredBefore;
      if index >= descriptor.fieldCount {
        return false;
      }
      ghost var f := fields[index];
      BoundWords(fields, index);
      FirstWord(f);
      var at := fieldInfoIndex;
      var word0 := descriptor.fieldInfo[at];
      assert word0 == descriptor.fieldInfo[at + 0];
      var format := word0 % 4;
      tag := word0 / 4 % 0x40;
      type_ := word0 / 0x100 % 0x100;
      if format <= 1 {
        UnpackNarrow(word0);
      } else {
        UnpackWide(word0);
      }
      if IsSubmsg(type_) {
        SubmessageAt(fields, index);
        submsgDesc := Some(descriptor.submsgInfo[submessageIndex]);
      } else {
        submsgDesc := None;
      }
      ok := true;
    }

    // The one-word and the two-word format.
    method UnpackNarrow(word0: nat)
      requires Positioned() && fields != [] && fields[index].width < 4
      requires word0 == Pack(fields[index])[0] && tag == fields[index].tag % 0x40
      modifies this`tag, this`dataSize, this`arraySize, this`dataOffset, this`sizeOffset
      ensures var f := AsLoaded(fields[index]);
        && tag == f.tag && dataSize == f.dataSize && arraySize == f.arraySize
        && dataOffset == f.dataOffset && sizeOffset == f.sizeOffset
    {
      hide Pack, FirstWordTop, Words, WordsBefore, Submessages, SubmsgBefore, RequiredBefore;
      ghost var f := fields[index];
      BoundWords(fields, index);
      FirstWord(f);
      if word0 % 4 == 0 {
        OneWord(f);
        arraySize := 1;
        sizeOffset := word0 / 0x100_0000 % 0x10;
        dataOffset := word0 / 0x1_0000 % 0x100;
        dataSize := word0 / 0x1000_0000 % 0x10;
      } else {
        TwoWords(f);
        var word1 := descriptor.fieldInfo[fieldInfoIndex + 1];
        assert word1 == Pack(f)[1];
        arraySize := word0 / 0x1_0000 % 0x1000;
        tag := tag + word1 / 0x1000_0000 * 0x40;
        sizeOffset := word0 / 0x1000_0000 % 0x10;
        dataOffset := word1 % 0x1_0000;
        dataSize := word1 / 0x1_0000 % 0x1000;
      }
    }

    // The four-word and the eight-word format.
    method UnpackWide(word0: nat)
      requires Positioned() && fields != [] && fields[index].width >= 4
      requires word0 == Pack(fields[index])[0] && tag == fields[index].tag % 0x40
      modifies this`tag, this`dataSize, this`arraySize, this`dataOffset, this`sizeOffset
      ensures var f := AsLoaded(fields[index]);
        && tag == f.tag && dataSize == f.dataSize && arraySize == f.arraySize
        && dataOffset == f.dataOffset && sizeOffset == f.sizeOffset
    {
      hide Pack, FirstWordTop, Words, WordsBefore, Submessages, SubmsgBefore, RequiredBefore;
      BoundWords(fields, index);
      FirstWord(fields[index]);
      WideWords(fields[index]);
      var at := fieldInfoIndex;
      var word1 := descriptor.fieldInfo[at + 1];
      var word2 := descriptor.fieldInfo[at + 2];
      var word3 := descriptor.fieldInfo[at + 3];
      if word0 % 4 == 2 {
        arraySize := word0 / 0x1_0000;
      } else {
        var word4 := descriptor.fieldInfo[at + 4];
        arraySize := word4;
      }
      tag := tag + word1 / 0x100 * 0x40;
      sizeOffset := word1 % 0x100;
      dataOffset := word2;
      dataSize := word3;
    }

    method AdvanceIterator()
      requires Positioned()
      modifies this`index, this`fieldInfoIndex, this`requiredFieldIndex, this`submessageIndex
      ensures Positioned()
      ensures index == if old(index) + 1 >= |fields| then 0 else old(index) + 1
    {
      hide Pack, FirstWordTop, Words, Submessages;
      index := index + 1;
      if index >= descriptor.fieldCount {
        index, fieldInfoIndex, submessageIndex, requiredFieldIndex := 0, 0, 0, 0;
      } else {
        BoundWords(fields, index - 1);
        FirstWord(fields[index - 1]);
        var prev := descriptor.fieldInfo[fieldInfoIndex];
        assert prev == descriptor.fieldInfo[fieldInfoIndex + 0];
        var prevType := prev / 0x100 % 0x100;
        var descriptorLen := if prev % 4 == 0 then 1 else if prev % 4 == 1 then 2 else if prev % 4 == 2 then 4 else 8;
        fieldInfoIndex := fieldInfoIndex + descriptorLen;
        if HType(prevType) == HTYPE_REQUIRED {
          requiredFieldIndex := requiredFieldIndex + 1;
        }
        if IsSubmsg(prevType) {
          submessageIndex := submessageIndex + 1;
        }
      }
    }

    method Next() returns (more: bool)
      requires Valid()
      modifies this
      ensures Valid()
      ensures index == if old(index) + 1 >= |fields| then 0 else old(index) + 1
      ensures more == (index != 0)
    {
      AdvanceIterator();
      var _ := LoadDescriptorValues();
      more := index != 0;
    }

    // Fast check of the low six tag bits; only a field that passes it is unpacked.
    method CheckCandidate(sought: nat) returns (match_: bool)
      requires Positioned()
      requires fields == [] ==> tag == 0 && type_ == 0 && sought != 0
      modifies this`tag, this`type_, this`dataSize, this`arraySize, this`dataOffset, this`sizeOffset,
               this`submsgDesc
      ensures Positioned() && (fields == [] ==> tag == 0 && type_ == 0)
      ensures match_ ==> Valid() && fields != [] && tag == sought && fields[index].tag == sought
      ensures match_ ==> LType(fields[index].type_) != LTYPE_EXTENSION
      ensures !match_ ==> Passed(fields, index, sought)
    {
      hide Pack, FirstWordTop, Words, WordsBefore, Submessages, SubmsgBefore, RequiredBefore;
      BoundWords(fields, index);
      var fieldinfo := descriptor.fieldInfo[fieldInfoIndex];
      if fields != [] {
        FirstWord(fields[index]);
        assert fieldinfo == descriptor.fieldInfo[fieldInfoIndex + 0];
      }
      if fieldinfo / 4 % 0x40 == sought % 0x40 {
        var _ := LoadDescriptorValues();
        if tag == sought && LType(type_) != LTYPE_EXTENSION {
          return true;
        }
      }
      match_ := false;
    }

    // Searches from the current field around the circle, looking closer only at fields whose low
    // six tag bits match. The current field itself matches without regard to its type.
    method Find(sought: nat) returns (found: bool, ghost steps: nat)
      requires Valid()
      modifies this
      ensures Valid() && steps <= if fields == [] then 1 else |fields|
      ensures found <==> old(tag) == sought || Search(fields, sought).Some?
      ensures found ==> tag == sought
      ensures found && fields != [] ==> fields[index].tag == sought
      ensures found && old(tag) != sought ==> fields != [] && LType(fields[index].type_) != LTYPE_EXTENSION
      ensures !found || old(tag) == sought ==> index == old(index)
    {
      hide Pack, FirstWordTop, Words, WordsBefore, Submessages, SubmsgBefore, RequiredBefore, AllFit;
      steps := 0;
      if tag == sought {
        return true, steps;
      }
      var start := index;
      ghost var wrapped := false;
      while true
        invariant Positioned() && start == old(index)
        invariant fields == [] ==> tag == 0 && type_ == 0 && start == 0 && steps == 0
        invariant fields != [] ==> start < |fields| && steps == Distance(|fields|, start, index, wrapped)
        invariant wrapped ==> index < start
        invariant forall j :: Visited(start, index, wrapped, j) ==> Passed(fields, j, sought)
        decreases |fields| - steps
      {
        AdvanceIterator();
        wrapped := fields != [] && (wrapped || index == 0);
        steps := steps + 1;
        found := CheckCandidate(sought);
        if found {
          return;
        }
        if index == start {
          break;
        }
      }
      if fields != [] {
        AllPassed(fields, start, sought);
      }
      var _ := LoadDescriptorValues();
      found := false;
    }
  }

  ghost predicate Passed(fields: seq<Field>, j: nat, sought: nat) {
    j < |fields| ==> fields[j].tag == sought ==> LType(fields[j].type_) == LTYPE_EXTENSION
  }

  // The positions looked at on the way from start to index, both ways round.
  ghost predicate Visited(start: nat, index: nat, wrapped: bool, j: nat) {
    if wrapped then j > start || j <= index else start < j <= index
  }

  ghost function Distance(n: nat, start: nat, index: nat, wrapped: bool): int {
    if wrapped then n - start + index else index - start
  }

  // Going once around visits every field.
  lemma AllPassed(fields: seq<Field>, start: nat, sought: nat)
    requires start < |fields|
    requires forall j :: Visited(start, start, true, j) ==> Passed(fields, j, sought)
    ensures Search(fields, sought).None?
  {
    var r := Search(fields, sought);
    if r.Some? {
      assert Visited(start, start, true, r.value);
    }
  }
}
