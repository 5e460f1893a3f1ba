// The bytes of each kind of record and what is read from any bytes of that kind, with the numbers of
// the Protocol Buffers encoding and of pb.h written out.
module WireForms {
  import opened Bytes
  import opened Descriptor
  import opened Message
  import opened OutputStream
  import opened InputStream
  import opened EncodeSpec
  import opened DecodeSpec
  import opened ScalarRoundTrip
  import opened Structures
  import opened RoundTrip
  import Varint

  // --- What is written

  // The 64-bit number that stands for n in a field of type bool, int, uint or sint.
  function NumberOnWire(ltype: nat, n: int): int {
    if ltype == 0x03 then (if n >= 0 then 2 * n else -2 * n - 1)
    else if n >= 0 then n
    else n + 0x1_0000_0000_0000_0000
  }

  // The word that four or eight bytes denote, the lowest byte first.
  function WordOf(b: seq<byte>): nat
    requires |b| == 4 || |b| == 8
  {
    var w: seq<int> := b;
    var low := w[0] + 0x100 * w[1] + 0x1_0000 * w[2] + 0x100_0000 * w[3];
    if |b| == 4 then low
    else
      low + 0x1_0000_0000 * w[4] + 0x100_0000_0000 * w[5] + 0x1_0000_0000_0000 * w[6] + 0x100_0000_0000_0000 * w[7]
  }

  function Delimited(data: seq<byte>): seq<byte> {
    Varint.Encode(|data|) + data
  }

  // A record is the number of the field and the wire type, and a body.
  predicate IsRecord(w: Option<seq<byte>>, tag: nat, wireType: nat, body: seq<byte>) {
    w == Some(Varint.Encode(8 * tag + wireType) + body)
  }

  // The sizes of the integers of C.
  predicate NumberSize(size: nat) {
    size == 1 || size == 2 || size == 4 || size == 8
  }

  lemma NumberForm(f: Field, v: Value)
    requires NumberSize(f.dataSize) && HoldsValue(f, v) && f.type_ % 16 <= 3
    ensures 0 <= NumberOnWire(f.type_ % 16, v.n) < TWO_64
    ensures IsRecord(WireBasic(f, v), f.tag, 0, Varint.Encode(NumberOnWire(f.type_ % 16, v.n)))
  {
    hide Varint.Encode;
    if f.type_ % 16 == 3 {
      assert Varint.ZigZag(v.n) == if v.n < 0 then -2 * v.n - 1 else 2 * v.n;
    }
  }

  lemma WordIs(b: seq<byte>)
    requires |b| == 4 || |b| == 8
    ensures FromLittleEndian(b) == WordOf(b)
  {
    FourBytesValue(b);
    if |b| == 8 {
      FourBytesValue(b[4..]);
      assert b[4..][4..] == [];
    }
  }

  lemma FixedForm(f: Field, v: Value)
    requires HoldsValue(f, v) && ((f.type_ % 16 == 4 && f.dataSize == 4) || (f.type_ % 16 == 5 && f.dataSize == 8))
    ensures WireValue(f, v).Some? && |WireValue(f, v).value| == (if f.type_ % 16 == 4 then 4 else 8)
    ensures WordOf(WireValue(f, v).value) == v.n
    ensures IsRecord(WireBasic(f, v), f.tag, if f.type_ % 16 == 4 then 5 else 1, WireValue(f, v).value)
  {
    hide LittleEndian, Varint.Encode, WordOf;
    WrittenWord(v.n, f.dataSize);
  }

  lemma WrittenWord(n: nat, size: nat)
    requires (size == 4 && n < TWO_32) || (size == 8 && n < TWO_64)
    ensures |LittleEndian(n, size)| == size && WordOf(LittleEndian(n, size)) == n
  {
    hide LittleEndian, FromLittleEndian, WordOf, Pow2;
    Pow2Words();
    LittleEndianInverts(n, size);
    WordIs(LittleEndian(n, size));
  }

  // Bytes, strings, submessages and inline bytes: the length and the contents.
  lemma DelimitedForm(f: Field, v: Value)
    requires WellFormedField(f) && HoldsValue(f, v) && FitValue(f, v)
    requires f.type_ % 16 == 6 || f.type_ % 16 == 7 || f.type_ % 16 == 8 || f.type_ % 16 == 11
    ensures f.type_ % 16 == 8 ==> v.Sub? && Wire(f.sub, v.m).Some?
    ensures var data := if v.Text? then v.chars else if v.Sub? then Wire(f.sub, v.m).value else v.data;
      |data| < TWO_64 ==> IsRecord(WireBasic(f, v), f.tag, 2, Delimited(data))
  {
    hide Varint.Encode, Wire, Holds, Fit, WellFormed;
    if v.Sub? {
      MessageEncodes(f.sub, v.m);
    }
  }

  // An array of numbers is one record, whatever it holds.
  lemma PackedForm(f: Field, vs: seq<Value>)
    requires SizedRight(f) && f.type_ % 16 <= 5 && 0 < |vs| <= f.arraySize
    requires forall i | 0 <= i < |vs| :: HoldsValue(f, vs[i])
    ensures WirePackedAll(f, vs).Some?
    ensures var data := WirePackedAll(f, vs).value;
      IsRecord(WireArray(f, vs), f.tag, 2, Delimited(data))
  {
    hide Varint.Encode, WirePackedAll, WireArray, DecodePacked, HoldsValue, DecodeScalar, IsRecord, Delimited;
    PackedAllInverts(f, [], vs);
    ArrayRecord(f, vs);
  }

  lemma ArrayRecord(f: Field, vs: seq<Value>)
    requires f.type_ % 16 <= 5 && 0 < |vs| <= f.arraySize
    requires WirePackedAll(f, vs).Some? && |WirePackedAll(f, vs).value| < TWO_64
    ensures IsRecord(WireArray(f, vs), f.tag, 2, Delimited(WirePackedAll(f, vs).value))
  {
    hide Varint.Encode, WirePackedAll, WireUnpacked;
  }

  // Its elements are those of single records, without their keys.
  lemma PackedElement(f: Field, v: Value)
    requires SizedRight(f) && f.type_ % 16 <= 5 && HoldsValue(f, v)
    ensures WirePacked(f, v) == WireValue(f, v)
  {
    hide Varint.Encode;
  }

  // The elements of an array that is not packed are records behind each other, and so are those of the
  // fields of a message; both in order.
  lemma {:induction false} ElementsInOrder(f: Field, vs: seq<Value>, parts: seq<seq<byte>>)
    requires |parts| == |vs| && forall i | 0 <= i < |vs| :: WireBasic(f, vs[i]) == Some(parts[i])
    ensures WireUnpacked(f, vs) == Some(Flat(parts))
  {
    hide WireBasic;
    if vs != [] {
      ElementsInOrder(f, vs[1..], parts[1..]);
    }
  }

  function Flat(parts: seq<seq<byte>>): seq<byte> {
    if parts == [] then [] else parts[0] + Flat(parts[1..])
  }

  lemma {:induction false} FieldsInOrder(fields: seq<Field>, m: Msg, parts: seq<seq<byte>>)
    requires m.slots.Keys == Offsets(fields) && |parts| == |fields|
    requires forall i | 0 <= i < |fields| :: WireField(fields[i], m.slots[fields[i].dataOffset]) == Some(parts[i])
    ensures Wire(fields, m) == Some(Flat(parts))
  {
    hide WireField;
    FieldsFrom(fields, m, parts, 0);
    assert parts[0..] == parts;
  }

  lemma {:induction false} FieldsFrom(fields: seq<Field>, m: Msg, parts: seq<seq<byte>>, i: nat)
    requires m.slots.Keys == Offsets(fields) && |parts| == |fields| && i <= |fields|
    requires forall i | 0 <= i < |fields| :: WireField(fields[i], m.slots[fields[i].dataOffset]) == Some(parts[i])
    ensures WireFrom(fields, m, i) == Some(Flat(parts[i..]))
    decreases |fields| - i
  {
    hide WireField;
    if i < |fields| {
      FieldsFrom(fields, m, parts, i + 1);
      assert parts[i..][1..] == parts[i + 1..];
    }
  }

  // --- What is left out

  // A singular number, byte array or string leaves nothing on the wire exactly if it is 0 or empty.
  lemma ZeroIsOmitted(f: Field, v: Value)
    requires IsSingular(f) && f.type_ % 16 <= 7 && HoldsValue(f, v)
    ensures WireField(f, One(v)) == Some([]) <==>
      v == if f.type_ % 16 <= 5 then Num(0) else if f.type_ % 16 == 6 then Blob([]) else Text([])
  {
    hide WireBasic;
    RecordNotEmpty(f, v);
  }

  // Nothing in the message has to be written when it holds its defaults.
  ghost predicate Omittable(fields: seq<Field>)
    decreases fields
  {
    forall i | 0 <= i < |fields| ::
      && fields[i].type_ / 16 % 4 != 0
      && (IsSingular(fields[i]) ==> OmittableField(fields[i]))
  }

  ghost predicate OmittableField(f: Field)
    decreases f
  {
    && (f.type_ % 16 == 11 ==> f.dataSize == 0)
    && (IsSubmsg(f.type_) ==> Omittable(f.sub))
  }

  lemma {:induction false} OmittedSubmessage(f: Field, m: Msg)
    requires WellFormedField(f) && IsSingular(f) && f.type_ % 16 == 8 && Holds(f.sub, m)
    ensures WireField(f, One(Sub(m))) == Some([]) <==> Omittable(f.sub) && m == Defaults(f.sub)
  {
    hide Omittable, Defaults, WellFormed, Holds, AllDefault, WireBasic;
    RecordNotEmpty(f, Sub(m));
    AllDefaultExactly(f.sub, m);
  }

  lemma {:induction false} AllDefaultExactly(fields: seq<Field>, m: Msg)
    requires WellFormed(fields) && Holds(fields, m)
    ensures AllDefault(fields, m) <==> Omittable(fields) && m == Defaults(fields)
  {
    hide Defaults, WellFormed, Holds, AllDefault, Omittable;
    if AllDefault(fields, m) {
      AllDefaultIsDefaults(fields, m);
    }
    DefaultsOmitted(fields);
  }

  lemma {:induction false} DefaultsOmitted(fields: seq<Field>)
    requires WellFormed(fields)
    ensures AllDefault(fields, Defaults(fields)) <==> Omittable(fields)
    decreases fields
  {
    hide Defaults, IsDefault, DefaultSlot, OmittableField, SizedRight;
    forall i | 0 <= i < |fields|
      ensures IsDefault(fields[i], Defaults(fields).slots[fields[i].dataOffset])
        <==> fields[i].type_ / 16 % 4 != 0 && (IsSingular(fields[i]) ==> OmittableField(fields[i]))
    {
      DefaultsWhole(fields, i);
      if IsSubmsg(fields[i].type_) {
        DefaultsOmitted(fields[i].sub);
      }
      SlotOmitted(fields[i]);
    }
  }

  lemma SlotOmitted(f: Field)
    requires IsSubmsg(f.type_) ==> (AllDefault(f.sub, Defaults(f.sub)) <==> Omittable(f.sub))
    ensures IsDefault(f, DefaultSlot(f))
      <==> f.type_ / 16 % 4 != 0 && (IsSingular(f) ==> OmittableField(f))
  {
    hide AllDefault, Omittable, Defaults;
    HTypes(f.type_);
  }

  lemma HTypes(type_: nat)
    ensures HType(type_) == HTYPE_REQUIRED || HType(type_) == HTYPE_OPTIONAL || HType(type_) == HTYPE_REPEATED
      || HType(type_) == HTYPE_ONEOF
  {
  }

  // --- What initialising leaves

  // No elements, no member, absent, or zero in every byte.
  lemma DefaultForm(f: Field)
    ensures f.type_ / 16 % 4 == 2 ==> DefaultSlot(f) == Many([])
    ensures f.type_ / 16 % 4 == 3 ==> DefaultSlot(f) == Union(None)
    ensures f.type_ / 16 % 4 == 1 && f.sizeOffset != 0 ==> DefaultSlot(f) == Opt(None)
    ensures f.type_ / 16 % 4 == 0 || (f.type_ / 16 % 4 == 1 && f.sizeOffset == 0) ==>
      && DefaultSlot(f).One?
      && var v := DefaultSlot(f).v;
      && (f.type_ % 16 <= 5 ==> v == Num(0))
      && (f.type_ % 16 == 6 ==> v == Blob([]))
      && (f.type_ % 16 == 7 ==> v == Text([]))
      && (f.type_ % 16 == 8 ==> v.Sub? && v.m == Defaults(f.sub))
      && (f.type_ % 16 == 11 ==> v.Inline? && |v.data| == f.dataSize && forall i | 0 <= i < |v.data| :: v.data[i] == 0)
  {
    hide Defaults;
  }

  // --- What is read from any bytes of a kind

  lemma SpanIsPower(size: nat)
    requires IntegerSize(size)
    ensures Span(size) == Pow2(8 * size) && Span(size) / 2 == Pow2(8 * size - 1)
  {
    hide Pow2;
    SmallPowers();
    Pow2Words();
    var n := 8 * size - 1;
    assert Pow2(8 * size) == 2 * Pow2(n) by {
      Doubles(n);
    }
  }

  lemma Doubles(n: nat)
    ensures Pow2(n + 1) == 2 * Pow2(n)
  {
  }

  lemma SmallPowers()
    ensures Pow2(8) == 0x100 && Pow2(16) == 0x1_0000
  {
    Pow2Sum(8, 8);
  }

  // The signed number in the low bits of a word.
  ghost function LowSigned(n: nat, bits: nat): int
    requires bits > 0
  {
    var low := n % Pow2(bits);
    if low < Pow2(bits - 1) then low else low - Pow2(bits)
  }

  // A number comes out as what its type makes of it if that fits into the field, and is rejected
  // otherwise; the signed types without zigzag look at the low 32 bits only, in all fields but those of
  // eight bytes.
  lemma NumberRead(f: Field, n: uint64, tail: seq<byte>)
    requires NumberSize(f.dataSize) && 1 <= f.type_ % 16 <= 3
    ensures var number := match f.type_ % 16
        case 1 => LowSigned(n, if f.dataSize == 8 then 64 else 32)
        case 2 => n
        case _ => if n % 2 == 0 then n / 2 else -(n / 2) - 1;
      var half: int := Pow2(8 * f.dataSize - 1);
      var fits := if f.type_ % 16 == 2 then number < 2 * half else -half <= number < half;
      DecodeScalar(f, Varint.Encode(n) + tail) == if fits then Got(Num(number), tail) else Bad
  {
    hide Varint.Encode, Varint.Decode64, Pow2;
    Varint.Decode64Inverts(n, tail);
    SpanIsPower(f.dataSize);
    Pow2Words();
    Doubles(63);
    Doubles(31);
    Doubles(8 * f.dataSize - 1);
  }

  lemma BoolRead(f: Field, n: nat, tail: seq<byte>)
    requires f.type_ % 16 == 0 && n < TWO_63
    ensures DecodeScalar(f, Varint.Encode(n) + tail)
         == if n < 0x1_0000_0000 then Got(Num(if n == 0 then 0 else 1), tail) else Bad
  {
    hide Varint.Encode, Varint.Decode32;
    Varint.Decode32OfEncode(n, tail);
  }

  lemma FixedRead(f: Field, b: seq<byte>, tail: seq<byte>)
    requires (f.type_ % 16 == 4 || f.type_ % 16 == 5) && |b| == f.dataSize && (|b| == 4 || |b| == 8)
    ensures DecodeScalar(f, b + tail) == Got(Num(WordOf(b)), tail)
  {
    hide FromLittleEndian, WordOf;
    WordIs(b);
    assert (b + tail)[..|b|] == b && (b + tail)[|b|..] == tail;
  }

  // The part of a C string in front of its terminator.
  predicate IsCString(s: seq<byte>, data: seq<byte>) {
    s <= data && 0 !in s && (|s| < |data| ==> data[|s|] == 0)
  }

  lemma {:induction false} UpToNulIs(data: seq<byte>)
    ensures IsCString(UpToNul(data), data)
  {
    if data != [] && data[0] != 0 {
      UpToNulIs(data[1..]);
    }
  }

  // Byte arrays need two bytes for their size, strings one for the terminator; inline bytes have just
  // their size, or are cleared. Lengths that a size of 16 bits or a prefix of 32 cannot tell are too long.
  lemma DelimitedRead(f: Field, data: seq<byte>, tail: seq<byte>)
    requires f.type_ % 16 == 6 || f.type_ % 16 == 7 || f.type_ % 16 == 11
    requires |data| < TWO_63
    ensures var p := DecodeScalar(f, Delimited(data) + tail);
      && (f.type_ % 16 == 6 ==>
            p == if |data| < 0x1_0000 && |data| + 2 <= f.dataSize then Got(Blob(data), tail) else Bad)
      && (f.type_ % 16 == 7 ==>
            if |data| < 0xFFFF_FFFF && |data| + 1 <= f.dataSize
            then p.Got? && p.value.Text? && IsCString(p.value.chars, data) && p.rest == tail
            else p == Bad)
      && (f.type_ % 16 == 11 ==>
            p == if |data| == f.dataSize < 0x1_0000 then Got(Inline(data), tail)
                 else if |data| == 0 then Got(Inline(seq(f.dataSize, _ => 0)), tail)
                 else Bad)
  {
    hide Varint.Encode, Varint.Decode32, UpToNul;
    UpToNulIs(data);
    Varint.Decode32OfEncode(|data|, data + tail);
    assert Varint.Encode(|data|) + data + tail == Varint.Encode(|data|) + (data + tail);
    assert (data + tail)[..|data|] == data && (data + tail)[|data|..] == tail;
    if f.dataSize == 0 && data == [] {
      assert data == Zeros(0) && Zeros(0) == seq(0, _ => 0);
    }
    assert Zeros(f.dataSize) == seq(f.dataSize, _ => 0);
  }

  // Numbers in fields of any other size are neither written nor read.
  lemma WrongSize(f: Field, v: Value, bs: seq<byte>)
    requires 1 <= f.type_ % 16 <= 5 && f.dataSize != 4 && f.dataSize != 8
    requires f.type_ % 16 <= 3 ==> f.dataSize != 1 && f.dataSize != 2
    ensures WireBasic(f, v) == None && WirePacked(f, v) == None
    ensures DecodeValue(f, bs) == Bad
  {
    hide TagBytes, Varint.Decode64;
  }

  // --- Bytes that end too early

  lemma VarintCut(n: nat, k: nat)
    requires k < |Varint.Encode(n)|
    ensures var bs := Varint.Encode(n)[..k];
      Varint.Decode32(bs) == Bad && Varint.Decode64(bs) == Bad && Varint.Skip(bs) == Bad
  {
    Varint.EncodeIsMinimal(n);
    Varint.NoEnd(Varint.Encode(n)[..k]);
  }

  lemma PrefixedCut(data: seq<byte>, k: nat)
    requires |data| < TWO_32 && k < |Delimited(data)|
    ensures Prefixed(Delimited(data)[..k]) == Bad
    ensures var p := Varint.Decode32(Delimited(data)[..k]); p.Bad? || (p.value == |data| && |p.rest| < |data|)
  {
    hide Varint.Decode32, Varint.Encode;
    var e := Varint.Encode(|data|);
    if k < |e| {
      VarintCut(|data|, k);
      assert Delimited(data)[..k] == e[..k];
    } else {
      Varint.Decode32OfEncode(|data|, data[..k - |e|]);
      assert Delimited(data)[..k] == e + data[..k - |e|];
    }
  }

  lemma FixedCut(bs: seq<byte>, width: nat)
    requires |bs| < width
    ensures DecodeFixed(bs, width) == Bad
  {
  }

  // An element that is cut off is rejected, wherever it is cut.
  lemma ValueCut(f: Field, v: Value, k: nat)
    requires WellFormedField(f) && HoldsValue(f, v) && FitValue(f, v) && LType(f.type_) <= LTYPE_FIXED_LENGTH_BYTES
    requires LType(f.type_) != LTYPE_EXTENSION && WireValue(f, v).Some?
    requires k < |WireValue(f, v).value| < TWO_32
    ensures DecodeValue(f, WireValue(f, v).value[..k]) == Bad
  {
    hide Varint.Encode, Varint.Decode32, Varint.Decode64, Varint.ZigZag, Wire, Holds, Fit, WellFormed, DecodeMessage,
         Prefixed, UpToNul, DecodeFixed;
    var t := LType(f.type_);
    if t == LTYPE_BOOL {
      VarintCut(v.n, k);
    } else if t <= LTYPE_SVARINT {
      VarintCut(VarintOf(f, v.n), k);
    } else if t <= LTYPE_FIXED64 {
      FixedCut(WireValue(f, v).value[..k], f.dataSize);
    } else {
      var data := if v.Text? then v.chars else if v.Sub? then Wire(f.sub, v.m).value else v.data;
      assert WireValue(f, v).value == Delimited(data);
      PrefixedCut(data, k);
    }
  }

  // --- Records

  // Each type has one wire type.
  lemma WireTypeForm(f: Field, wireType: nat)
    requires f.type_ % 16 <= 8 || f.type_ % 16 == 11
    ensures CheckWireType(f, wireType) <==>
      wireType == if f.type_ % 16 <= 3 then 0 else if f.type_ % 16 == 4 then 5 else if f.type_ % 16 == 5 then 1 else 2
  {
  }

  lemma KeyRead(n: uint32, body: seq<byte>)
    ensures DecodeKey(Varint.Encode(n) + body) == Got(Key(n / 8, n % 8), body)
  {
    hide Varint.Encode, Varint.Decode32;
    Varint.Decode32OfEncode(n, body);
  }

  // Skipping by the wire type; groups and what has no meaning are rejected.
  lemma SkipForm(wireType: nat, bs: seq<byte>)
    ensures wireType == 1 ==> SkipField(wireType, bs) == if |bs| >= 8 then Got((), bs[8..]) else Bad
    ensures wireType == 5 ==> SkipField(wireType, bs) == if |bs| >= 4 then Got((), bs[4..]) else Bad
    ensures wireType != 0 && wireType != 1 && wireType != 2 && wireType != 5 ==> SkipField(wireType, bs) == Bad
  {
  }

  lemma SkipDelimited(data: seq<byte>, tail: seq<byte>)
    requires |data| < TWO_63
    ensures SkipField(2, Delimited(data) + tail) == if |data| < TWO_32 then Got((), tail) else Bad
    ensures forall k | 0 <= k < |Delimited(data)| && |data| < TWO_32 :: SkipField(2, Delimited(data)[..k]) == Bad
  {
    hide Varint.Encode, Prefixed;
    PrefixInverts(data, tail);
    forall k | 0 <= k < |Delimited(data)| && |data| < TWO_32
      ensures SkipField(2, Delimited(data)[..k]) == Bad
    {
      PrefixedCut(data, k);
    }
  }

  // A zero key ends a null-terminated message and no other.
  lemma ZeroKey(fields: seq<Field>, r: Run, nt: bool, tail: seq<byte>)
    ensures DecodeRecords(fields, r, nt, [0] + tail) == if nt then Got(r, tail) else Bad
  {
    assert Varint.Encode(0) == [0];
    KeyRead(0, tail);
    hide DecodeKey;
  }

  // A record of a known field with a wire type that is not its own is rejected, except packed numbers.
  lemma WrongWireType(fields: seq<Field>, i: nat, wireType: nat, r: Run, nt: bool, body: seq<byte>)
    requires WellFormed(fields) && i < |fields| && wireType < 8
    requires !CheckWireType(fields[i], wireType)
    requires !(HType(fields[i].type_) == HTYPE_REPEATED && wireType == 2 && fields[i].type_ % 16 <= 5)
    ensures DecodeRecords(fields, r, nt, TagBytes(wireType, fields[i].tag) + body) == Bad
  {
    hide DecodeRecords, WellFormed, CheckWireType, TagBytes, FixedDone;
    KnownRecord(fields, i, wireType, r, nt, body);
  }
}
