// Messages in a row: each one is read back on its own and the next one starts right behind it.
module Framing {
  import opened Bytes
  import opened Descriptor
  import opened Message
  import opened OutputStream
  import opened InputStream
  import opened EncodeSpec
  import opened DecodeSpec
  import opened Encoder
  import opened Decoder
  import opened ScalarRoundTrip
  import opened RoundTrip
  import opened Layout
  import opened Records
  import opened Structures
  import Varint

  // A message as the C program can hold and encode it.
  ghost predicate Encodable(fields: seq<Field>, m: Msg) {
    && WellFormed(fields) && Holds(fields, m) && SelectorsKnown(fields, m) && Fit(fields, m)
    && |Encoding(fields, m)| < TWO_63
  }

  // The lengths that have to be sent are lengths the decoder can read.
  ghost predicate LengthsFit(fields: seq<Field>, m: Msg, framing: Framing)
    requires Encodable(fields, m)
  {
    Small(fields, m) && (framing.Delimited? ==> |Encoding(fields, m)| < TWO_32)
  }

  function DecodeFramed(fields: seq<Field>, dest: Msg, framing: Framing, bs: seq<byte>): Parse<Msg> {
    DecodeExSpec(fields, dest, framing.Delimited?, false, framing.NullTerminated?, bs)
  }

  // pb_decode_ex inverts pb_encode_ex: it gives back the message and leaves exactly the bytes behind
  // it, if and only if every length is below 2^32. Whatever the destination held before is gone.
  lemma FramedRoundTrip(fields: seq<Field>, m: Msg, dest: Msg, framing: Framing, tail: seq<byte>)
    requires Encodable(fields, m) && (framing.Plain? ==> tail == [])
    ensures WireEx(fields, m, framing).Some?
    ensures DecodeFramed(fields, dest, framing, WireEx(fields, m, framing).value + tail)
         == if LengthsFit(fields, m, framing) then Got(m, tail) else Bad
  {
    hide DecodeMessage, Wire, WellFormed, Holds, SelectorsKnown, Defaults, Prefixed, Small, WithPrefix;
    var w := Encoding(fields, m);
    match framing
    case Plain =>
      MessageInverts(fields, m);
      assert w + [] == w;
    case Delimited =>
      PrefixInverts(w, tail);
      MessageInverts(fields, m);
    case NullTerminated =>
      NullTerminatedInverts(fields, m, tail);
  }

  // What a frame is: the length in front, or a zero byte behind.
  lemma FrameForm(fields: seq<Field>, m: Msg, framing: Framing)
    requires Wire(fields, m).Some? && |Wire(fields, m).value| < TWO_64
    ensures var w := Wire(fields, m).value;
      WireEx(fields, m, framing) == Some(match framing
        case Plain => w
        case Delimited => Varint.Encode(|w|) + w
        case NullTerminated => w + [0])
  {
    hide Wire, Varint.Encode;
  }

  // Decoding a second piece without initialising goes on where the first one ended: plain, it is
  // decoding both in one piece, and a delimited piece is a plain one with its length.
  lemma NoInitContinues(fields: seq<Field>, dest: Msg, x: seq<byte>, m1: Msg, y: seq<byte>, tail: seq<byte>)
    requires NoBooks(fields) && |y| < TWO_63
    requires DecodeExSpec(fields, dest, false, false, false, x) == Got(m1, [])
    ensures DecodeExSpec(fields, m1, false, true, false, y) == DecodeExSpec(fields, dest, false, false, false, x + y)
    ensures var p := DecodeExSpec(fields, dest, false, false, false, x + y);
      DecodeExSpec(fields, m1, true, true, false, Varint.Encode(|y|) + y + tail)
      == if |y| < TWO_32 && p.Got? then Got(p.value, tail) else Bad
  {
    hide DecodeMessage, Defaults, Varint.Encode, Prefixed, NoBooks, DecodeExSpec;
    DecodePlain(fields, dest, x, m1, y);
    DecodeIsFold(fields, Defaults(fields), x, m1, false, y);
    DecodeDelimited(fields, m1, y, tail);
  }

  lemma DecodePlain(fields: seq<Field>, dest: Msg, x: seq<byte>, m1: Msg, y: seq<byte>)
    ensures DecodeExSpec(fields, dest, false, false, false, x) == DecodeMessage(fields, Defaults(fields), false, x)
    ensures DecodeExSpec(fields, dest, false, false, false, x + y)
         == DecodeMessage(fields, Defaults(fields), false, x + y)
    ensures DecodeExSpec(fields, m1, false, true, false, y) == DecodeMessage(fields, m1, false, y)
  {
    hide DecodeMessage, Defaults;
  }

  lemma DecodeDelimited(fields: seq<Field>, m: Msg, y: seq<byte>, tail: seq<byte>)
    requires |y| < TWO_63
    ensures var p := DecodeMessage(fields, m, false, y);
      DecodeExSpec(fields, m, true, true, false, Varint.Encode(|y|) + y + tail)
      == if |y| < TWO_32 && p.Got? then Got(p.value, tail) else Bad
  {
    hide DecodeMessage, Defaults, Varint.Encode, Prefixed;
    PrefixInverts(y, tail);
    assert WithPrefix(y) == Varint.Encode(|y|) + y;
  }

  // The lengths inside a structure always fit; only the length in front of a delimited message may
  // not, and it does if the structure is small enough.
  lemma StructuresFit(fields: seq<Field>, m: Msg, framing: Framing, size: nat, n: nat)
    requires WellFormed(fields) && Holds(fields, m) && SelectorsKnown(fields, m) && Fit(fields, m)
    requires Laid(fields, size, n) && n <= MAX_NESTING
    ensures Encodable(fields, m)
    ensures LengthsFit(fields, m, framing) <==> framing.Delimited? ==> |Encoding(fields, m)| < TWO_32
    ensures Rate(n) * size < TWO_32 ==> LengthsFit(fields, m, framing)
  {
    hide WellFormed, Holds, SelectorsKnown, Fit, Laid, Small, Rate, Encoding, DecodeMessage, Defaults;
    StructureRoundTrip(fields, m, size, n);
  }

  // A structure with 65535 byte arrays, and a message that uses all of it.
  const LONG_FIELD := Field(16, LTYPE_BYTES + HTYPE_REPEATED, 2, 0xFFFF, 2, 0xFFFF, 4, [])

  function LongMessage(): Msg {
    Msg(map[2 := Many(LongElements())])
  }

  function LongElements(): (vs: seq<Value>)
    ensures |vs| == 0xFFFF && forall i | 0 <= i < |vs| :: vs[i] == LongElement()
  {
    seq(0xFFFF, _ => LongElement())
  }

  function LongElement(): Value { Blob(Zeros(0xFFFD)) }

  lemma LongFieldFormed()
    ensures WellFormed([LONG_FIELD]) && Laid([LONG_FIELD], 2 + 0xFFFF * 0xFFFF, 0)
  {
    var fields := [LONG_FIELD];
    assert Supported([]) && WellFormed([]);
    assert SizedRight(LONG_FIELD) && Exact(LONG_FIELD);
    assert LaidField(LONG_FIELD, 0) && Storage(LONG_FIELD) == 0xFFFF * 0xFFFF;
    hide Exact, SizedRight, LaidField, Storage;
    assert Supported(fields);
  }

  lemma LongSlot(s: Slot)
    requires s == Many(LongElements())
    ensures HoldsSlot(LONG_FIELD, s) && SlotSelectorsKnown(LONG_FIELD, s) && FitSlot(LONG_FIELD, s)
  {
    assert HoldsValue(LONG_FIELD, LongElement()) && FitValue(LONG_FIELD, LongElement());
    assert ValueSelectorsKnown(LONG_FIELD, LongElement());
    hide HoldsValue, FitValue, ValueSelectorsKnown, LongElement;
  }

  lemma LongMessageHeld()
    ensures Holds([LONG_FIELD], LongMessage()) && SelectorsKnown([LONG_FIELD], LongMessage())
    ensures Fit([LONG_FIELD], LongMessage())
    ensures Wire([LONG_FIELD], LongMessage()) == WireUnpacked(LONG_FIELD, LongElements())
  {
    hide HoldsSlot, SlotSelectorsKnown, FitSlot, LongElements, WireUnpacked;
    var fields, m := [LONG_FIELD], LongMessage();
    LongSlot(m.slots[2]);
    assert Offsets(fields) == {2} by {
      assert fields[0].dataOffset in Offsets(fields);
    }
    var w := WireUnpacked(LONG_FIELD, LongElements());
    assert WireFrom(fields, m, 1) == Some([]) && WireField(LONG_FIELD, m.slots[2]) == w;
    assert w.Some? ==> w.value + [] == w.value;
  }

  lemma LongElementLength()
    ensures WireBasic(LONG_FIELD, LongElement()).Some?
    ensures |WireBasic(LONG_FIELD, LongElement()).value| == 0x1_0002
  {
    assert Varint.Encode(130) == [130, 1];
    assert |Varint.Encode(0xFFFD)| == 1 + |Varint.Encode(0xFFFD / 128)|;
    assert |Varint.Encode(0xFFFD / 128)| == 2;
  }

  lemma {:induction false} RepeatedLength(f: Field, v: Value, vs: seq<Value>)
    requires WireBasic(f, v).Some? && forall i | 0 <= i < |vs| :: vs[i] == v
    ensures WireUnpacked(f, vs).Some? && |WireUnpacked(f, vs).value| == |vs| * |WireBasic(f, v).value|
  {
    hide WireBasic;
    if vs != [] {
      RepeatedLength(f, v, vs[1..]);
    }
  }

  // So there is a message that is encoded and cannot be decoded in its delimited form.
  lemma TooLongToRead(dest: Msg, tail: seq<byte>)
    ensures Encodable([LONG_FIELD], LongMessage()) && |Encoding([LONG_FIELD], LongMessage())| == 0xFFFF * 0x1_0002
    ensures !LengthsFit([LONG_FIELD], LongMessage(), Delimited)
    ensures WireEx([LONG_FIELD], LongMessage(), Delimited).Some?
    ensures var written := WireEx([LONG_FIELD], LongMessage(), Delimited).value;
      DecodeFramed([LONG_FIELD], dest, Delimited, written + tail) == Bad
  {
    hide Encodable, WireBasic, LongElement, LongElements, WireEx, DecodeFramed;
    LongFieldFormed();
    LongMessageHeld();
    LongElementLength();
    RepeatedLength(LONG_FIELD, LongElement(), LongElements());
    StructuresFit([LONG_FIELD], LongMessage(), Delimited, 2 + 0xFFFF * 0xFFFF, 0);
    FramedRoundTrip([LONG_FIELD], LongMessage(), dest, Delimited, tail);
  }

  lemma NullTerminatedInverts(fields: seq<Field>, m: Msg, tail: seq<byte>)
    requires Encodable(fields, m)
    ensures DecodeMessage(fields, Defaults(fields), true, Encoding(fields, m) + [0] + tail)
         == if Small(fields, m) then Got(m, tail) else Bad
  {
    hide WellFormed, HoldsSlot, SelectorsKnown, WireFrom, DecodeRecords, SmallFrom, Before, Filled, Defaults,
         FixedDone, AllRequiredSeen;
    var w, r := Encoding(fields, m), Start(Defaults(fields));
    BeforeStart(fields, m);
    var rn := FieldsInvert(fields, m, 0, r, true, [0] + tail);
    assert w + [0] + tail == w + ([0] + tail);
    ZeroTagStops(fields, rn, tail);
    if Small(fields, m) {
      BeforeEnd(fields, m, rn);
    }
  }

  lemma ZeroTagStops(fields: seq<Field>, r: Run, tail: seq<byte>)
    ensures DecodeRecords(fields, r, true, [0] + tail) == Got(r, tail)
  {
    hide Varint.Decode32;
    Varint.Decode32OfEncode(0, tail);
    assert Varint.Encode(0) == [0];
  }

  // Reading framed messages until the bytes are used up.
  function DecodeStream(fields: seq<Field>, dest: Msg, framing: Framing, bs: seq<byte>): Option<seq<Msg>>
    decreases |bs|
  {
    if bs == [] then Some([])
    else
      match DecodeFramed(fields, dest, framing, bs)
      case Bad => None
      case Got(m, rest) =>
        if |rest| >= |bs| then None
        else
          match DecodeStream(fields, dest, framing, rest)
          case None => None
          case Some(ms) => Some([m] + ms)
  }

  ghost predicate AllEncodable(fields: seq<Field>, ms: seq<Msg>, framing: Framing) {
    forall i | 0 <= i < |ms| :: Encodable(fields, ms[i]) && LengthsFit(fields, ms[i], framing)
  }

  function Written(fields: seq<Field>, ms: seq<Msg>, framing: Framing): seq<byte> {
    if ms == [] then []
    else
      var first := WireEx(fields, ms[0], framing);
      (if first.Some? then first.value else []) + Written(fields, ms[1..], framing)
  }

  // Any number of messages written back to back, delimited or null-terminated, are read back one by
  // one as the same messages, with nothing left over.
  lemma {:induction false} StreamRoundTrip(fields: seq<Field>, ms: seq<Msg>, dest: Msg, framing: Framing)
    requires AllEncodable(fields, ms, framing) && !framing.Plain?
    ensures DecodeStream(fields, dest, framing, Written(fields, ms, framing)) == Some(ms)
  {
    hide Encodable, LengthsFit, WireEx, DecodeFramed;
    if ms != [] {
      var w, rest := WireEx(fields, ms[0], framing), Written(fields, ms[1..], framing);
      FramedRoundTrip(fields, ms[0], dest, framing, rest);
      FrameNotEmpty(fields, ms[0], framing);
      StreamRoundTrip(fields, ms[1..], dest, framing);
      assert [ms[0]] + ms[1..] == ms;
    }
  }

  lemma FrameNotEmpty(fields: seq<Field>, m: Msg, framing: Framing)
    requires !framing.Plain? && WireEx(fields, m, framing).Some?
    ensures WireEx(fields, m, framing).value != []
  {
  }
}
