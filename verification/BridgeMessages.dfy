// The messages that the bridge gets from its server, as the generator describes them, and a structure
// with a field of each type and kind.
module BridgeMessages {
  import opened Bytes
  import opened Descriptor
  import opened Message
  import opened EncodeSpec
  import opened DecodeSpec
  import opened Encoder
  import opened Decoder
  import opened ScalarRoundTrip
  import opened Structures
  import opened RoundTrip
  import opened Layout
  import opened Framing
  import Varint

  // Number, type, offset, size, size offset, array size and width of each field, in structures where
  // numbers and enums have four bytes and lie at multiples of four, and 16-bit sizes at even places.
  const EKEY := [
    Field(1, 0x16, 0, 502, 0, 1, 2, []),
    Field(2, 0x16, 502, 502, 0, 1, 2, []),
    Field(3, 0x16, 1004, 502, 0, 1, 2, []),
    Field(4, 0x11, 1508, 4, 0, 1, 2, [])]

  const LOCK_ENTRY := [
    Field(1, 0x17, 0, 100, 0, 1, 2, []),
    Field(2, 0x18, 104, 1512, 4, 1, 2, EKEY)]

  const LOCK_JOB := [
    Field(1, 0x17, 0, 100, 0, 1, 2, []),
    Field(2, 0x16, 100, 502, 0, 1, 2, [])]

  const DEMO_LOCK_JOB := [
    Field(1, 0x17, 0, 100, 0, 1, 2, []),
    Field(2, 0x12, 100, 4, 0, 1, 1, []),
    Field(3, 0x16, 104, 102, 0, 1, 2, [])]

  const SERVER_EVENT_DATA := [
    Field(1, 0x28, 4, 1616, 4, 5, 4, LOCK_ENTRY),
    Field(2, 0x18, 8086, 602, 2, 1, 4, LOCK_JOB),
    Field(3, 0x18, 8692, 208, 4, 1, 4, DEMO_LOCK_JOB)]

  const INNER := [
    Field(1, 0x11, 0, 8, 0, 1, 2, []),
    Field(2, 0x10, 8, 1, 0, 1, 2, [])]

  // A structure of 176 bytes with required, optional, singular, counted, fixed-count and oneof fields.
  const EVERY_TYPE := [
    Field(1, 0x00, 0, 1, 0, 1, 1, []),
    Field(2, 0x01, 4, 4, 0, 1, 1, []),
    Field(3, 0x12, 8, 2, 0, 1, 1, []),
    Field(4, 0x13, 16, 8, 1, 1, 1, []),
    Field(5, 0x24, 28, 4, 2, 3, 2, []),
    Field(6, 0x25, 40, 8, 0, 3, 2, []),
    Field(7, 0x36, 66, 20, 2, 1, 4, []),
    Field(8, 0x37, 66, 20, 2, 1, 4, []),
    Field(9, 0x1B, 86, 6, 0, 1, 8, []),
    Field(10, 0x28, 96, 16, 2, 5, 8, INNER)]

  predicate PlainField(f: Field) {
    && Exact(f) && 0 < f.tag && AType(f.type_) == ATYPE_STATIC
    && LType(f.type_) != LTYPE_SUBMSG_W_CB && LType(f.type_) != LTYPE_EXTENSION
    && (HType(f.type_) == HTYPE_ONEOF ==> f.sizeOffset != 0)
    && SizedRight(f)
  }

  lemma ListFormed(fields: seq<Field>)
    requires DistinctTags(fields) && SeparateStorage(fields)
    requires forall i | 0 <= i < |fields| :: PlainField(fields[i]) && WellFormed(fields[i].sub)
    ensures WellFormed(fields)
  {
    hide Exact, LType, HType, AType, DistinctTags, SeparateStorage;
  }

  lemma NoFields()
    ensures WellFormed([])
  {
  }

  lemma EkeyFormed()
    ensures WellFormed(EKEY)
  {
    NoFields();
    hide WellFormed;
    forall i | 0 <= i < |EKEY|
      ensures PlainField(EKEY[i])
    {
    }
    hide PlainField;
    ListFormed(EKEY);
  }

  lemma LockEntryFormed()
    ensures WellFormed(LOCK_ENTRY)
  {
    NoFields();
    EkeyFormed();
    hide WellFormed;
    forall i | 0 <= i < |LOCK_ENTRY|
      ensures PlainField(LOCK_ENTRY[i])
    {
    }
    hide PlainField;
    ListFormed(LOCK_ENTRY);
  }

  lemma LockJobFormed()
    ensures WellFormed(LOCK_JOB)
  {
    NoFields();
    hide WellFormed;
    forall i | 0 <= i < |LOCK_JOB|
      ensures PlainField(LOCK_JOB[i])
    {
    }
    hide PlainField;
    ListFormed(LOCK_JOB);
  }

  lemma DemoLockJobFormed()
    ensures WellFormed(DEMO_LOCK_JOB)
  {
    NoFields();
    hide WellFormed;
    forall i | 0 <= i < |DEMO_LOCK_JOB|
      ensures PlainField(DEMO_LOCK_JOB[i])
    {
    }
    hide PlainField;
    ListFormed(DEMO_LOCK_JOB);
  }

  lemma ServerEventFormed()
    ensures WellFormed(SERVER_EVENT_DATA)
  {
    NoFields();
    LockEntryFormed();
    LockJobFormed();
    DemoLockJobFormed();
    hide WellFormed;
    forall i | 0 <= i < |SERVER_EVENT_DATA|
      ensures PlainField(SERVER_EVENT_DATA[i])
    {
    }
    hide PlainField;
    ListFormed(SERVER_EVENT_DATA);
  }

  lemma InnerFormed()
    ensures WellFormed(INNER)
  {
    NoFields();
    hide WellFormed;
    forall i | 0 <= i < |INNER|
      ensures PlainField(INNER[i])
    {
    }
    hide PlainField;
    ListFormed(INNER);
  }

  lemma EveryTypeFormed()
    ensures WellFormed(EVERY_TYPE)
  {
    NoFields();
    InnerFormed();
    hide WellFormed;
    forall i | 0 <= i < |EVERY_TYPE|
      ensures PlainField(EVERY_TYPE[i])
    {
    }
    hide PlainField;
    ListFormed(EVERY_TYPE);
  }

  lemma EkeyLaid()
    ensures Laid(EKEY, 1512, 0)
  {
  }

  lemma JobsLaid()
    ensures Laid(LOCK_JOB, 602, 1) && Laid(DEMO_LOCK_JOB, 208, 1)
  {
  }

  lemma EntryLaid()
    ensures Laid(LOCK_ENTRY, 1616, 1)
  {
    EkeyLaid();
    assert LaidField(LOCK_ENTRY[0], 1) && LaidField(LOCK_ENTRY[1], 1);
    hide LaidField;
  }

  lemma ServerEventLaid()
    ensures Laid(SERVER_EVENT_DATA, 8900, 2)
  {
    JobsLaid();
    EntryLaid();
  }

  // --- Without a oneof there are no selectors

  ghost predicate NoOneof(fields: seq<Field>)
    decreases fields
  {
    forall i | 0 <= i < |fields| :: HType(fields[i].type_) != HTYPE_ONEOF && NoOneof(fields[i].sub)
  }

  lemma {:induction false} NoSelectors(fields: seq<Field>, m: Msg)
    requires WellFormed(fields) && NoOneof(fields) && Holds(fields, m)
    ensures SelectorsKnown(fields, m)
    decreases fields, 0
  {
    hide HoldsSlot, SlotSelectorsKnown, SizedRight, WellFormed;
    forall i | 0 <= i < |fields|
      ensures SlotSelectorsKnown(fields[i], m.slots[fields[i].dataOffset]) && !m.slots[fields[i].dataOffset].Union?
    {
      FieldFormed(fields, i);
      NoSelectorsInSlot(fields[i], m.slots[fields[i].dataOffset]);
    }
  }

  lemma FieldFormed(fields: seq<Field>, i: nat)
    requires WellFormed(fields) && i < |fields|
    ensures WellFormedField(fields[i])
  {
  }

  lemma {:induction false} NoSelectorsInSlot(f: Field, s: Slot)
    requires WellFormedField(f) && HType(f.type_) != HTYPE_ONEOF && NoOneof(f.sub) && HoldsSlot(f, s)
    ensures SlotSelectorsKnown(f, s) && !s.Union?
    decreases f, 1
  {
    hide HoldsValue, ValueSelectorsKnown, WellFormed, NoOneof;
    match s
    case One(v) => NoSelectorsInValue(f, v);
    case Opt(o) =>
      if o.Some? {
        NoSelectorsInValue(f, o.value);
      }
    case Many(vs) =>
      forall i | 0 <= i < |vs|
        ensures ValueSelectorsKnown(f, vs[i])
      {
        NoSelectorsInValue(f, vs[i]);
      }
    case Union(_) =>
  }

  lemma {:induction false} NoSelectorsInValue(f: Field, v: Value)
    requires WellFormedField(f) && NoOneof(f.sub) && HoldsValue(f, v)
    ensures ValueSelectorsKnown(f, v)
    decreases f, 0
  {
    hide WellFormed, NoOneof, Holds, SelectorsKnown;
    if LType(f.type_) == LTYPE_SUBMESSAGE {
      NoSelectors(f.sub, v.m);
    }
  }

  lemma ServerEventNoOneof()
    ensures NoOneof(SERVER_EVENT_DATA)
  {
    assert NoOneof([]) && NoOneof(EKEY) && NoOneof(LOCK_ENTRY) && NoOneof(LOCK_JOB) && NoOneof(DEMO_LOCK_JOB);
  }

  // Whatever the server puts into such a message, the bridge reads it, in each framing: lengths fit.
  lemma ServerEventRoundTrip(m: Msg, dest: Msg, framing: Encoder.Framing, tail: seq<byte>)
    requires Holds(SERVER_EVENT_DATA, m) && Fit(SERVER_EVENT_DATA, m) && (framing.Plain? ==> tail == [])
    ensures WireEx(SERVER_EVENT_DATA, m, framing).Some?
    ensures DecodeFramed(SERVER_EVENT_DATA, dest, framing, WireEx(SERVER_EVENT_DATA, m, framing).value + tail)
         == Got(m, tail)
  {
    hide *;
    ServerEventFormed();
    ServerEventLaid();
    ServerEventNoOneof();
    NoSelectors(SERVER_EVENT_DATA, m);
    TwoInside();
    StructuresFit(SERVER_EVENT_DATA, m, framing, 8900, 2);
    FramedRoundTrip(SERVER_EVENT_DATA, m, dest, framing, tail);
  }

  lemma TwoInside()
    ensures Rate(2) * 8900 < TWO_32 && 2 <= MAX_NESTING
  {
  }

  // --- The bytes of one of them

  function NameBytes(name: seq<byte>): seq<byte>
    requires |name| < 100
  {
    if name == [] then [] else [0x0A, |name|] + name
  }

  function CommandBytes(command: seq<byte>): seq<byte>
    requires |command| <= 500
  {
    if command == [] then []
    else if |command| < 0x80 then [0x12, |command|] + command
    else [0x12, |command| % 0x80 + 0x80, |command| / 0x80] + command
  }

  lemma ShortNumber(n: nat)
    requires n < 0x4000
    ensures Varint.Encode(n) == if n < 0x80 then [n] else [n % 0x80 + 0x80, n / 0x80]
  {
  }

  lemma NameForm(name: seq<byte>)
    requires |name| < 100
    ensures WireField(LOCK_JOB[0], One(Text(name))) == Some(NameBytes(name))
  {
    hide Varint.Encode;
    ShortNumber(0x0A);
    ShortNumber(|name|);
    assert [0x0A] + ([|name|] + name) == [0x0A, |name|] + name;
  }

  lemma CommandForm(command: seq<byte>)
    requires |command| <= 500
    ensures WireField(LOCK_JOB[1], One(Blob(command))) == Some(CommandBytes(command))
  {
    hide Varint.Encode;
    ShortNumber(0x12);
    ShortNumber(|command|);
    var e := Varint.Encode(|command|);
    assert [0x12] + (e + command) == CommandBytes(command) || command == [];
  }

  // The command for a lock: its name and what it has to do, each left out if empty.
  lemma LockJobForm(name: seq<byte>, command: seq<byte>)
    requires |name| < 100 && |command| <= 500
    ensures Wire(LOCK_JOB, Msg(map[0 := One(Text(name)), 100 := One(Blob(command))]))
         == Some(NameBytes(name) + CommandBytes(command))
  {
    hide WireField, NameBytes, CommandBytes;
    NameForm(name);
    CommandForm(command);
    var m := Msg(map[0 := One(Text(name)), 100 := One(Blob(command))]);
    assert WireFrom(LOCK_JOB, m, 2) == Some([]);
    assert CommandBytes(command) + [] == CommandBytes(command);
    assert WireFrom(LOCK_JOB, m, 1) == Some(CommandBytes(command));
  }
}
