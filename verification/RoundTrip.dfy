// Decoding what was encoded gives back the message.
module RoundTrip {
  import opened Bytes
  import opened Descriptor
  import opened Message
  import opened OutputStream
  import opened InputStream
  import opened EncodeSpec
  import opened DecodeSpec
  import opened ScalarRoundTrip
  import opened Structures
  import Varint

  // Every submessage that is written has an encoding below 2^32 bytes, the largest length prefix
  // the decoder reads.
  ghost predicate SmallValue(f: Field, v: Value)
    decreases f, 0
  {
    IsSubmsg(f.type_) && v.Sub? ==>
      && Wire(f.sub, v.m).Some? && |Wire(f.sub, v.m).value| < TWO_32
      && Small(f.sub, v.m)
  }

  ghost predicate SmallSlot(f: Field, s: Slot)
    decreases f, 1
  {
    match s
    case One(v) => (IsSingular(f) && IsZero(f, v)) || SmallValue(f, v)
    case Opt(o) => o.Some? ==> SmallValue(f, o.value)
    case Many(vs) => forall i | 0 <= i < |vs| :: SmallValue(f, vs[i])
    case Union(u) => u.Some? && u.value.tag == f.tag ==> SmallValue(f, u.value.v)
  }

  ghost predicate SmallFrom(fields: seq<Field>, m: Msg, i: nat)
    decreases fields, 0
  {
    forall j | i <= j < |fields| ::
      fields[j].dataOffset in m.slots && SmallSlot(fields[j], m.slots[fields[j].dataOffset])
  }

  ghost predicate Small(fields: seq<Field>, m: Msg)
    decreases fields, 1
  {
    SmallFrom(fields, m, 0)
  }

  // The field leaves a record behind.
  predicate Written(f: Field, s: Slot) {
    match s
    case One(v) => !(IsSingular(f) && IsZero(f, v))
    case Opt(o) => o.Some?
    case Many(vs) => vs != []
    case Union(u) => u.Some? && u.value.tag == f.tag
  }

  // The structure once the records of the first n fields have been decoded.
  function Filled(fields: seq<Field>, m: Msg, n: nat): (r: Msg)
    requires n <= |fields| && m.slots.Keys == Offsets(fields)
    ensures r.slots.Keys == Offsets(fields)
  {
    if n == 0 then Defaults(fields)
    else
      var f, prev := fields[n - 1], Filled(fields, m, n - 1);
      var s := m.slots[f.dataOffset];
      if Written(f, s) then Msg(prev.slots[f.dataOffset := s]) else prev
  }

  // --- Defaults

  lemma {:induction false} DefaultsAt(fields: seq<Field>, n: nat, i: nat)
    requires SeparateStorage(fields) && i < n <= |fields|
    ensures DefaultsUpTo(fields, n).slots[fields[i].dataOffset] == DefaultSlot(fields[i])
  {
    hide DefaultSlot, DefaultsUpTo;
    DefaultsStep(fields, n);
    var f := fields[n - 1];
    if i < n - 1 {
      DefaultsAt(fields, n - 1, i);
      if f.dataOffset == fields[i].dataOffset {
        OneofDefault(f);
        OneofDefault(fields[i]);
      }
    }
  }

  lemma DefaultsStep(fields: seq<Field>, n: nat)
    requires 0 < n <= |fields|
    ensures DefaultsUpTo(fields, n).slots
         == DefaultsUpTo(fields, n - 1).slots[fields[n - 1].dataOffset := DefaultSlot(fields[n - 1])]
  {
  }

  lemma OneofDefault(f: Field)
    requires HType(f.type_) == HTYPE_ONEOF
    ensures DefaultSlot(f) == Union(None)
  {
  }

  lemma DefaultIsUnwritten(f: Field, s: Slot)
    requires IsDefault(f, s) && HoldsSlot(f, s)
    ensures !Written(f, s) && (s.Union? ==> s.u.None?)
  {
  }

  // A field that leaves no record holds its default, except a oneof set to another member.
  lemma {:induction false} UnwrittenIsDefault(f: Field, s: Slot)
    requires HoldsSlot(f, s) && !Written(f, s) && WellFormedField(f)
    requires s.Union? ==> s.u.None?
    ensures s == DefaultSlot(f)
    decreases f, 1
  {
    if s.One? {
      ZeroIsDefault(f, s.v);
    }
  }

  lemma {:induction false} ZeroIsDefault(f: Field, v: Value)
    requires HoldsValue(f, v) && IsZero(f, v) && WellFormedField(f)
    ensures v == DefaultValue(f)
    decreases f, 0
  {
    if LType(f.type_) == LTYPE_FIXED_LENGTH_BYTES {
      assert v.data == Zeros(0);
    } else if IsSubmsg(f.type_) {
      AllDefaultIsDefaults(f.sub, v.m);
    }
  }

  lemma {:induction false} AllDefaultIsDefaults(fields: seq<Field>, m: Msg)
    requires WellFormed(fields) && Holds(fields, m) && AllDefault(fields, m)
    ensures m == Defaults(fields)
    decreases fields, 2
  {
    hide HoldsSlot, IsDefault, DefaultSlot, DefaultsUpTo;
    var slots := Defaults(fields).slots;
    forall o | o in m.slots
      ensures m.slots[o] == slots[o]
    {
      var i :| 0 <= i < |fields| && fields[i].dataOffset == o;
      DefaultIsUnwritten(fields[i], m.slots[o]);
      UnwrittenIsDefault(fields[i], m.slots[o]);
      DefaultsAt(fields, |fields|, i);
    }
    assert m.slots == slots;
  }

  // --- The structure fills up to the whole message

  ghost predicate WrittenBefore(fields: seq<Field>, m: Msg, n: nat, o: nat)
    requires n <= |fields| && m.slots.Keys == Offsets(fields)
  {
    exists j | 0 <= j < n :: fields[j].dataOffset == o && Written(fields[j], m.slots[o])
  }

  lemma {:induction false} FilledAt(fields: seq<Field>, m: Msg, n: nat, i: nat)
    requires SeparateStorage(fields) && n <= |fields| && i < |fields| && m.slots.Keys == Offsets(fields)
    ensures Filled(fields, m, n).slots[fields[i].dataOffset]
         == if WrittenBefore(fields, m, n, fields[i].dataOffset) then m.slots[fields[i].dataOffset]
            else DefaultSlot(fields[i])
  {
    hide DefaultSlot, Defaults, Written, Offsets;
    var o := fields[i].dataOffset;
    if n == 0 {
      DefaultsWhole(fields, i);
    } else {
      FilledAt(fields, m, n - 1, i);
      assert WrittenBefore(fields, m, n, o) <==>
        WrittenBefore(fields, m, n - 1, o)
        || (fields[n - 1].dataOffset == o && Written(fields[n - 1], m.slots[o]));
    }
  }

  lemma DefaultsWhole(fields: seq<Field>, i: nat)
    requires SeparateStorage(fields) && i < |fields|
    ensures Defaults(fields).slots[fields[i].dataOffset] == DefaultSlot(fields[i])
  {
    hide DefaultSlot, DefaultsUpTo;
    DefaultsAt(fields, |fields|, i);
  }

  lemma FilledAtEnd(fields: seq<Field>, m: Msg, i: nat)
    requires WellFormed(fields) && Holds(fields, m) && SelectorsKnown(fields, m) && i < |fields|
    ensures Filled(fields, m, |fields|).slots[fields[i].dataOffset] == m.slots[fields[i].dataOffset]
  {
    hide DefaultSlot, Filled;
    var f, s := fields[i], m.slots[fields[i].dataOffset];
    FilledAt(fields, m, |fields|, i);
    if !WrittenBefore(fields, m, |fields|, f.dataOffset) {
      NoMemberWritten(fields, m, i);
      UnwrittenIsDefault(f, s);
    }
  }

  lemma NoMemberWritten(fields: seq<Field>, m: Msg, i: nat)
    requires m.slots.Keys == Offsets(fields) && i < |fields|
    requires SelectorNamed(fields, i, m.slots[fields[i].dataOffset])
    requires !WrittenBefore(fields, m, |fields|, fields[i].dataOffset)
    ensures var s := m.slots[fields[i].dataOffset];
      !Written(fields[i], s) && (s.Union? ==> s.u.None?)
  {
    var s := m.slots[fields[i].dataOffset];
    forall j | 0 <= j < |fields| && fields[j].dataOffset == fields[i].dataOffset ensures !Written(fields[j], s) {
    }
  }

  lemma FilledIsWhole(fields: seq<Field>, m: Msg)
    requires WellFormed(fields) && Holds(fields, m) && SelectorsKnown(fields, m)
    ensures Filled(fields, m, |fields|) == m
  {
    hide Filled, WellFormed, SelectorsKnown, HoldsSlot;
    var slots := Filled(fields, m, |fields|).slots;
    forall o | o in m.slots
      ensures slots[o] == m.slots[o]
    {
      var i :| 0 <= i < |fields| && fields[i].dataOffset == o;
      FilledAtEnd(fields, m, i);
    }
    assert slots == m.slots;
  }

  // --- One record

  lemma {:induction false} SearchFinds(fields: seq<Field>, i: nat)
    requires WellFormed(fields) && i < |fields|
    ensures Search(fields, fields[i].tag) == Some(i)
  {
    var r := Search(fields, fields[i].tag);
    assert LType(fields[i].type_) != LTYPE_EXTENSION;
    assert r.Some? ==> fields[r.value].tag == fields[i].tag;
  }

  lemma KeyInverts(wireType: nat, tag: nat, body: seq<byte>)
    requires wireType < 8 && tag < 0x1_0000
    ensures DecodeKey(TagBytes(wireType, tag) + body) == Got(Key(tag, wireType), body)
  {
    hide Varint.Encode, Varint.Decode32;
    Varint.Decode32OfEncode(tag * 8 + wireType, body);
  }

  // A record of a known field, whatever is behind its tag.
  lemma KnownRecord(fields: seq<Field>, i: nat, wireType: nat, r: Run, nt: bool, body: seq<byte>)
    requires WellFormed(fields) && i < |fields| && wireType < 8
    ensures DecodeRecords(fields, r, nt, TagBytes(wireType, fields[i].tag) + body)
         == match DecodeKnown(fields, i, wireType, r, body)
            case Bad => Bad
            case Got(r1, rest) => DecodeRecords(fields, r1, nt, rest)
  {
    hide DecodeKnown, TagBytes;
    KeyInverts(wireType, fields[i].tag, body);
    SearchFinds(fields, i);
  }

  ghost predicate Before(fields: seq<Field>, m: Msg, i: nat, r: Run)
    requires i <= |fields| && m.slots.Keys == Offsets(fields)
  {
    && r.msg == Filled(fields, m, i)
    && (forall j | 0 <= j < i ::
          HType(fields[j].type_) == HTYPE_REQUIRED && RequiredBefore(fields, j) < MAX_REQUIRED_FIELDS ==>
            RequiredBefore(fields, j) in r.seen)
    && FixedDone(fields, r)
    && (r.fixedField.Some? ==> r.fixedField.value < i)
  }

  // --- Elements, fields and messages, whatever follows them

  lemma {:induction false} ValueInverts(f: Field, v: Value, tail: seq<byte>)
    requires WellFormedField(f) && HoldsValue(f, v) && ValueSelectorsKnown(f, v)
    requires WireValue(f, v).Some? && |WireValue(f, v).value| < TWO_63
    ensures DecodeValue(f, WireValue(f, v).value + tail) == if SmallValue(f, v) then Got(v, tail) else Bad
    decreases f, 0
  {
    if IsSubmsg(f.type_) {
      var w := Wire(f.sub, v.m).value;
      PrefixInverts(w, tail);
      if |w| < TWO_32 {
        MessageEncodes(f.sub, v.m);
        MessageInverts(f.sub, v.m);
      }
    } else {
      ScalarInverts(f, v, tail);
    }
  }

  // A message that fits has an encoding, and this one is decoded to the message again, exactly if the
  // decoder can read the lengths in it.
  lemma {:induction false} MessageInverts(fields: seq<Field>, m: Msg)
    requires WellFormed(fields) && Holds(fields, m) && SelectorsKnown(fields, m) && Fit(fields, m)
    ensures Wire(fields, m) == Some(Encoding(fields, m))
    ensures |Encoding(fields, m)| < TWO_63 ==>
      DecodeMessage(fields, Defaults(fields), false, Encoding(fields, m))
      == if Small(fields, m) then Got(m, []) else Bad
    decreases fields, 4
  {
    hide WellFormed, HoldsSlot, SelectorsKnown, WireFrom, DecodeRecords, SmallFrom, Before, Filled, Defaults,
         FixedDone, AllRequiredSeen, Fit;
    var w, r := Encoding(fields, m), Start(Defaults(fields));
    if |w| >= TWO_63 {
      return;
    }
    BeforeStart(fields, m);
    var rn := FieldsInvert(fields, m, 0, r, false, []);
    assert w + [] == w;
    if Small(fields, m) {
      BeforeEnd(fields, m, rn);
      RecordsEnd(fields, rn, false);
    }
  }

  lemma BeforeStart(fields: seq<Field>, m: Msg)
    requires m.slots.Keys == Offsets(fields)
    ensures Before(fields, m, 0, Start(Defaults(fields)))
  {
  }

  lemma BeforeEnd(fields: seq<Field>, m: Msg, r: Run)
    requires WellFormed(fields) && Holds(fields, m) && SelectorsKnown(fields, m)
    requires Before(fields, m, |fields|, r)
    ensures r.msg == m && FixedDone(fields, r) && AllRequiredSeen(fields, r.seen)
  {
    hide WellFormed, HoldsSlot, SelectorsKnown, Filled;
    FilledIsWhole(fields, m);
  }

  lemma {:induction false} FieldsInvert(
    fields: seq<Field>, m: Msg, i: nat, r: Run, nt: bool, tail: seq<byte>) returns (rn: Run)
    requires WellFormed(fields) && Holds(fields, m) && SelectorsKnown(fields, m)
    requires i <= |fields| && Before(fields, m, i, r)
    requires WireFrom(fields, m, i).Some? && |WireFrom(fields, m, i).value| < TWO_63
    ensures SmallFrom(fields, m, i) ==>
      && Before(fields, m, |fields|, rn)
      && DecodeRecords(fields, r, nt, WireFrom(fields, m, i).value + tail) == DecodeRecords(fields, rn, nt, tail)
    ensures !SmallFrom(fields, m, i) ==>
      DecodeRecords(fields, r, nt, WireFrom(fields, m, i).value + tail) == Bad
    decreases fields, 3, |fields| - i
  {
    hide WellFormed, HoldsSlot, SelectorsKnown, Before, WireField, DecodeRecords, SmallSlot;
    rn := r;
    if i == |fields| {
      assert [] + tail == tail;
      return;
    }
    var s := m.slots[fields[i].dataOffset];
    var w, rest := WireField(fields[i], s).value, WireFrom(fields, m, i + 1).value;
    assert WireFrom(fields, m, i).value + tail == w + (rest + tail);
    var r1 := FieldStep(fields, m, i, r, nt, rest + tail);
    if SmallSlot(fields[i], s) {
      rn := FieldsInvert(fields, m, i + 1, r1, nt, tail);
    }
  }

  // The records of one field.
  lemma {:induction false} FieldStep(
    fields: seq<Field>, m: Msg, i: nat, r: Run, nt: bool, tail: seq<byte>) returns (r1: Run)
    requires WellFormed(fields) && Holds(fields, m) && SelectorsKnown(fields, m)
    requires i < |fields| && Before(fields, m, i, r)
    requires var w := WireField(fields[i], m.slots[fields[i].dataOffset]); w.Some? && |w.value| < TWO_63
    ensures SmallSlot(fields[i], m.slots[fields[i].dataOffset]) ==>
      && Before(fields, m, i + 1, r1)
      && DecodeRecords(fields, r, nt, WireField(fields[i], m.slots[fields[i].dataOffset]).value + tail)
      == DecodeRecords(fields, r1, nt, tail)
    ensures !SmallSlot(fields[i], m.slots[fields[i].dataOffset]) ==>
      DecodeRecords(fields, r, nt, WireField(fields[i], m.slots[fields[i].dataOffset]).value + tail) == Bad
    decreases fields, 2
  {
    hide DecodeRecords, Before, SmallValue, WireBasic, WireArray, HoldsValue, ValueSelectorsKnown, IsZero,
         SelectorNamed;
    var f := fields[i];
    var s := m.slots[f.dataOffset];
    var w := WireField(f, s).value;
    if !Written(f, s) {
      r1 := r;
      UnwrittenIsSilent(f, s);
      assert [] + tail == tail;
      BeforeSkip(fields, m, i, r);
    } else if s.Many? {
      r1 := ArrayStep(fields, m, i, r, nt, tail);
    } else {
      var v := match s case One(v) => v case Opt(o) => o.value case Union(u) => u.value.v;
      r1 := See(fields, i, r).(msg := Msg(r.msg.slots[f.dataOffset := s]));
      BeforeSingle(fields, m, i, r);
      SingleInverts(fields, i, r, s, v, nt, tail);
    }
  }

  lemma UnwrittenIsSilent(f: Field, s: Slot)
    requires HoldsSlot(f, s) && !Written(f, s)
    ensures WireField(f, s) == Some([]) && SmallSlot(f, s)
  {
  }

  lemma BeforeSkip(fields: seq<Field>, m: Msg, i: nat, r: Run)
    requires i < |fields| && m.slots.Keys == Offsets(fields) && Before(fields, m, i, r)
    requires !Written(fields[i], m.slots[fields[i].dataOffset])
    requires HoldsSlot(fields[i], m.slots[fields[i].dataOffset])
    ensures Before(fields, m, i + 1, r)
  {
    hide HoldsValue;
  }

  lemma BeforeSingle(fields: seq<Field>, m: Msg, i: nat, r: Run)
    requires i < |fields| && m.slots.Keys == Offsets(fields) && Before(fields, m, i, r)
    requires Written(fields[i], m.slots[fields[i].dataOffset])
    ensures fields[i].dataOffset in r.msg.slots
    ensures Before(fields, m, i + 1,
      See(fields, i, r).(msg := Msg(r.msg.slots[fields[i].dataOffset := m.slots[fields[i].dataOffset]])))
  {
  }

  // A field with one record.
  lemma {:induction false} SingleInverts(
    fields: seq<Field>, i: nat, r: Run, s: Slot, v: Value, nt: bool, tail: seq<byte>)
    requires WellFormed(fields) && i < |fields| && fields[i].dataOffset in r.msg.slots
    requires HoldsSlot(fields[i], s) && SlotSelectorsKnown(fields[i], s) && Written(fields[i], s)
    requires s == One(v) || s == Opt(Some(v)) || s == Union(Some(Member(fields[i].tag, v)))
    requires WireBasic(fields[i], v).Some? && |WireBasic(fields[i], v).value| < TWO_63
    ensures DecodeRecords(fields, r, nt, WireBasic(fields[i], v).value + tail)
         == if SmallValue(fields[i], v)
            then DecodeRecords(
              fields, See(fields, i, r).(msg := Msg(r.msg.slots[fields[i].dataOffset := s])), nt, tail)
            else Bad
    decreases fields, 1
  {
    hide DecodeRecords, SmallValue, WireValue, DecodeValue, HoldsValue, ValueSelectorsKnown, IsZero, TagBytes;
    var f := fields[i];
    var wt, c := WireTypeOf(f).value, WireValue(f, v).value;
    ValueInverts(f, v, tail);
    KnownRecord(fields, i, wt, r, nt, c + tail);
    assert WireBasic(f, v).value + tail == TagBytes(wt, f.tag) + (c + tail);
    WireTypeChecks(f);
  }

  lemma WireTypeChecks(f: Field)
    requires WireTypeOf(f).Some?
    ensures WireTypeOf(f).value < 8 && CheckWireType(f, WireTypeOf(f).value)
    ensures WireTypeOf(f).value == WT_STRING ==> !IsPackable(f)
  {
  }

  // An array that is about to be received.
  ghost predicate Receiving(fields: seq<Field>, i: nat, r: Run, vs: seq<Value>, j: nat)
    requires i < |fields| && j <= |vs|
  {
    var f := fields[i];
    && f.dataOffset in r.msg.slots && r.msg.slots[f.dataOffset] == Many(vs[..j])
    && (IsFixedCount(f) ==>
          if j == 0 then r.fixedField != Some(i) && FixedDone(fields, r)
          else r.fixedField == Some(i) && r.fixedSize == j)
  }

  function Received(fields: seq<Field>, i: nat, r: Run, vs: seq<Value>): Run
    requires i < |fields|
  {
    var r1 := r.(msg := Msg(r.msg.slots[fields[i].dataOffset := Many(vs)]));
    if IsFixedCount(fields[i]) then r1.(fixedField := Some(i), fixedSize := |vs|) else r1
  }

  lemma {:induction false} ArrayStep(
    fields: seq<Field>, m: Msg, i: nat, r: Run, nt: bool, tail: seq<byte>) returns (r1: Run)
    requires WellFormed(fields) && Holds(fields, m) && SelectorsKnown(fields, m)
    requires i < |fields| && Before(fields, m, i, r) && m.slots[fields[i].dataOffset].Many?
    requires m.slots[fields[i].dataOffset].vs != []
    requires var w := WireField(fields[i], m.slots[fields[i].dataOffset]); w.Some? && |w.value| < TWO_63
    ensures SmallSlot(fields[i], m.slots[fields[i].dataOffset]) ==>
      && Before(fields, m, i + 1, r1)
      && DecodeRecords(fields, r, nt, WireField(fields[i], m.slots[fields[i].dataOffset]).value + tail)
      == DecodeRecords(fields, r1, nt, tail)
    ensures !SmallSlot(fields[i], m.slots[fields[i].dataOffset]) ==>
      DecodeRecords(fields, r, nt, WireField(fields[i], m.slots[fields[i].dataOffset]).value + tail) == Bad
    decreases fields, 1
  {
    hide DecodeRecords, SmallValue, WireBasic, HoldsValue, ValueSelectorsKnown, IsZero, SelectorNamed, Before,
         WirePackedAll, WireUnpacked, TagBytes;
    var f := fields[i];
    var vs := m.slots[f.dataOffset].vs;
    r1 := Received(fields, i, r, vs);
    StartReceiving(fields, m, i, r);
    assert forall k | 0 <= k < |vs| :: HoldsValue(f, vs[k]) && ValueSelectorsKnown(f, vs[k]);
    if IsPackable(f) {
      PackedRecord(fields, i, r, vs, nt, tail);
    } else {
      UnpackedInverts(fields, i, r, vs, 0, nt, tail);
      assert vs[0..] == vs;
    }
    BeforeArray(fields, m, i, r);
  }

  lemma StartReceiving(fields: seq<Field>, m: Msg, i: nat, r: Run)
    requires WellFormed(fields) && Holds(fields, m)
    requires i < |fields| && Before(fields, m, i, r) && m.slots[fields[i].dataOffset].Many?
    ensures Receiving(fields, i, r, m.slots[fields[i].dataOffset].vs, 0)
  {
    hide DefaultValue, Filled;
    var f := fields[i];
    assert HoldsSlot(f, m.slots[f.dataOffset]);
    FilledAt(fields, m, i, i);
    assert !WrittenBefore(fields, m, i, f.dataOffset);
    assert m.slots[f.dataOffset].vs[..0] == [];
  }

  lemma BeforeArray(fields: seq<Field>, m: Msg, i: nat, r: Run)
    requires i < |fields| && m.slots.Keys == Offsets(fields) && Before(fields, m, i, r)
    requires HoldsSlot(fields[i], m.slots[fields[i].dataOffset]) && m.slots[fields[i].dataOffset].Many?
    requires m.slots[fields[i].dataOffset].vs != []
    ensures Before(fields, m, i + 1, Received(fields, i, r, m.slots[fields[i].dataOffset].vs))
  {
    hide HoldsValue, Defaults;
  }

  lemma PackedRecord(fields: seq<Field>, i: nat, r: Run, vs: seq<Value>, nt: bool, tail: seq<byte>)
    requires WellFormed(fields) && i < |fields| && HType(fields[i].type_) == HTYPE_REPEATED && IsPackable(fields[i])
    requires Receiving(fields, i, r, vs, 0) && vs != [] && |vs| <= fields[i].arraySize
    requires forall k | 0 <= k < |vs| :: HoldsValue(fields[i], vs[k])
    ensures WirePackedAll(fields[i], vs).Some?
    ensures DecodeRecords(
              fields, r, nt, TagBytes(WT_STRING, fields[i].tag) + WithPrefix(WirePackedAll(fields[i], vs).value) + tail)
         == DecodeRecords(fields, Received(fields, i, r, vs), nt, tail)
    ensures forall k | 0 <= k < |vs| :: SmallValue(fields[i], vs[k])
  {
    hide DecodeRecords, HoldsValue, TagBytes, WirePackedAll, DecodePacked, Prefixed, WithPrefix;
    var f := fields[i];
    PackedAllInverts(f, [], vs);
    var data := WirePackedAll(f, vs).value;
    PrefixInverts(data, tail);
    assert [] + vs == vs && vs[..0] == [];
    KnownRecord(fields, i, WT_STRING, r, nt, WithPrefix(data) + tail);
    var key := TagBytes(WT_STRING, f.tag);
    assert key + WithPrefix(data) + tail == key + (WithPrefix(data) + tail);
  }

  // The first record of an unpacked array, and the others behind it.
  lemma UnpackedHead(f: Field, vs: seq<Value>, tail: seq<byte>)
    requires vs != [] && WireUnpacked(f, vs).Some?
    ensures WireTypeOf(f).Some? && WireValue(f, vs[0]).Some? && WireUnpacked(f, vs[1..]).Some?
    ensures var c, rest := WireValue(f, vs[0]).value, WireUnpacked(f, vs[1..]).value;
      && |c| <= |WireUnpacked(f, vs).value| && |rest| <= |WireUnpacked(f, vs).value|
      && WireUnpacked(f, vs).value + tail == TagBytes(WireTypeOf(f).value, f.tag) + (c + (rest + tail))
  {
    hide WireValue, WireTypeOf, TagBytes;
    var c, rest := WireValue(f, vs[0]).value, WireUnpacked(f, vs[1..]).value;
    var tag := TagBytes(WireTypeOf(f).value, f.tag);
    assert WireUnpacked(f, vs).value == (tag + c) + rest;
    hide *;
    FourParts(tag, c, rest, tail);
  }

  lemma FourParts(a: seq<byte>, b: seq<byte>, c: seq<byte>, d: seq<byte>)
    ensures ((a + b) + c) + d == a + (b + (c + d))
  {
  }

  lemma UnpackedNothing(f: Field, i: nat, fields: seq<Field>, r: Run, vs: seq<Value>, tail: seq<byte>)
    requires i < |fields| && f == fields[i] && vs != [] && Receiving(fields, i, r, vs, |vs|)
    ensures WireUnpacked(f, vs[|vs|..]) == Some([]) && [] + tail == tail
    ensures Received(fields, i, r, vs) == r
  {
    assert vs[..|vs|] == vs;
    assert r.msg.slots == r.msg.slots[f.dataOffset := Many(vs)];
  }

  ghost predicate ElementsSmall(f: Field, vs: seq<Value>, j: nat) {
    forall k | j <= k < |vs| :: SmallValue(f, vs[k])
  }

  lemma ElementsSmallNext(f: Field, vs: seq<Value>, j: nat)
    ensures ElementsSmall(f, vs, j) <==> (j < |vs| ==> SmallValue(f, vs[j]) && ElementsSmall(f, vs, j + 1))
  {
    hide SmallValue;
  }

  lemma {:induction false} UnpackedInverts(
    fields: seq<Field>, i: nat, r: Run, vs: seq<Value>, j: nat, nt: bool, tail: seq<byte>)
    requires WellFormed(fields) && i < |fields| && HType(fields[i].type_) == HTYPE_REPEATED && !IsPackable(fields[i])
    requires vs != [] && |vs| <= fields[i].arraySize && j <= |vs| && Receiving(fields, i, r, vs, j)
    requires forall k | 0 <= k < |vs| :: HoldsValue(fields[i], vs[k]) && ValueSelectorsKnown(fields[i], vs[k])
    requires WireUnpacked(fields[i], vs[j..]).Some? && |WireUnpacked(fields[i], vs[j..]).value| < TWO_63
    ensures DecodeRecords(fields, r, nt, WireUnpacked(fields[i], vs[j..]).value + tail)
         == if ElementsSmall(fields[i], vs, j) then DecodeRecords(fields, Received(fields, i, r, vs), nt, tail) else Bad
    decreases fields, 0, |vs| - j
  {
    var f := fields[i];
    assert WellFormedField(f);
    hide *;
    ElementsSmallNext(f, vs, j);
    if j == |vs| {
      UnpackedNothing(f, i, fields, r, vs, tail);
    } else {
      var v := vs[j];
      assert vs[j..][1..] == vs[j + 1..];
      UnpackedHead(f, vs[j..], tail);
      var wt, c, rest := WireTypeOf(f).value, WireValue(f, v).value, WireUnpacked(f, vs[j + 1..]).value;
      WireTypeChecks(f);
      ValueInverts(f, v, rest + tail);
      KnownRecord(fields, i, wt, r, nt, c + (rest + tail));
      KnownNeedsValue(fields, i, wt, r, vs, j, c + (rest + tail));
      if SmallValue(f, v) {
        var r1 := ElementStored(fields, i, r, vs, j, wt, c + (rest + tail), rest + tail);
        UnpackedInverts(fields, i, r1, vs, j + 1, nt, tail);
      }
    }
  }

  // An element that cannot be read fails the record.
  lemma KnownNeedsValue(
    fields: seq<Field>, i: nat, wt: nat, r: Run, vs: seq<Value>, j: nat, bs: seq<byte>)
    requires i < |fields| && HType(fields[i].type_) == HTYPE_REPEATED && !IsPackable(fields[i])
    requires j <= |vs| && Receiving(fields, i, r, vs, j)
    ensures DecodeValue(fields[i], bs).Bad? ==> DecodeKnown(fields, i, wt, r, bs).Bad?
  {
    hide DecodeValue;
  }

  lemma ElementStored(
    fields: seq<Field>, i: nat, r: Run, vs: seq<Value>, j: nat, wt: nat, bs: seq<byte>, rest: seq<byte>)
    returns (r1: Run)
    requires i < |fields| && HType(fields[i].type_) == HTYPE_REPEATED && !IsPackable(fields[i])
    requires |vs| <= fields[i].arraySize && j < |vs| && Receiving(fields, i, r, vs, j)
    requires CheckWireType(fields[i], wt) && DecodeValue(fields[i], bs) == Got(vs[j], rest)
    ensures DecodeKnown(fields, i, wt, r, bs) == Got(r1, rest)
    ensures Receiving(fields, i, r1, vs, j + 1) && Received(fields, i, r1, vs) == Received(fields, i, r, vs)
  {
    hide DecodeValue, CheckWireType;
    var f, s := fields[i], r.msg.slots[fields[i].dataOffset];
    assert StoreAt(f.arraySize, Array(vs[..j], j), vs[j]).vs == vs[..j + 1];
    assert DecodeField(f, wt, s, j, bs) == Got(Stored(Many(vs[..j + 1]), j + 1), rest);
    r1 := DecodeKnown(fields, i, wt, r, bs).value;
  }
}
