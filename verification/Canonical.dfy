// What the decoder accepts is a message the structure holds and the encoder takes: encoding it again
// and decoding that gives the same message.
module Canonical {
  import opened Bytes
  import opened Descriptor
  import opened Message
  import opened InputStream
  import opened EncodeSpec
  import opened DecodeSpec
  import opened ScalarRoundTrip
  import opened Structures
  import opened RoundTrip
  import opened Records
  import opened Layout
  import Varint

  // Every type is one of the library's, a string has room for its terminator and a byte array for its
  // size, and no array has a fixed count: such an array need not be received, and what the structure
  // holds in its place is not known.
  ghost predicate Storable(fields: seq<Field>)
    decreases fields
  {
    forall i | 0 <= i < |fields| :: StorableField(fields[i]) && Storable(fields[i].sub)
  }

  predicate StorableField(f: Field) {
    && LType(f.type_) <= LTYPE_FIXED_LENGTH_BYTES && !IsFixedCount(f)
    && (LType(f.type_) == LTYPE_STRING ==> 0 < f.dataSize)
    && (LType(f.type_) == LTYPE_BYTES ==> 2 <= f.dataSize)
  }

  // Held by the structure, and taken by the encoder.
  ghost predicate Sound(fields: seq<Field>, m: Msg) {
    Holds(fields, m) && SelectorsKnown(fields, m) && Fit(fields, m)
  }

  ghost predicate SoundSlot(fields: seq<Field>, i: nat, s: Slot)
    requires i < |fields|
  {
    && HoldsSlot(fields[i], s) && SlotSelectorsKnown(fields[i], s) && FitSlot(fields[i], s)
    && SelectorNamed(fields, i, s)
  }

  ghost predicate SoundValue(f: Field, v: Value) {
    HoldsValue(f, v) && ValueSelectorsKnown(f, v) && FitValue(f, v)
  }

  lemma SoundParts(fields: seq<Field>, m: Msg)
    ensures Sound(fields, m) <==>
      && m.slots.Keys == Offsets(fields)
      && forall i | 0 <= i < |fields| :: SoundSlot(fields, i, m.slots[fields[i].dataOffset])
  {
    hide HoldsSlot, SlotSelectorsKnown, FitSlot, SelectorNamed;
    assert Fit(fields, m) == FitFrom(fields, m, 0);
  }

  lemma ScalarSound(f: Field, bs: seq<byte>)
    requires SizedRight(f) && DecodeScalar(f, bs).Got?
    ensures SoundValue(f, DecodeScalar(f, bs).value)
  {
    hide Varint.Decode32, Varint.Decode64, UpToNul, SignedOf;
    if LType(f.type_) == LTYPE_FIXED32 || LType(f.type_) == LTYPE_FIXED64 {
      FixedRange(bs, f.dataSize);
    }
  }

  lemma FixedRange(bs: seq<byte>, size: nat)
    requires (size == 4 || size == 8) && DecodeFixed(bs, size).Got?
    ensures DecodeFixed(bs, size).value < Span(size)
  {
    FromLittleEndianBound(bs[..size]);
    Pow2Words();
  }

  lemma {:induction false} ValueSound(f: Field, bs: seq<byte>)
    requires WellFormedField(f) && Storable(f.sub) && DecodeValue(f, bs).Got?
    ensures SoundValue(f, DecodeValue(f, bs).value)
    decreases f, |bs|, 0
  {
    hide DecodeScalar, DecodeMessage, Prefixed, Defaults, Sound, WellFormed, Storable;
    if IsSubmsg(f.type_) {
      DefaultsSound(f.sub);
      MessageSound(f.sub, Defaults(f.sub), false, Prefixed(bs).value);
      SubSound(f, DecodeMessage(f.sub, Defaults(f.sub), false, Prefixed(bs).value).value);
    } else {
      ScalarSound(f, bs);
    }
  }

  lemma SubSound(f: Field, m: Msg)
    requires LType(f.type_) == LTYPE_SUBMESSAGE && Sound(f.sub, m)
    ensures SoundValue(f, Sub(m))
  {
  }

  // --- Defaults

  lemma {:induction false} DefaultsSound(fields: seq<Field>)
    requires WellFormed(fields) && Storable(fields)
    ensures Sound(fields, Defaults(fields))
    decreases fields, 1
  {
    hide Defaults, SoundSlot, StorableField, SizedRight;
    forall i | 0 <= i < |fields|
      ensures SoundSlot(fields, i, Defaults(fields).slots[fields[i].dataOffset])
    {
      DefaultsWhole(fields, i);
      DefaultSlotSound(fields, i);
    }
    SoundParts(fields, Defaults(fields));
  }

  lemma {:induction false} DefaultSlotSound(fields: seq<Field>, i: nat)
    requires WellFormed(fields) && Storable(fields) && i < |fields|
    ensures SoundSlot(fields, i, DefaultSlot(fields[i]))
    decreases fields, 0
  {
    hide Defaults, Sound;
    var f := fields[i];
    if IsSubmsg(f.type_) {
      DefaultsSound(f.sub);
      SubSound(f, Defaults(f.sub));
    }
    assert SoundValue(f, DefaultValue(f));
  }

  // --- Records

  lemma {:induction false} PackedSound(f: Field, a: Array, bs: seq<byte>)
    requires SizedRight(f) && IsPackable(f) && forall i | 0 <= i < |a.vs| :: SoundValue(f, a.vs[i])
    requires DecodePacked(f, a, bs).Got?
    ensures forall i | 0 <= i < |DecodePacked(f, a, bs).value.vs| :: SoundValue(f, DecodePacked(f, a, bs).value.vs[i])
    decreases if a.k < f.arraySize then f.arraySize - a.k else 0
  {
    hide DecodeScalar, SoundValue, SizedRight;
    if bs != [] && a.k < f.arraySize {
      ScalarSound(f, bs);
      PackedSound(f, StoreAt(f.arraySize, a, DecodeScalar(f, bs).value), DecodeScalar(f, bs).rest);
    }
  }

  ghost predicate SoundArray(f: Field, vs: seq<Value>) {
    |vs| <= f.arraySize && forall i | 0 <= i < |vs| :: SoundValue(f, vs[i])
  }

  lemma ArraySlot(fields: seq<Field>, i: nat, s: Slot)
    requires WellFormed(fields) && i < |fields| && HType(fields[i].type_) == HTYPE_REPEATED && !IsFixedCount(fields[i])
    ensures SoundSlot(fields, i, s) <==> s.Many? && SoundArray(fields[i], s.vs)
  {
    hide HoldsValue, ValueSelectorsKnown, FitValue;
    assert SizedRight(fields[i]);
  }

  lemma SingleSlot(fields: seq<Field>, i: nat, v: Value)
    requires WellFormed(fields) && i < |fields| && HType(fields[i].type_) != HTYPE_REPEATED && SoundValue(fields[i], v)
    ensures var f := fields[i];
      var s := if HType(f.type_) == HTYPE_ONEOF then Union(Some(Member(f.tag, v)))
               else if HasFlag(f) then Opt(Some(v)) else One(v);
      SoundSlot(fields, i, s)
  {
    hide HoldsValue, ValueSelectorsKnown, FitValue;
  }

  lemma {:induction false} FieldSound(fields: seq<Field>, i: nat, wt: nat, s: Slot, bs: seq<byte>)
    requires WellFormed(fields) && Storable(fields) && i < |fields| && SoundSlot(fields, i, s)
    requires DecodeField(fields[i], wt, s, |Elements(s)|, bs).Got?
    ensures SoundSlot(fields, i, DecodeField(fields[i], wt, s, |Elements(s)|, bs).value.slot)
    ensures HType(fields[i].type_) == HTYPE_ONEOF ==>
      var s1 := DecodeField(fields[i], wt, s, |Elements(s)|, bs).value.slot;
      s1.Union? && s1.u.Some? && s1.u.value.tag == fields[i].tag
    decreases fields, |bs|, 0
  {
    hide DecodeValue, DecodePacked, Prefixed, SoundSlot, SoundValue;
    var f, vs := fields[i], Elements(s);
    if HType(f.type_) == HTYPE_REPEATED {
      ArraySlot(fields, i, s);
      ArraySlot(fields, i, DecodeField(f, wt, s, |vs|, bs).value.slot);
    }
    if HType(f.type_) == HTYPE_REPEATED && wt == WT_STRING && IsPackable(f) {
      PackedSound(f, Array(vs, |vs|), Prefixed(bs).value);
      PackedLeftBound(f, Array(vs, |vs|), Prefixed(bs).value);
    } else {
      ValueSound(f, bs);
      if HType(f.type_) != HTYPE_REPEATED {
        SingleSlot(fields, i, DecodeValue(f, bs).value);
      }
    }
  }

  // A oneof that is set to member i holds for the other members as well.
  lemma OtherMember(fields: seq<Field>, i: nat, j: nat, s: Slot)
    requires WellFormed(fields) && i < |fields| && j < |fields| && i != j
    requires fields[i].dataOffset == fields[j].dataOffset
    requires SoundSlot(fields, i, s) && s.Union? && s.u.Some? && s.u.value.tag == fields[i].tag
    ensures SoundSlot(fields, j, s)
  {
    hide HoldsValue, ValueSelectorsKnown, FitValue;
  }

  lemma OneofApart(fields: seq<Field>, i: nat, j: nat)
    requires WellFormed(fields) && i < |fields| && j < |fields| && i != j
    requires fields[i].dataOffset == fields[j].dataOffset
    ensures HType(fields[i].type_) == HTYPE_ONEOF
  {
  }

  lemma SlotReplaced(fields: seq<Field>, i: nat, m: Msg, s: Slot)
    requires WellFormed(fields) && i < |fields| && Sound(fields, m) && SoundSlot(fields, i, s)
    requires HType(fields[i].type_) == HTYPE_ONEOF ==> s.Union? && s.u.Some? && s.u.value.tag == fields[i].tag
    ensures Sound(fields, Msg(m.slots[fields[i].dataOffset := s]))
  {
    hide WellFormed, SoundSlot, Sound;
    var m1 := Msg(m.slots[fields[i].dataOffset := s]);
    SoundParts(fields, m);
    SoundParts(fields, m1);
    assert m1.slots.Keys == m.slots.Keys;
    forall j | 0 <= j < |fields|
      ensures SoundSlot(fields, j, m1.slots[fields[j].dataOffset])
    {
      if i != j && fields[i].dataOffset == fields[j].dataOffset {
        OneofApart(fields, i, j);
        OtherMember(fields, i, j, s);
      }
    }
  }

  lemma {:induction false} RecordSound(fields: seq<Field>, key: Key, r: Run, bs: seq<byte>)
    requires WellFormed(fields) && Storable(fields) && Sound(fields, r.msg) && DecodeRecord(fields, key, r, bs).Got?
    ensures Sound(fields, DecodeRecord(fields, key, r, bs).value.msg)
    decreases fields, |bs|, 1
  {
    hide DecodeField, SkipField, WellFormed, Sound, SoundSlot;
    match Search(fields, key.tag)
    case None =>
    case Some(i) =>
      SoundParts(fields, r.msg);
      var s := r.msg.slots[fields[i].dataOffset];
      FieldSound(fields, i, key.wireType, s, bs);
      SlotReplaced(fields, i, r.msg, DecodeField(fields[i], key.wireType, s, |Elements(s)|, bs).value.slot);
  }

  lemma {:induction false} RecordsSound(fields: seq<Field>, r: Run, nt: bool, bs: seq<byte>)
    requires WellFormed(fields) && Storable(fields) && Sound(fields, r.msg) && DecodeRecords(fields, r, nt, bs).Got?
    ensures Sound(fields, DecodeRecords(fields, r, nt, bs).value.msg)
    decreases fields, |bs|, 2
  {
    hide DecodeKey, DecodeRecord, WellFormed, Storable, Sound;
    if bs != [] {
      var key := DecodeKey(bs);
      if key.value.tag != 0 {
        var p := DecodeRecord(fields, key.value, r, key.rest);
        RecordSound(fields, key.value, r, key.rest);
        RecordsSound(fields, p.value, nt, p.rest);
      }
    }
  }

  // Whatever the bytes are: from a sound message the decoder only ever gets to sound ones.
  lemma {:induction false} MessageSound(fields: seq<Field>, m: Msg, nt: bool, bs: seq<byte>)
    requires WellFormed(fields) && Storable(fields) && Sound(fields, m) && DecodeMessage(fields, m, nt, bs).Got?
    ensures Sound(fields, DecodeMessage(fields, m, nt, bs).value)
    decreases fields, |bs|, 3
  {
    hide DecodeRecords, WellFormed, Storable, Sound;
    RecordsSound(fields, Start(m), nt, bs);
  }

  // Bytes that are accepted may be one of many encodings of their message; encoding the message again
  // gives one that decodes to it as well.
  lemma AcceptedIsReencoded(fields: seq<Field>, nt: bool, bs: seq<byte>, size: nat, n: nat)
    requires WellFormed(fields) && Storable(fields) && Laid(fields, size, n) && n <= MAX_NESTING
    requires DecodeMessage(fields, Defaults(fields), nt, bs).Got?
    ensures var m := DecodeMessage(fields, Defaults(fields), nt, bs).value;
      && Sound(fields, m)
      && DecodeMessage(fields, Defaults(fields), false, Encoding(fields, m)) == Got(m, [])
  {
    hide DecodeMessage, Defaults, WellFormed, Storable, Laid, Holds, SelectorsKnown, Fit;
    DefaultsSound(fields);
    MessageSound(fields, Defaults(fields), nt, bs);
    StructureRoundTrip(fields, DecodeMessage(fields, Defaults(fields), nt, bs).value, size, n);
  }
}
