// Message structures and the field lists the codec works on.
module Message {
  import opened Bytes
  import opened Descriptor

  // The contents of one element: a number or bool, a bytes array with its size, the characters of
  // a string up to its terminator (all of the storage when there is none), an inline byte array,
  // or a submessage structure.
  datatype Value =
    | Num(n: int)
    | Blob(data: seq<byte>)
    | Text(chars: seq<byte>)
    | Inline(data: seq<byte>)
    | Sub(m: Msg)

  datatype Member = Member(tag: nat, v: Value)

  // The storage of one field together with its has flag, its count or its oneof selector. An
  // absent optional and a oneof whose selector is 0 have no visible contents.
  datatype Slot =
    | One(v: Value)
    | Opt(o: Option<Value>)
    | Many(vs: seq<Value>)
    | Union(u: Option<Member>)

  // A structure, by the offsets of its fields. The members of a oneof share one offset.
  datatype Msg = Msg(slots: map<nat, Slot>)

  predicate IsPackable(f: Field) { LType(f.type_) <= LTYPE_LAST_PACKABLE }

  predicate IsFixedCount(f: Field) { HType(f.type_) == HTYPE_REPEATED && f.sizeOffset == 0 }

  predicate HasFlag(f: Field) { HType(f.type_) == HTYPE_OPTIONAL && f.sizeOffset != 0 }

  predicate IsSingular(f: Field) { HType(f.type_) == HTYPE_OPTIONAL && f.sizeOffset == 0 }

  // Range of the integers stored in size bytes.
  function Span(size: nat): nat {
    if size == 1 then 0x100 else if size == 2 then 0x1_0000 else if size == 4 then TWO_32 else TWO_64
  }

  predicate IntegerSize(size: nat) { size == 1 || size == 2 || size == 4 || size == 8 }

  // Fields of the part of the library that is modelled: static storage, no callbacks and no
  // extensions, positive tags that differ, fixed-width numbers stored in the width their type says,
  // and a selector for every oneof. Nothing is asked of the other sizes; the codec checks them itself.
  ghost predicate Supported(fields: seq<Field>)
    decreases fields
  {
    DistinctTags(fields) && forall i | 0 <= i < |fields| ::
      var f := fields[i];
      && Exact(f) && 0 < f.tag
      && AType(f.type_) == ATYPE_STATIC
      && LType(f.type_) != LTYPE_SUBMSG_W_CB && LType(f.type_) != LTYPE_EXTENSION
      && (LType(f.type_) == LTYPE_FIXED32 ==> f.dataSize == 4)
      && (LType(f.type_) == LTYPE_FIXED64 ==> f.dataSize == 8)
      && (HType(f.type_) == HTYPE_ONEOF ==> f.sizeOffset != 0)
      && Supported(f.sub)
  }

  lemma {:induction false} SupportedFits(fields: seq<Field>)
    requires Supported(fields)
    ensures AllFit(fields)
    decreases fields
  {
    forall i | 0 <= i < |fields|
      ensures Fits(fields[i]) && AllFit(fields[i].sub)
    {
      SupportedFits(fields[i].sub);
    }
  }

  // What a C structure can hold in the storage of one element.
  ghost predicate HoldsValue(f: Field, v: Value)
    decreases f, 0
  {
    var t := LType(f.type_);
    if t == LTYPE_BOOL then v.Num? && (v.n == 0 || v.n == 1)
    else if t == LTYPE_UVARINT || t == LTYPE_FIXED32 || t == LTYPE_FIXED64 then v.Num? && 0 <= v.n < Span(f.dataSize)
    else if t == LTYPE_VARINT || t == LTYPE_SVARINT then
      v.Num? && -(Span(f.dataSize) / 2) <= v.n < Span(f.dataSize) / 2
    else if t == LTYPE_BYTES then v.Blob? && |v.data| < 0x1_0000
    else if t == LTYPE_STRING then v.Text? && |v.chars| <= f.dataSize && 0 !in v.chars
    else if t == LTYPE_FIXED_LENGTH_BYTES then v.Inline? && |v.data| == f.dataSize
    else if t == LTYPE_SUBMESSAGE then v.Sub? && Holds(f.sub, v.m)
    else true
  }

  ghost predicate HoldsSlot(f: Field, s: Slot)
    decreases f, 1
  {
    if HType(f.type_) == HTYPE_REPEATED then
      && s.Many? && (forall i | 0 <= i < |s.vs| :: HoldsValue(f, s.vs[i]))
      && (if IsFixedCount(f) then |s.vs| == f.arraySize else |s.vs| < 0x1_0000)
    else if HType(f.type_) == HTYPE_ONEOF then
      && s.Union? && (s.u.Some? ==> s.u.value.tag != 0)
      && (s.u.Some? && s.u.value.tag == f.tag ==> HoldsValue(f, s.u.value.v))
    else if HasFlag(f) then s.Opt? && (s.o.Some? ==> HoldsValue(f, s.o.value))
    else s.One? && HoldsValue(f, s.v)
  }

  ghost predicate Holds(fields: seq<Field>, m: Msg)
    decreases fields
  {
    && m.slots.Keys == Offsets(fields)
    && forall i | 0 <= i < |fields| :: HoldsSlot(fields[i], m.slots[fields[i].dataOffset])
  }

  function Offsets(fields: seq<Field>): (s: set<nat>)
    ensures forall i | 0 <= i < |fields| :: fields[i].dataOffset in s
    ensures forall o | o in s :: exists i | 0 <= i < |fields| :: fields[i].dataOffset == o
  {
    set i | 0 <= i < |fields| :: fields[i].dataOffset
  }

  // What pb_field_set_to_default leaves in the storage of one field. Repeated fields only get
  // their count cleared, and a fixed-count array has no element that was received.
  function DefaultSlot(f: Field): Slot
    decreases f, 1
  {
    if HType(f.type_) == HTYPE_REPEATED then Many([])
    else if HType(f.type_) == HTYPE_ONEOF then Union(None)
    else if HasFlag(f) then Opt(None)
    else One(DefaultValue(f))
  }

  function DefaultValue(f: Field): Value
    decreases f, 0
  {
    var t := LType(f.type_);
    if IsSubmsg(f.type_) then Sub(Defaults(f.sub))
    else if t == LTYPE_BYTES then Blob([])
    else if t == LTYPE_STRING then Text([])
    else if t == LTYPE_FIXED_LENGTH_BYTES then Inline(Zeros(f.dataSize))
    else Num(0)
  }

  function Zeros(n: nat): (z: seq<byte>)
    ensures |z| == n
  {
    seq(n, _ => 0)
  }

  function Defaults(fields: seq<Field>): (m: Msg)
    ensures m.slots.Keys == Offsets(fields)
    decreases fields
  {
    DefaultsUpTo(fields, |fields|)
  }

  function DefaultsUpTo(fields: seq<Field>, n: nat): (m: Msg)
    requires n <= |fields|
    ensures m.slots.Keys == set i | 0 <= i < n :: fields[i].dataOffset
    decreases fields, n
  {
    if n == 0 then Msg(map[])
    else Msg(DefaultsUpTo(fields, n - 1).slots[fields[n - 1].dataOffset := DefaultSlot(fields[n - 1])])
  }
}
