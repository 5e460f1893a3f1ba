// Generated structures, and which of the messages they can hold have an encoding.
module Structures {
  import opened Bytes
  import opened Descriptor
  import opened Message
  import opened EncodeSpec
  import opened ScalarRoundTrip

  // A field list as the generator emits it: every number has the size of its type, and no two fields
  // share storage except the members of a oneof.
  ghost predicate WellFormed(fields: seq<Field>)
    decreases fields
  {
    && Supported(fields)
    && SeparateStorage(fields)
    && forall i | 0 <= i < |fields| :: SizedRight(fields[i]) && WellFormed(fields[i].sub)
  }

  ghost predicate SeparateStorage(fields: seq<Field>) {
    forall i, j | 0 <= i < j < |fields| && fields[i].dataOffset == fields[j].dataOffset ::
      HType(fields[i].type_) == HTYPE_ONEOF && HType(fields[j].type_) == HTYPE_ONEOF
  }

  ghost predicate WellFormedField(f: Field) {
    SizedRight(f) && LType(f.type_) != LTYPE_SUBMSG_W_CB && WellFormed(f.sub)
  }

  // Every oneof selector names one of the fields of that oneof, in submessages as well.
  ghost predicate SelectorsKnown(fields: seq<Field>, m: Msg)
    requires m.slots.Keys == Offsets(fields)
    decreases fields
  {
    forall i | 0 <= i < |fields| ::
      && SlotSelectorsKnown(fields[i], m.slots[fields[i].dataOffset])
      && SelectorNamed(fields, i, m.slots[fields[i].dataOffset])
  }

  ghost predicate SelectorNamed(fields: seq<Field>, i: nat, s: Slot)
    requires i < |fields|
  {
    s.Union? && s.u.Some? ==>
      exists j | 0 <= j < |fields| ::
        fields[j].dataOffset == fields[i].dataOffset && fields[j].tag == s.u.value.tag
  }

  ghost predicate SlotSelectorsKnown(f: Field, s: Slot)
    decreases f, 1
  {
    match s
    case One(v) => ValueSelectorsKnown(f, v)
    case Opt(o) => o.Some? ==> ValueSelectorsKnown(f, o.value)
    case Many(vs) => forall i | 0 <= i < |vs| :: ValueSelectorsKnown(f, vs[i])
    case Union(u) => u.Some? && u.value.tag == f.tag ==> ValueSelectorsKnown(f, u.value.v)
  }

  ghost predicate ValueSelectorsKnown(f: Field, v: Value)
    decreases f, 0
  {
    IsSubmsg(f.type_) && v.Sub? && v.m.slots.Keys == Offsets(f.sub) ==> SelectorsKnown(f.sub, v.m)
  }

  // --- Messages that fit

  // The elements that are written leave room for what the storage needs besides them (the size of a
  // byte array, the terminator of a string), and their types are known. Nothing is asked of the
  // elements that are not written.
  ghost predicate FitValue(f: Field, v: Value)
    decreases f, 0
  {
    var t := LType(f.type_);
    if t == LTYPE_BYTES then v.Blob? && |v.data| + 2 <= f.dataSize
    else if t == LTYPE_STRING then v.Text? && |v.chars| < f.dataSize
    else if t == LTYPE_SUBMESSAGE then v.Sub? && Fit(f.sub, v.m)
    else t <= LTYPE_FIXED_LENGTH_BYTES
  }

  ghost predicate FitSlot(f: Field, s: Slot)
    decreases f, 1
  {
    match s
    case One(v) => (IsSingular(f) && IsZero(f, v)) || FitValue(f, v)
    case Opt(o) => o.Some? ==> FitValue(f, o.value)
    case Many(vs) => |vs| <= f.arraySize && forall i | 0 <= i < |vs| :: FitValue(f, vs[i])
    case Union(u) => u.Some? && u.value.tag == f.tag ==> FitValue(f, u.value.v)
  }

  ghost predicate FitFrom(fields: seq<Field>, m: Msg, i: nat)
    decreases fields, 0
  {
    forall j | i <= j < |fields| ::
      fields[j].dataOffset in m.slots && FitSlot(fields[j], m.slots[fields[j].dataOffset])
  }

  ghost predicate Fit(fields: seq<Field>, m: Msg)
    decreases fields, 1
  {
    FitFrom(fields, m, 0)
  }

  lemma {:induction false} ValueEncodes(f: Field, v: Value)
    requires WellFormedField(f) && LType(f.type_) != LTYPE_EXTENSION && HoldsValue(f, v)
    ensures WireBasic(f, v).Some? <==> FitValue(f, v)
    decreases f, 0
  {
    hide Wire, Fit, WellFormed;
    if LType(f.type_) == LTYPE_SUBMESSAGE {
      MessageEncodes(f.sub, v.m);
    }
  }

  lemma {:induction false} ElementsEncode(f: Field, vs: seq<Value>)
    requires WellFormedField(f) && LType(f.type_) != LTYPE_EXTENSION
    requires forall i | 0 <= i < |vs| :: HoldsValue(f, vs[i])
    ensures WireUnpacked(f, vs).Some? <==> forall i | 0 <= i < |vs| :: FitValue(f, vs[i])
    decreases f, 1, |vs|
  {
    hide HoldsValue, WireBasic, FitValue, WellFormedField;
    if vs != [] {
      ValueEncodes(f, vs[0]);
      ElementsEncode(f, vs[1..]);
      assert forall i | 1 <= i < |vs| :: vs[i] == vs[1..][i - 1];
    }
  }

  lemma {:induction false} PackedEncode(f: Field, vs: seq<Value>)
    requires SizedRight(f) && IsPackable(f) && forall i | 0 <= i < |vs| :: HoldsValue(f, vs[i])
    ensures WirePackedAll(f, vs).Some?
  {
    hide HoldsValue, WirePacked, SizedRight;
    if vs != [] {
      PackedInverts(f, vs[0], []);
      PackedEncode(f, vs[1..]);
    }
  }

  lemma {:induction false} SlotEncodes(f: Field, s: Slot)
    requires WellFormedField(f) && LType(f.type_) != LTYPE_EXTENSION && HoldsSlot(f, s)
    ensures WireField(f, s).Some? <==> FitSlot(f, s)
    decreases f, 2
  {
    hide HoldsValue, WireBasic, FitValue, WellFormed, SizedRight, WirePackedAll, WireUnpacked, IsZero, TagBytes,
         WithPrefix;
    match s
    case One(v) => ValueEncodes(f, v);
    case Opt(o) =>
      if o.Some? {
        ValueEncodes(f, o.value);
      }
    case Union(u) =>
      if u.Some? && u.value.tag == f.tag {
        ValueEncodes(f, u.value.v);
      }
    case Many(vs) =>
      if IsPackable(f) {
        PackedEncode(f, vs);
        PackableFits(f, vs);
      } else {
        ElementsEncode(f, vs);
      }
  }

  lemma PackableFits(f: Field, vs: seq<Value>)
    requires IsPackable(f)
    ensures forall i | 0 <= i < |vs| :: FitValue(f, vs[i])
  {
  }

  lemma {:induction false} FieldsEncode(fields: seq<Field>, m: Msg, i: nat)
    requires WellFormed(fields) && Holds(fields, m) && i <= |fields|
    ensures WireFrom(fields, m, i).Some? <==> FitFrom(fields, m, i)
    decreases fields, 0, |fields| - i
  {
    hide HoldsSlot, WireField, FitSlot;
    if i < |fields| {
      SlotEncodes(fields[i], m.slots[fields[i].dataOffset]);
      FieldsEncode(fields, m, i + 1);
    }
  }

  // A message that a structure holds has an encoding exactly if it fits.
  lemma {:induction false} MessageEncodes(fields: seq<Field>, m: Msg)
    requires WellFormed(fields) && Holds(fields, m)
    ensures Wire(fields, m).Some? <==> Fit(fields, m)
    decreases fields, 1
  {
    hide WellFormed, Holds, WireFrom, FitFrom;
    FieldsEncode(fields, m, 0);
  }

  // What is written for a message that fits.
  ghost function Encoding(fields: seq<Field>, m: Msg): (w: seq<byte>)
    requires WellFormed(fields) && Holds(fields, m) && Fit(fields, m)
    ensures Wire(fields, m) == Some(w)
  {
    MessageEncodes(fields, m);
    Wire(fields, m).value
  }
}
