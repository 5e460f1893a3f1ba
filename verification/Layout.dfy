// How long an encoding can get: the size of the structure bounds it, and with it every length in it.
module Layout {
  import opened Bytes
  import opened Descriptor
  import opened Message
  import opened OutputStream
  import opened InputStream
  import opened EncodeSpec
  import opened DecodeSpec
  import opened ScalarRoundTrip
  import opened Structures
  import opened RoundTrip
  import Varint

  // The bytes a field takes up in its structure from its offset on.
  function Storage(f: Field): nat {
    if HType(f.type_) == HTYPE_REPEATED then f.arraySize * f.dataSize else f.dataSize
  }

  predicate Apart(f: Field, g: Field) {
    || f.dataOffset + Storage(f) <= g.dataOffset
    || g.dataOffset + Storage(g) <= f.dataOffset
    || (f.dataOffset == g.dataOffset && HType(f.type_) == HTYPE_ONEOF && HType(g.type_) == HTYPE_ONEOF)
  }

  // The fields lie in a structure of size bytes without overlapping, except for the members of a
  // oneof; submessages are such structures in turn, with at most n of them inside each other.
  ghost predicate Laid(fields: seq<Field>, size: nat, n: nat)
    decreases fields
  {
    && (forall i | 0 <= i < |fields| ::
          LaidField(fields[i], n) && fields[i].dataOffset + Storage(fields[i]) <= size)
    && (forall i, j | 0 <= i < j < |fields| :: Apart(fields[i], fields[j]))
  }

  ghost predicate LaidField(f: Field, n: nat)
    decreases f
  {
    0 < f.dataSize && (IsSubmsg(f.type_) ==> n > 0 && Laid(f.sub, f.dataSize, n - 1))
  }

  // Bytes of encoding for a byte of structure: the worst element is a negative number in one byte,
  // and each nesting adds a tag and a length.
  function Rate(n: nat): nat { 16 + 8 * n }

  // Up to here the rate times the largest size of a field stays below 2^32.
  const MAX_NESTING := 8190

  // --- Single elements

  lemma EncodeShort(n: nat)
    ensures n < 0x4000 ==> |Varint.Encode(n)| <= 2
    ensures n < 0x20_0000 ==> |Varint.Encode(n)| <= 3
    ensures n < 0x8_0000_0000 ==> |Varint.Encode(n)| <= 5
  {
    hide Varint.Encode, Varint.Pow128;
    Varint.Pow128Table();
    Varint.EncodeLength(n, 2);
    Varint.EncodeLength(n, 3);
    Varint.EncodeLength(n, 5);
  }

  lemma ScalarBound(f: Field, v: Value)
    requires SizedRight(f) && HoldsValue(f, v) && FitValue(f, v) && 0 < f.dataSize && !IsSubmsg(f.type_)
    requires WireValue(f, v).Some?
    ensures |WireValue(f, v).value| + 3 <= 13 * f.dataSize
  {
    hide Varint.Encode, Varint.ZigZag, Varint.UnZigZag;
    var t := LType(f.type_);
    if t <= LTYPE_SVARINT {
      VarintInverts(f, v, []);
    } else if t > LTYPE_FIXED64 {
      EncodeShort(if v.Text? then |v.chars| else |v.data|);
    }
  }

  lemma {:induction false} ElementBound(f: Field, v: Value, n: nat)
    requires WellFormedField(f) && LType(f.type_) != LTYPE_EXTENSION && HoldsValue(f, v) && FitValue(f, v)
    requires LaidField(f, n) && n <= MAX_NESTING
    ensures WireBasic(f, v).Some? && |WireBasic(f, v).value| <= Rate(n) * f.dataSize
    ensures SmallValue(f, v)
    decreases f, 0
  {
    hide Laid, Wire, Small, WellFormed, Varint.Encode, Fit, Holds;
    ValueEncodes(f, v);
    EncodeShort(f.tag * 8 + WireTypeOf(f).value);
    if IsSubmsg(f.type_) {
      MessageBound(f.sub, v.m, f.dataSize, n - 1);
      var w := Wire(f.sub, v.m).value;
      RateBelow(f.dataSize, n - 1);
      EncodeShort(|w|);
      RateStep(f.dataSize, n);
    } else {
      ScalarBound(f, v);
      RateAtLeast(f.dataSize, n);
    }
  }

  lemma RateBelow(size: nat, n: nat)
    requires size < 0x1_0000 && n < MAX_NESTING
    ensures Rate(n) * size < TWO_32
  {
    Scaled(Rate(n), 0x1_0000, size);
  }

  lemma Scaled(a: nat, b: nat, size: nat)
    requires a <= b
    ensures a * size <= b * size
  {
  }

  lemma RateStep(size: nat, n: nat)
    requires 0 < size && 0 < n
    ensures Rate(n) * size >= Rate(n - 1) * size + 8
  {
    assert Rate(n) * size == Rate(n - 1) * size + 8 * size;
  }

  lemma RateAtLeast(size: nat, n: nat)
    ensures Rate(n) * size >= 16 * size
  {
    assert Rate(n) * size == 16 * size + 8 * (n * size);
  }

  // --- Arrays and fields

  lemma {:induction false} UnpackedBound(f: Field, vs: seq<Value>, n: nat)
    requires WellFormedField(f) && LType(f.type_) != LTYPE_EXTENSION && LaidField(f, n) && n <= MAX_NESTING
    requires forall i | 0 <= i < |vs| :: HoldsValue(f, vs[i]) && FitValue(f, vs[i])
    ensures WireUnpacked(f, vs).Some? && |WireUnpacked(f, vs).value| <= |vs| * (Rate(n) * f.dataSize)
    ensures forall i | 0 <= i < |vs| :: SmallValue(f, vs[i])
    decreases f, 1, |vs|
  {
    hide HoldsValue, FitValue, WireBasic, WellFormedField, LaidField, SmallValue, Rate;
    if vs != [] {
      ElementBound(f, vs[0], n);
      UnpackedBound(f, vs[1..], n);
      OneMore(|vs|, Rate(n) * f.dataSize);
      assert forall i | 1 <= i < |vs| :: vs[i] == vs[1..][i - 1];
    }
  }

  lemma OneMore(k: nat, c: nat)
    requires k > 0
    ensures k * c == c + (k - 1) * c
  {
  }

  lemma PackedBound(f: Field, vs: seq<Value>)
    requires SizedRight(f) && IsPackable(f) && forall i | 0 <= i < |vs| :: HoldsValue(f, vs[i])
    requires vs != [] && |vs| <= f.arraySize
    ensures WireArray(f, vs).Some? && |WireArray(f, vs).value| <= 16 * |vs|
    ensures forall i | 0 <= i < |vs| :: SmallValue(f, vs[i])
  {
    hide HoldsValue, Varint.Encode, WirePackedAll, DecodePacked;
    PackedAllInverts(f, [], vs);
    EncodeShort(f.tag * 8 + WT_STRING);
    EncodeShort(|WirePackedAll(f, vs).value|);
  }

  lemma ArrayBound(f: Field, vs: seq<Value>, n: nat)
    requires WellFormedField(f) && LType(f.type_) != LTYPE_EXTENSION && LaidField(f, n) && n <= MAX_NESTING
    requires forall i | 0 <= i < |vs| :: HoldsValue(f, vs[i]) && FitValue(f, vs[i])
    requires vs != [] && |vs| <= f.arraySize
    ensures WireArray(f, vs).Some? && |WireArray(f, vs).value| <= Rate(n) * (f.arraySize * f.dataSize)
    ensures forall i | 0 <= i < |vs| :: SmallValue(f, vs[i])
    decreases f, 2
  {
    hide HoldsValue, FitValue, WirePackedAll, WireUnpacked, SmallValue, TagBytes, WithPrefix, Rate, Laid;
    if IsPackable(f) {
      PackedBound(f, vs);
      RateAtLeast(f.arraySize * f.dataSize, n);
      assert f.arraySize * f.dataSize >= f.arraySize;
    } else {
      UnpackedBound(f, vs, n);
      MoreElements(|vs|, f.arraySize, f.dataSize, Rate(n));
    }
  }

  lemma MoreElements(k: nat, all: nat, size: nat, rate: nat)
    requires k <= all
    ensures k * (rate * size) <= rate * (all * size)
  {
    assert rate * (all * size) == all * (rate * size);
    assert all * (rate * size) == k * (rate * size) + (all - k) * (rate * size);
  }

  lemma {:induction false} SlotBound(f: Field, s: Slot, n: nat)
    requires WellFormedField(f) && LType(f.type_) != LTYPE_EXTENSION && HoldsSlot(f, s) && FitSlot(f, s)
    requires LaidField(f, n) && n <= MAX_NESTING
    ensures WireField(f, s).Some?
    ensures |WireField(f, s).value| <= if Written(f, s) then Rate(n) * Storage(f) else 0
    ensures SmallSlot(f, s)
    decreases f, 3
  {
    hide HoldsValue, FitValue, WireBasic, WireArray, IsZero, SmallValue, Rate, WellFormedField, LaidField;
    match s
    case Many(vs) =>
      if vs != [] {
        ArrayBound(f, vs, n);
      } else {
        NoArray(f);
      }
    case One(v) =>
      if Written(f, s) {
        ElementBound(f, v, n);
      }
    case Opt(o) =>
      if o.Some? {
        ElementBound(f, o.value, n);
      }
    case Union(u) =>
      if Written(f, s) {
        ElementBound(f, u.value.v, n);
      }
  }

  lemma NoArray(f: Field)
    ensures WireArray(f, []) == Some([])
  {
  }

  // --- The bytes of the structure that are encoded

  function Range(lo: nat, n: nat): (r: set<nat>)
    ensures forall b :: b in r <==> lo <= b < lo + n
    ensures |r| == n
  {
    if n == 0 then {} else Range(lo, n - 1) + {lo + n - 1}
  }

  // The storage of the fields from field i on that leave records behind.
  function Covered(fields: seq<Field>, m: Msg, i: nat): set<nat>
    requires m.slots.Keys == Offsets(fields) && i <= |fields|
    decreases |fields| - i
  {
    if i == |fields| then {}
    else
      var f := fields[i];
      (if Written(f, m.slots[f.dataOffset]) then Range(f.dataOffset, Storage(f)) else {}) + Covered(fields, m, i + 1)
  }

  lemma LaidAt(fields: seq<Field>, size: nat, n: nat, i: nat)
    requires Laid(fields, size, n) && i < |fields|
    ensures LaidField(fields[i], n) && fields[i].dataOffset + Storage(fields[i]) <= size
    ensures forall j | i < j < |fields| :: Apart(fields[i], fields[j])
  {
    hide LaidField, Storage, Apart;
  }

  lemma CoveredStep(fields: seq<Field>, m: Msg, i: nat)
    requires m.slots.Keys == Offsets(fields) && i <= |fields|
    ensures i == |fields| ==> Covered(fields, m, i) == {}
    ensures i < |fields| ==>
      var f := fields[i];
      Covered(fields, m, i)
      == (if Written(f, m.slots[f.dataOffset]) then Range(f.dataOffset, Storage(f)) else {}) + Covered(fields, m, i + 1)
  {
    hide Written, Storage, Range;
  }

  lemma RangeInside(lo: nat, n: nat, size: nat)
    requires lo + n <= size
    ensures Range(lo, n) <= Range(0, size)
  {
    hide Range;
  }

  lemma {:induction false} CoveredInside(fields: seq<Field>, m: Msg, i: nat, size: nat, n: nat)
    requires m.slots.Keys == Offsets(fields) && i <= |fields| && Laid(fields, size, n)
    ensures Covered(fields, m, i) <= Range(0, size)
    decreases |fields| - i
  {
    hide *;
    CoveredStep(fields, m, i);
    if i < |fields| {
      LaidAt(fields, size, n, i);
      RangeInside(fields[i].dataOffset, Storage(fields[i]), size);
      CoveredInside(fields, m, i + 1, size, n);
    }
  }

  // Of the members of a oneof only one is written.
  lemma {:induction false} CoveredApart(fields: seq<Field>, m: Msg, i: nat, k: nat)
    requires m.slots.Keys == Offsets(fields) && i < k <= |fields| && Holds(fields, m) && DistinctTags(fields)
    requires forall j | i < j < |fields| :: Apart(fields[i], fields[j])
    requires Written(fields[i], m.slots[fields[i].dataOffset])
    ensures Range(fields[i].dataOffset, Storage(fields[i])) !! Covered(fields, m, k)
    decreases |fields| - k
  {
    hide Storage, HoldsValue, Range;
    if k < |fields| {
      CoveredApart(fields, m, i, k + 1);
      assert Apart(fields[i], fields[k]);
    }
  }

  lemma CoveredGrows(fields: seq<Field>, m: Msg, i: nat)
    requires i < |fields| && Holds(fields, m) && DistinctTags(fields)
    requires forall j | i < j < |fields| :: Apart(fields[i], fields[j])
    ensures |Covered(fields, m, i)|
         == (if Written(fields[i], m.slots[fields[i].dataOffset]) then Storage(fields[i]) else 0)
            + |Covered(fields, m, i + 1)|
  {
    hide HoldsSlot, Written, Storage, Apart;
    if Written(fields[i], m.slots[fields[i].dataOffset]) {
      CoveredApart(fields, m, i, i + 1);
    }
  }

  lemma FitAt(fields: seq<Field>, m: Msg, i: nat)
    requires WellFormed(fields) && Holds(fields, m) && Fit(fields, m) && i <= |fields|
    ensures m.slots.Keys == Offsets(fields) && DistinctTags(fields)
    ensures i < |fields| ==>
      var f := fields[i];
      && f.dataOffset in m.slots && WellFormedField(f) && LType(f.type_) != LTYPE_EXTENSION
      && HoldsSlot(f, m.slots[f.dataOffset]) && FitSlot(f, m.slots[f.dataOffset])
  {
    hide HoldsSlot, FitSlot;
  }

  lemma WireAt(fields: seq<Field>, m: Msg, i: nat)
    requires m.slots.Keys == Offsets(fields) && i <= |fields|
    ensures i == |fields| ==> WireFrom(fields, m, i) == Some([]) && SmallFrom(fields, m, i)
    ensures i < |fields| ==>
      && (WireField(fields[i], m.slots[fields[i].dataOffset]).Some? && WireFrom(fields, m, i + 1).Some? ==>
            && WireFrom(fields, m, i).Some?
            && |WireFrom(fields, m, i).value|
               == |WireField(fields[i], m.slots[fields[i].dataOffset]).value| + |WireFrom(fields, m, i + 1).value|)
      && (SmallFrom(fields, m, i)
          <==> SmallSlot(fields[i], m.slots[fields[i].dataOffset]) && SmallFrom(fields, m, i + 1))
  {
    hide WireField, SmallSlot;
  }

  lemma {:induction false} FieldsBound(fields: seq<Field>, m: Msg, i: nat, size: nat, n: nat)
    requires WellFormed(fields) && Holds(fields, m) && Fit(fields, m) && i <= |fields|
    requires Laid(fields, size, n) && n <= MAX_NESTING
    ensures WireFrom(fields, m, i).Some? && |WireFrom(fields, m, i).value| <= Rate(n) * |Covered(fields, m, i)|
    ensures SmallFrom(fields, m, i)
    decreases fields, 4, |fields| - i
  {
    hide *;
    FitAt(fields, m, i);
    WireAt(fields, m, i);
    if i < |fields| {
      var f, s := fields[i], m.slots[fields[i].dataOffset];
      LaidAt(fields, size, n, i);
      SlotBound(f, s, n);
      FieldsBound(fields, m, i + 1, size, n);
      CoveredGrows(fields, m, i);
      Distributes(Rate(n), if Written(f, s) then Storage(f) else 0, |Covered(fields, m, i + 1)|);
    }
  }

  lemma Distributes(a: nat, b: nat, c: nat)
    ensures a * (b + c) == a * b + a * c
  {
  }

  // The encoding of a structure has at most so many bytes for each byte of it; so no length in it is
  // out of the reader's range.
  lemma {:induction false} MessageBound(fields: seq<Field>, m: Msg, size: nat, n: nat)
    requires WellFormed(fields) && Holds(fields, m) && Fit(fields, m) && Laid(fields, size, n) && n <= MAX_NESTING
    ensures Wire(fields, m).Some? && |Wire(fields, m).value| <= Rate(n) * size
    ensures Small(fields, m)
    decreases fields, 5
  {
    hide WellFormed, HoldsSlot, Fit, WireFrom, Rate, SmallFrom, Covered, Laid;
    FieldsBound(fields, m, 0, size, n);
    CoveredInside(fields, m, 0, size, n);
    Within(Covered(fields, m, 0), Range(0, size), Rate(n));
  }

  lemma Within(a: set<nat>, b: set<nat>, rate: nat)
    requires a <= b
    ensures rate * |a| <= rate * |b|
  {
    assert b == a + (b - a);
    Distributes(rate, |a|, |b - a|);
  }

  // --- The round trip of structures

  // Offsets and sizes have 16 bits in a descriptor.
  const MAX_STRUCTURE: nat := 0x2_0000_0000

  lemma AnySize(fields: seq<Field>, size: nat, n: nat)
    requires WellFormed(fields) && Laid(fields, size, n)
    ensures Laid(fields, MAX_STRUCTURE, n)
  {
    hide LaidField, Apart;
    forall i | 0 <= i < |fields|
      ensures fields[i].dataOffset + Storage(fields[i]) <= MAX_STRUCTURE
    {
      var f := fields[i];
      assert SizedRight(f) && Fits(f);
      MoreElements(f.arraySize, 0x1_0000, f.dataSize, 1);
    }
  }

  // Every message that a structure holds and that fits is encoded and decoded again: no length in it
  // is too long.
  lemma StructureRoundTrip(fields: seq<Field>, m: Msg, size: nat, n: nat)
    requires WellFormed(fields) && Holds(fields, m) && SelectorsKnown(fields, m) && Fit(fields, m)
    requires Laid(fields, size, n) && n <= MAX_NESTING
    ensures |Encoding(fields, m)| <= Rate(n) * size && |Encoding(fields, m)| < TWO_63 && Small(fields, m)
    ensures DecodeMessage(fields, Defaults(fields), false, Encoding(fields, m)) == Got(m, [])
  {
    hide *;
    AnySize(fields, size, n);
    MessageBound(fields, m, size, n);
    MessageBound(fields, m, MAX_STRUCTURE, n);
    HighestRate(n);
    MessageInverts(fields, m);
  }

  lemma HighestRate(n: nat)
    requires n <= MAX_NESTING
    ensures Rate(n) * MAX_STRUCTURE < TWO_63
  {
  }
}
