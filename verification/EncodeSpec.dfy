// The bytes that a message is encoded to, or None where the encoder reports an error that does not
// depend on the stream.
module EncodeSpec {
  import opened Bytes
  import opened Descriptor
  import opened Message
  import opened OutputStream
  import opened InputStream
  import Varint

  function WireTypeOf(f: Field): Option<nat> {
    var t := LType(f.type_);
    if t == LTYPE_BOOL || t == LTYPE_VARINT || t == LTYPE_UVARINT || t == LTYPE_SVARINT then Some(WT_VARINT)
    else if t == LTYPE_FIXED32 then Some(WT_32BIT)
    else if t == LTYPE_FIXED64 then Some(WT_64BIT)
    else if t == LTYPE_BYTES || t == LTYPE_STRING || IsSubmsg(f.type_) || t == LTYPE_FIXED_LENGTH_BYTES then
      Some(WT_STRING)
    else None
  }

  function TagBytes(wireType: nat, tag: nat): seq<byte> {
    Varint.Encode(tag * 8 + wireType)
  }

  // An integer of the message as the 64-bit number that is written.
  function VarintOf(f: Field, n: int): nat
  {
    if LType(f.type_) == LTYPE_SVARINT then (if -TWO_63 <= n < TWO_63 then Varint.ZigZag(n) else 0)
    else n % TWO_64
  }

  function WireVarint(f: Field, v: Value): Option<seq<byte>> {
    if v.Num? && IntegerSize(f.dataSize) then Some(Varint.Encode(VarintOf(f, v.n))) else None
  }

  function WireFixed(f: Field, v: Value): Option<seq<byte>> {
    if !v.Num? || v.n < 0 then None
    else if f.dataSize == 4 then Some(LittleEndian(v.n, 4))
    else if f.dataSize == 8 then Some(LittleEndian(v.n, 8))
    else None
  }

  function WithPrefix(data: seq<byte>): seq<byte> {
    SizePrefix(|data|) + data
  }

  // The contents of one element behind its tag.
  function WireValue(f: Field, v: Value): Option<seq<byte>>
    decreases f, 0
  {
    var t := LType(f.type_);
    if t == LTYPE_BOOL then
      if v.Num? then Some(Varint.Encode(if v.n != 0 then 1 else 0)) else None
    else if t == LTYPE_VARINT || t == LTYPE_UVARINT || t == LTYPE_SVARINT then WireVarint(f, v)
    else if t == LTYPE_FIXED32 || t == LTYPE_FIXED64 then WireFixed(f, v)
    else if t == LTYPE_BYTES then
      if v.Blob? && |v.data| + 2 <= f.dataSize then Some(WithPrefix(v.data)) else None
    else if t == LTYPE_STRING then
      if v.Text? && |v.chars| < f.dataSize then Some(WithPrefix(v.chars)) else None
    else if IsSubmsg(f.type_) then
      if v.Sub? then
        match Wire(f.sub, v.m)
        case None => None
        case Some(w) => Some(WithPrefix(w))
      else None
    else if t == LTYPE_FIXED_LENGTH_BYTES then
      if v.Inline? then Some(WithPrefix(v.data)) else None
    else None
  }

  function WireBasic(f: Field, v: Value): Option<seq<byte>>
    decreases f, 1
  {
    match WireTypeOf(f)
    case None => None
    case Some(wt) => Cat(Some(TagBytes(wt, f.tag)), WireValue(f, v))
  }

  // One element of a packed array; bools take the path of the signed integers.
  function WirePacked(f: Field, v: Value): Option<seq<byte>> {
    if LType(f.type_) == LTYPE_FIXED32 || LType(f.type_) == LTYPE_FIXED64 then WireFixed(f, v) else WireVarint(f, v)
  }

  function WirePackedAll(f: Field, vs: seq<Value>): Option<seq<byte>> {
    if vs == [] then Some([]) else Cat(WirePacked(f, vs[0]), WirePackedAll(f, vs[1..]))
  }

  function WireUnpacked(f: Field, vs: seq<Value>): Option<seq<byte>>
    decreases f, 2, |vs|
  {
    if vs == [] then Some([]) else Cat(WireBasic(f, vs[0]), WireUnpacked(f, vs[1..]))
  }

  function WireArray(f: Field, vs: seq<Value>): Option<seq<byte>>
    decreases f, 3
  {
    if vs == [] then Some([])
    else if |vs| > f.arraySize then None
    else if IsPackable(f) then
      match WirePackedAll(f, vs)
      case None => None
      case Some(data) => Some(TagBytes(WT_STRING, f.tag) + WithPrefix(data))
    else WireUnpacked(f, vs)
  }

  // The zero test for a field of a proto3 message.
  predicate IsDefault(f: Field, s: Slot)
    decreases f, 1
  {
    if HType(f.type_) == HTYPE_REQUIRED then false
    else if HType(f.type_) == HTYPE_REPEATED then s.Many? && s.vs == []
    else if HType(f.type_) == HTYPE_ONEOF then s.Union? && s.u.None?
    else if HasFlag(f) then s.Opt? && s.o.None?
    else s.One? && IsZero(f, s.v)
  }

  predicate IsZero(f: Field, v: Value)
    decreases f, 0
  {
    var t := LType(f.type_);
    if t == LTYPE_BYTES then v.Blob? && v.data == []
    else if t == LTYPE_STRING then v.Text? && v.chars == []
    else if t == LTYPE_FIXED_LENGTH_BYTES then f.dataSize == 0
    else if IsSubmsg(f.type_) then v.Sub? && AllDefault(f.sub, v.m)
    else v.Num? && v.n == 0
  }

  predicate AllDefault(fields: seq<Field>, m: Msg)
    decreases fields
  {
    forall i | 0 <= i < |fields| ::
      fields[i].dataOffset in m.slots && IsDefault(fields[i], m.slots[fields[i].dataOffset])
  }

  function WireField(f: Field, s: Slot): Option<seq<byte>>
    decreases f, 4
  {
    if HType(f.type_) == HTYPE_REPEATED then
      if s.Many? then WireArray(f, s.vs) else None
    else if HType(f.type_) == HTYPE_ONEOF then
      if !s.Union? then None
      else if s.u.None? || s.u.value.tag != f.tag then Some([])
      else WireBasic(f, s.u.value.v)
    else if HasFlag(f) then
      if !s.Opt? then None
      else if s.o.None? then Some([])
      else WireBasic(f, s.o.value)
    else if !s.One? then None
    else if IsSingular(f) && IsZero(f, s.v) then Some([])
    else WireBasic(f, s.v)
  }

  function WireFrom(fields: seq<Field>, m: Msg, i: nat): Option<seq<byte>>
    requires i <= |fields|
    decreases fields, |fields| - i
  {
    if i == |fields| then Some([])
    else if fields[i].dataOffset !in m.slots then None
    else Cat(WireField(fields[i], m.slots[fields[i].dataOffset]), WireFrom(fields, m, i + 1))
  }

  function Wire(fields: seq<Field>, m: Msg): Option<seq<byte>>
    decreases fields, |fields| + 1
  {
    WireFrom(fields, m, 0)
  }

  // What the zero test accepts is what leaves nothing on the wire; of a oneof the other members do so
  // as well.
  lemma DefaultIsSilent(f: Field, s: Slot)
    ensures HType(f.type_) != HTYPE_ONEOF ==> (IsDefault(f, s) <==> WireField(f, s) == Some([]))
    ensures HType(f.type_) == HTYPE_ONEOF ==>
      (WireField(f, s) == Some([]) <==> IsDefault(f, s) || (s.Union? && s.u.value.tag != f.tag))
  {
    hide IsZero, WireBasic, WirePackedAll, WireUnpacked, TagBytes;
    match s
    case One(v) => RecordNotEmpty(f, v);
    case Opt(o) =>
      if o.Some? {
        RecordNotEmpty(f, o.value);
      }
    case Union(u) =>
      if u.Some? {
        RecordNotEmpty(f, u.value.v);
      }
    case Many(vs) =>
      if vs != [] {
        ArrayNotEmpty(f, vs);
      }
  }

  lemma RecordNotEmpty(f: Field, v: Value)
    ensures WireBasic(f, v) != Some([])
  {
    hide WireValue, WireTypeOf;
  }

  lemma ArrayNotEmpty(f: Field, vs: seq<Value>)
    requires vs != []
    ensures WireArray(f, vs) != Some([])
  {
    hide WireBasic, WirePackedAll, WithPrefix;
    RecordNotEmpty(f, vs[0]);
  }
}
