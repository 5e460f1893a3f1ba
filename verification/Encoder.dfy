// The encoder: it walks the packed descriptor with the field iterator and writes to a stream.
// Every method is tied to the bytes that EncodeSpec assigns to what it encodes; a field's storage,
// which the iterator's data pointer names, is passed as a value.
module Encoder {
  import opened Bytes
  import opened Descriptor
  import opened Message
  import opened OutputStream
  import opened InputStream
  import opened EncodeSpec
  import Varint

  ghost predicate Describes(desc: MsgDesc, fields: seq<Field>) {
    Supported(fields) && AllFit(fields) && desc == Bind(fields)
  }

  ghost predicate SupportedField(f: Field) {
    && AType(f.type_) == ATYPE_STATIC
    && LType(f.type_) != LTYPE_SUBMSG_W_CB && LType(f.type_) != LTYPE_EXTENSION
    && (LType(f.type_) == LTYPE_FIXED32 ==> f.dataSize == 4)
    && (LType(f.type_) == LTYPE_FIXED64 ==> f.dataSize == 8)
    && (HType(f.type_) == HTYPE_ONEOF ==> f.sizeOffset != 0)
    && Supported(f.sub) && AllFit(f.sub)
  }

  method EncodeTag(stream: OStream, wireType: nat, fieldNumber: nat) returns (ok: bool)
    requires stream.Valid() && wireType < 8 && fieldNumber < 0x1_0000
    modifies stream, stream.buf
    ensures stream.Valid() && After(old(stream.State()), ok, Some(TagBytes(wireType, fieldNumber)), stream.State())
  {
    ok := stream.EncodeVarint(fieldNumber * 8 + wireType);
  }

  function WireTag(f: Field): Option<seq<byte>> {
    match WireTypeOf(f)
    case None => None
    case Some(wt) => Some(TagBytes(wt, f.tag))
  }

  method EncodeTagForField(stream: OStream, field: FieldIter, ghost f: Field) returns (ok: bool)
    requires stream.Valid() && field.At(f)
    modifies stream, stream.buf
    ensures stream.Valid() && After(old(stream.State()), ok, WireTag(f), stream.State())
  {
    var t := LType(field.type_);
    var wireType: nat;
    if t == LTYPE_BOOL || t == LTYPE_VARINT || t == LTYPE_UVARINT || t == LTYPE_SVARINT {
      wireType := WT_VARINT;
    } else if t == LTYPE_FIXED32 {
      wireType := WT_32BIT;
    } else if t == LTYPE_FIXED64 {
      wireType := WT_64BIT;
    } else if t == LTYPE_BYTES || t == LTYPE_STRING || IsSubmsg(field.type_) || t == LTYPE_FIXED_LENGTH_BYTES {
      wireType := WT_STRING;
    } else {
      return false;
    }
    ok := EncodeTag(stream, wireType, field.tag);
  }

  method EncBool(stream: OStream, field: FieldIter, ghost f: Field, v: Value) returns (ok: bool)
    requires stream.Valid() && field.At(f) && LType(f.type_) == LTYPE_BOOL && HoldsValue(f, v)
    modifies stream, stream.buf
    ensures stream.Valid() && After(old(stream.State()), ok, WireValue(f, v), stream.State())
  {
    ok := stream.EncodeVarint(if v.n != 0 then 1 else 0);
  }

  // Integers of every width, and the bools of a packed array.
  method EncVarint(stream: OStream, field: FieldIter, ghost f: Field, v: Value) returns (ok: bool)
    requires stream.Valid() && field.At(f) && HoldsValue(f, v)
    requires IsPackable(f) && LType(f.type_) != LTYPE_FIXED32 && LType(f.type_) != LTYPE_FIXED64
    modifies stream, stream.buf
    ensures stream.Valid() && After(old(stream.State()), ok, WireVarint(f, v), stream.State())
  {
    hide Varint.Encode, After, Varint.ZigZag, FieldIter.At;
    field.Shows(f);
    FailsForNone(stream.State());
    if LType(field.type_) == LTYPE_UVARINT {
      var value: uint64;
      if field.dataSize == 1 || field.dataSize == 2 || field.dataSize == 4 || field.dataSize == 8 {
        value := v.n;
      } else {
        return false;
      }
      ok := stream.EncodeVarint(value);
    } else {
      var value: int64;
      if field.dataSize == 1 || field.dataSize == 2 || field.dataSize == 4 || field.dataSize == 8 {
        value := v.n;
      } else {
        return false;
      }
      if LType(field.type_) == LTYPE_SVARINT {
        ok := stream.EncodeSVarint(value);
      } else {
        ok := stream.EncodeVarint(value % TWO_64);
      }
    }
  }

  method EncFixed(stream: OStream, field: FieldIter, ghost f: Field, v: Value) returns (ok: bool)
    requires stream.Valid() && field.At(f) && HoldsValue(f, v)
    requires LType(f.type_) == LTYPE_FIXED32 || LType(f.type_) == LTYPE_FIXED64
    modifies stream, stream.buf
    ensures stream.Valid() && After(old(stream.State()), ok, WireFixed(f, v), stream.State())
  {
    if field.dataSize == 4 {
      ok := stream.EncodeFixed32(v.n);
    } else if field.dataSize == 8 {
      ok := stream.EncodeFixed64(v.n);
    } else {
      ok := false;
    }
  }

  method EncBytes(stream: OStream, field: FieldIter, ghost f: Field, v: Value) returns (ok: bool)
    requires stream.Valid() && field.At(f) && LType(f.type_) == LTYPE_BYTES && HoldsValue(f, v)
    modifies stream, stream.buf
    ensures stream.Valid() && After(old(stream.State()), ok, WireValue(f, v), stream.State())
  {
    if |v.data| + 2 > field.dataSize {
      return false;
    }
    ok := stream.EncodeString(v.data);
  }

  // The character at index p of a string's storage; its terminator is the first zero.
  function CharAt(chars: seq<byte>, p: nat): byte {
    if p < |chars| then chars[p] else 0
  }

  method EncString(stream: OStream, field: FieldIter, ghost f: Field, v: Value) returns (ok: bool)
    requires stream.Valid() && field.At(f) && LType(f.type_) == LTYPE_STRING && HoldsValue(f, v)
    modifies stream, stream.buf
    ensures stream.Valid() && After(old(stream.State()), ok, WireValue(f, v), stream.State())
  {
    var maxSize := field.dataSize;
    if maxSize == 0 {
      return false;
    }
    maxSize := maxSize - 1;
    var size := 0;
    while size < maxSize && CharAt(v.chars, size) != 0
      invariant size <= maxSize && size <= |v.chars|
    {
      size := size + 1;
    }
    if CharAt(v.chars, size) != 0 {
      return false;
    }
    assert size == |v.chars|;
    assert v.chars[..size] == v.chars;
    ok := stream.EncodeString(v.chars[..size]);
  }

  method EncFixedLengthBytes(stream: OStream, field: FieldIter, ghost f: Field, v: Value) returns (ok: bool)
    requires stream.Valid() && field.At(f) && LType(f.type_) == LTYPE_FIXED_LENGTH_BYTES && HoldsValue(f, v)
    modifies stream, stream.buf
    ensures stream.Valid() && After(old(stream.State()), ok, WireValue(f, v), stream.State())
  {
    assert v.data[..field.dataSize] == v.data;
    ok := stream.EncodeString(v.data[..field.dataSize]);
  }

  function WireSubmessage(fields: seq<Field>, m: Msg): Option<seq<byte>> {
    match Wire(fields, m)
    case None => None
    case Some(w) => Some(WithPrefix(w))
  }

  // Two passes: the first one only counts, the second one writes behind the length. The second
  // pass always writes what the first one counted, so the size comparison at the end never fails.
  method EncodeSubmessage(stream: OStream, desc: MsgDesc, ghost fields: seq<Field>, m: Msg) returns (ok: bool)
    requires stream.Valid() && Describes(desc, fields) && Holds(fields, m)
    modifies stream, stream.buf
    ensures stream.Valid() && After(old(stream.State()), ok, WireSubmessage(fields, m), stream.State())
    decreases fields, 6
  {
    hide Wire, WireSubmessage, SizePrefix, After, Holds, Describes, Varint.Encode;
    ghost var s0 := stream.State();
    SubmessageWire(fields, m);
    var sizer := new OStream.Sizer();
    var counted := Encode(sizer, desc, fields, m);
    Counted(counted, Wire(fields, m), sizer.State());
    if !counted {
      FailsForNone(s0);
      return false;
    }
    var size := sizer.bytesWritten;
    ghost var w := Wire(fields, m).value;
    ok := stream.EncodeSize(size);
    ghost var s1 := stream.State();
    if !ok {
      AfterFailure(s0, Some(SizePrefix(size)), s1, Some(w));
      return;
    }
    if stream.sizing {
      stream.WriteCount(size);
      CountedToo(s1, w, stream.State());
      AfterBoth(s0, Some(SizePrefix(size)), s1, true, Some(w), stream.State());
      return true;
    }
    if stream.bytesWritten + size > stream.maxSize {
      NoRoom(s1, w);
      AfterBoth(s0, Some(SizePrefix(size)), s1, false, Some(w), s1);
      return false;
    }
    var sub := new OStream.FromBuffer(stream.buf, stream.pos, size);
    ghost var t0 := sub.State();
    var status := Encode(sub, desc, fields, m);
    SecondPass(t0, status, w, sub.State());
    stream.bytesWritten := stream.bytesWritten + sub.bytesWritten;
    stream.pos := sub.pos;
    assert sub.bytesWritten == size;
    ok := status && sub.bytesWritten == size;
    InParent(s1, t0, w, sub.State(), stream.State());
    AfterBoth(s0, Some(SizePrefix(size)), s1, true, Some(w), stream.State());
  }

  lemma SubmessageWire(fields: seq<Field>, m: Msg)
    ensures WireSubmessage(fields, m)
         == if Wire(fields, m).None? then None
            else Some(SizePrefix(|Wire(fields, m).value|) + Wire(fields, m).value)
  {
    hide Wire;
  }

  // Consequences of After for the two passes.
  lemma Counted(ok: bool, w: Option<seq<byte>>, t: Sink)
    requires After(Sizing(0), ok, w, t)
    ensures ok == w.Some? && t.Sizing? && (ok ==> t.written == |w.value|)
  {
  }

  lemma FailsForNone(s: Sink)
    ensures After(s, false, None, s)
  {
  }

  lemma CountedToo(s: Sink, w: seq<byte>, t: Sink)
    requires s.Sizing? && t == Sizing(s.written + |w|)
    ensures After(s, true, Some(w), t)
  {
  }

  lemma NoRoom(s: Sink, w: seq<byte>)
    requires s.Writing? && |s.out| - s.start + |w| > s.maxSize
    ensures After(s, false, Some(w), s)
  {
  }

  lemma SecondPass(t0: Sink, status: bool, w: seq<byte>, t1: Sink)
    requires t0.Writing? && |t0.out| == t0.start && t0.maxSize == |w| && After(t0, status, Some(w), t1)
    ensures status && t1 == Writing(t0.start, |w|, t0.out + w)
  {
  }

  lemma InParent(s1: Sink, t0: Sink, w: seq<byte>, t1: Sink, s2: Sink)
    requires s1.Writing? && |s1.out| - s1.start + |w| <= s1.maxSize
    requires s2 == Writing(s1.start, s1.maxSize, s1.out + w)
    ensures After(s1, true, Some(w), s2)
  {
  }

  method EncodeBasicField(stream: OStream, field: FieldIter, ghost f: Field, v: Value) returns (ok: bool)
    requires stream.Valid() && field.At(f) && SupportedField(f) && HoldsValue(f, v)
    modifies stream, stream.buf
    ensures stream.Valid() && After(old(stream.State()), ok, WireBasic(f, v), stream.State())
    decreases f, 1
  {
    hide After, TagBytes, Supported, Varint.Encode, Wire;
    ghost var s0 := stream.State();
    ok := EncodeTagForField(stream, field, f);
    ghost var s1 := stream.State();
    WireBasicParts(f, v);
    if !ok {
      AfterFailure(s0, WireTag(f), s1, WireValue(f, v));
      return;
    }
    var t := LType(field.type_);
    if t == LTYPE_BOOL {
      ok := EncBool(stream, field, f, v);
    } else if t == LTYPE_VARINT || t == LTYPE_UVARINT || t == LTYPE_SVARINT {
      ok := EncVarint(stream, field, f, v);
    } else if t == LTYPE_FIXED32 || t == LTYPE_FIXED64 {
      ok := EncFixed(stream, field, f, v);
    } else if t == LTYPE_BYTES {
      ok := EncBytes(stream, field, f, v);
    } else if t == LTYPE_STRING {
      ok := EncString(stream, field, f, v);
    } else if t == LTYPE_SUBMESSAGE || t == LTYPE_SUBMSG_W_CB {
      ok := EncodeSubmessage(stream, field.submsgDesc.value, f.sub, v.m);
    } else if t == LTYPE_FIXED_LENGTH_BYTES {
      ok := EncFixedLengthBytes(stream, field, f, v);
    } else {
      FailsForNone(s1);
      ok := false;
    }
    AfterBoth(s0, WireTag(f), s1, ok, WireValue(f, v), stream.State());
  }

  lemma WireBasicParts(f: Field, v: Value)
    ensures WireBasic(f, v) == Cat(WireTag(f), WireValue(f, v))
  {
  }

  // --- Arrays

  ghost predicate HoldsAll(f: Field, vs: seq<Value>) {
    forall i | 0 <= i < |vs| :: HoldsValue(f, vs[i])
  }

  // The elements of a packed array, one behind the other.
  method EncodePackedData(stream: OStream, field: FieldIter, ghost f: Field, vs: seq<Value>) returns (ok: bool)
    requires stream.Valid() && field.At(f) && IsPackable(f) && HoldsAll(f, vs)
    modifies stream, stream.buf
    ensures stream.Valid() && After(old(stream.State()), ok, WirePackedAll(f, vs), stream.State())
  {
    hide After, WirePackedAll;
    ghost var s0 := stream.State();
    ghost var done: seq<byte> := [];
    AfterNothing(s0);
    PackedRest(f, vs, 0);
    var i := 0;
    while i < |vs|
      invariant 0 <= i <= |vs| && stream.Valid()
      invariant After(s0, true, Some(done), stream.State())
      invariant WirePackedAll(f, vs) == Cat(Some(done), WirePackedAll(f, vs[i..]))
    {
      ghost var t := stream.State();
      PackedRest(f, vs, i);
      if LType(field.type_) == LTYPE_FIXED32 || LType(field.type_) == LTYPE_FIXED64 {
        ok := EncFixed(stream, field, f, vs[i]);
      } else {
        ok := EncVarint(stream, field, f, vs[i]);
      }
      AfterStep(s0, done, t, ok, WirePacked(f, vs[i]), stream.State(), WirePackedAll(f, vs[i + 1..]));
      if !ok {
        return;
      }
      done := done + WirePacked(f, vs[i]).value;
      i := i + 1;
    }
    PackedRest(f, vs, i);
    assert done + [] == done;
    ok := true;
  }

  lemma PackedRest(f: Field, vs: seq<Value>, i: nat)
    requires i <= |vs|
    ensures i == 0 ==> WirePackedAll(f, vs) == Cat(Some([]), WirePackedAll(f, vs[i..]))
    ensures i < |vs| ==> WirePackedAll(f, vs[i..]) == Cat(WirePacked(f, vs[i]), WirePackedAll(f, vs[i + 1..]))
    ensures i == |vs| ==> WirePackedAll(f, vs[i..]) == Some([])
  {
    if i == 0 {
      assert vs[0..] == vs;
      var w := WirePackedAll(f, vs);
      assert w.Some? ==> [] + w.value == w.value;
    }
    if i < |vs| {
      assert vs[i..][1..] == vs[i + 1..];
    }
  }

  lemma {:induction false} PackedFixedSize(f: Field, vs: seq<Value>)
    requires
      || (LType(f.type_) == LTYPE_FIXED32 && f.dataSize == 4)
      || (LType(f.type_) == LTYPE_FIXED64 && f.dataSize == 8)
    requires HoldsAll(f, vs)
    ensures WirePackedAll(f, vs).Some? && |WirePackedAll(f, vs).value| == f.dataSize * |vs|
  {
    if vs != [] {
      assert HoldsValue(f, vs[0]);
      assert HoldsAll(f, vs[1..]);
      PackedFixedSize(f, vs[1..]);
    }
  }

  method EncodeUnpacked(stream: OStream, field: FieldIter, ghost f: Field, vs: seq<Value>) returns (ok: bool)
    requires stream.Valid() && field.At(f) && SupportedField(f) && HoldsAll(f, vs)
    modifies stream, stream.buf
    ensures stream.Valid() && After(old(stream.State()), ok, WireUnpacked(f, vs), stream.State())
    decreases f, 2
  {
    hide After, WireUnpacked, WireBasic;
    ghost var s0 := stream.State();
    ghost var done: seq<byte> := [];
    AfterNothing(s0);
    UnpackedRest(f, vs, 0);
    var i := 0;
    while i < |vs|
      invariant 0 <= i <= |vs| && stream.Valid()
      invariant After(s0, true, Some(done), stream.State())
      invariant WireUnpacked(f, vs) == Cat(Some(done), WireUnpacked(f, vs[i..]))
    {
      ghost var t := stream.State();
      UnpackedRest(f, vs, i);
      ok := EncodeBasicField(stream, field, f, vs[i]);
      AfterStep(s0, done, t, ok, WireBasic(f, vs[i]), stream.State(), WireUnpacked(f, vs[i + 1..]));
      if !ok {
        return;
      }
      done := done + WireBasic(f, vs[i]).value;
      i := i + 1;
    }
    UnpackedRest(f, vs, i);
    assert done + [] == done;
    ok := true;
  }

  lemma UnpackedRest(f: Field, vs: seq<Value>, i: nat)
    requires i <= |vs|
    ensures i == 0 ==> WireUnpacked(f, vs) == Cat(Some([]), WireUnpacked(f, vs[i..]))
    ensures i < |vs| ==> WireUnpacked(f, vs[i..]) == Cat(WireBasic(f, vs[i]), WireUnpacked(f, vs[i + 1..]))
    ensures i == |vs| ==> WireUnpacked(f, vs[i..]) == Some([])
  {
    if i == 0 {
      assert vs[0..] == vs;
      var w := WireUnpacked(f, vs);
      assert w.Some? ==> [] + w.value == w.value;
    }
    if i < |vs| {
      assert vs[i..][1..] == vs[i + 1..];
    }
  }

  method EncodeArray(stream: OStream, field: FieldIter, ghost f: Field, vs: seq<Value>) returns (ok: bool)
    requires stream.Valid() && field.At(f) && SupportedField(f) && HoldsAll(f, vs)
    requires IsFixedCount(f) ==> |vs| == f.arraySize
    modifies stream, stream.buf
    ensures stream.Valid() && After(old(stream.State()), ok, WireArray(f, vs), stream.State())
    decreases f, 3
  {
    hide After, TagBytes, Supported, WirePackedAll, WireUnpacked, Varint.Encode;
    ghost var s0 := stream.State();
    var count := if field.IsFixedCount() then field.arraySize else |vs|;
    if count == 0 {
      AfterNothing(s0);
      return true;
    }
    if count > field.arraySize {
      FailsForNone(s0);
      return false;
    }
    if LType(field.type_) <= LTYPE_LAST_PACKABLE {
      ok := EncodePacked(stream, field, f, vs);
    } else {
      ok := EncodeUnpacked(stream, field, f, vs);
    }
  }

  function WirePackedArray(f: Field, vs: seq<Value>): Option<seq<byte>> {
    match WirePackedAll(f, vs)
    case None => None
    case Some(data) => Some(TagBytes(WT_STRING, f.tag) + WithPrefix(data))
  }

  // The length of a packed array: computed from the count, or by a counting pass.
  method PackedSize(field: FieldIter, ghost f: Field, vs: seq<Value>) returns (ok: bool, size: nat)
    requires field.At(f) && SupportedField(f) && HoldsAll(f, vs) && IsPackable(f)
    ensures ok == WirePackedAll(f, vs).Some?
    ensures ok ==> size == |WirePackedAll(f, vs).value|
  {
    hide After, WirePackedAll, FieldIter.At;
    field.Shows(f);
    if LType(field.type_) == LTYPE_FIXED32 {
      PackedFixedSize(f, vs);
      return true, 4 * |vs|;
    } else if LType(field.type_) == LTYPE_FIXED64 {
      PackedFixedSize(f, vs);
      return true, 8 * |vs|;
    }
    var sizer := new OStream.Sizer();
    ok := EncodePackedData(sizer, field, f, vs);
    Counted(ok, WirePackedAll(f, vs), sizer.State());
    size := sizer.bytesWritten;
  }

  method EncodePacked(stream: OStream, field: FieldIter, ghost f: Field, vs: seq<Value>) returns (ok: bool)
    requires stream.Valid() && field.At(f) && SupportedField(f) && HoldsAll(f, vs) && IsPackable(f) && vs != []
    modifies stream, stream.buf
    ensures stream.Valid() && After(old(stream.State()), ok, WirePackedArray(f, vs), stream.State())
  {
    TagFits(f);
    hide After, TagBytes, Supported, SupportedField, WirePackedAll, Varint.Encode, Fits, FieldIter.At;
    field.Shows(f);
    ghost var s0, data := stream.State(), WirePackedAll(f, vs);
    ghost var tagBytes := TagBytes(WT_STRING, f.tag);
    ok := EncodeTag(stream, WT_STRING, field.tag);
    ghost var s1 := stream.State();
    if !ok {
      PackedTagFails(s0, f, vs, s1);
      return;
    }
    var counted, size := PackedSize(field, f, vs);
    if !counted {
      FailsAfter(s0, Some(tagBytes), s1);
      return false;
    }
    PackedParts(f, vs);
    ok := stream.EncodeSize(size);
    ghost var s2 := stream.State();
    AfterStep(s0, tagBytes, s1, ok, Some(SizePrefix(size)), s2, data);
    if !ok {
      return;
    }
    if stream.sizing {
      stream.WriteCount(size);
      CountedToo(s2, data.value, stream.State());
      AfterBoth(s0, Some(tagBytes + SizePrefix(size)), s2, true, data, stream.State());
      return;
    }
    ok := EncodePackedData(stream, field, f, vs);
    AfterBoth(s0, Some(tagBytes + SizePrefix(size)), s2, ok, data, stream.State());
  }

  lemma TagFits(f: Field)
    requires Fits(f)
    ensures f.tag < 0x1_0000
  {
  }

  lemma FailsAfter(s: Sink, a: Option<seq<byte>>, t: Sink)
    requires After(s, true, a, t)
    ensures After(s, false, None, t)
  {
  }

  lemma PackedTagFails(s: Sink, f: Field, vs: seq<Value>, t: Sink)
    requires After(s, false, Some(TagBytes(WT_STRING, f.tag)), t)
    ensures After(s, false, WirePackedArray(f, vs), t)
  {
  }

  lemma PackedParts(f: Field, vs: seq<Value>)
    requires WirePackedAll(f, vs).Some?
    ensures var data := WirePackedAll(f, vs).value;
      && WirePackedArray(f, vs) == Cat(Some(TagBytes(WT_STRING, f.tag)), Cat(Some(SizePrefix(|data|)), Some(data)))
      && WirePackedArray(f, vs) == Cat(Some(TagBytes(WT_STRING, f.tag) + SizePrefix(|data|)), Some(data))
  {
    var data, tag := WirePackedAll(f, vs).value, TagBytes(WT_STRING, f.tag);
    assert tag + (SizePrefix(|data|) + data) == tag + SizePrefix(|data|) + data;
  }

  // --- Fields and messages

  // Whether a field of a proto3 message would be left out; submessages are searched field by field.
  method CheckProto3Default(field: FieldIter, ghost f: Field, s: Slot) returns (default_: bool)
    requires field.At(f) && SupportedField(f) && HoldsSlot(f, s)
    ensures default_ == IsDefault(f, s)
    decreases f
  {
    var t := LType(field.type_);
    if HType(field.type_) == HTYPE_REQUIRED {
      return false;
    } else if HType(field.type_) == HTYPE_REPEATED {
      return s.vs == [];
    } else if HType(field.type_) == HTYPE_ONEOF {
      return s.u.None?;
    } else if field.sizeOffset != 0 {
      return s.o.None?;
    }
    if t == LTYPE_BYTES {
      return s.v.data == [];
    } else if t == LTYPE_STRING {
      return CharAt(s.v.chars, 0) == 0;
    } else if t == LTYPE_FIXED_LENGTH_BYTES {
      return field.dataSize == 0;
    } else if t == LTYPE_SUBMESSAGE || t == LTYPE_SUBMSG_W_CB {
      default_ := CheckSubmessageDefault(field.submsgDesc.value, f.sub, s.v.m);
      return;
    }
    default_ := s.v.Num? && s.v.n == 0;
  }

  method CheckSubmessageDefault(desc: MsgDesc, ghost fields: seq<Field>, m: Msg) returns (default_: bool)
    requires Describes(desc, fields) && Holds(fields, m)
    ensures default_ == AllDefault(fields, m)
    decreases fields
  {
    hide IsDefault, HoldsSlot, Words, Submessages, WordsBefore, SubmsgBefore, RequiredBefore, AllFit, Supported,
         Exact, Fits;
    var iter := new FieldIter.Begin(desc, fields);
    if desc.fieldCount == 0 {
      return true;
    }
    while true
      invariant iter.Valid() && iter.descriptor == desc && iter.fields == fields
      invariant forall j | 0 <= j < iter.index :: IsDefault(fields[j], m.slots[fields[j].dataOffset])
      modifies iter
      decreases |fields| - iter.index
    {
      ghost var f := fields[iter.index];
      IterAt(iter, fields);
      var field := CheckProto3Default(iter, f, m.slots[iter.dataOffset]);
      if !field {
        return false;
      }
      ghost var i := iter.index;
      var more := iter.Next();
      if !more {
        assert i == |fields| - 1;
        break;
      }
    }
    default_ := true;
  }

  lemma IterAt(iter: FieldIter, fields: seq<Field>)
    requires iter.Valid() && iter.fields == fields && fields != [] && Supported(fields)
    ensures iter.index < |fields| && iter.At(fields[iter.index]) && SupportedField(fields[iter.index])
  {
  }

  method EncodeField(stream: OStream, field: FieldIter, ghost f: Field, s: Slot) returns (ok: bool)
    requires stream.Valid() && field.At(f) && SupportedField(f) && HoldsSlot(f, s)
    modifies stream, stream.buf
    ensures stream.Valid() && After(old(stream.State()), ok, WireField(f, s), stream.State())
    decreases f, 4
  {
    hide After, HoldsValue, WireBasic, WireArray, Supported;
    AfterNothing(stream.State());
    if HType(field.type_) == HTYPE_ONEOF {
      if s.u.None? || s.u.value.tag != field.tag {
        return true;
      }
      ok := EncodeBasicField(stream, field, f, s.u.value.v);
    } else if HType(field.type_) == HTYPE_OPTIONAL {
      if field.sizeOffset != 0 {
        if s.o.None? {
          return true;
        }
        ok := EncodeBasicField(stream, field, f, s.o.value);
      } else {
        var default_ := CheckProto3Default(field, f, s);
        if default_ {
          return true;
        }
        ok := EncodeBasicField(stream, field, f, s.v);
      }
    } else if HType(field.type_) == HTYPE_REPEATED {
      ok := EncodeArray(stream, field, f, s.vs);
    } else {
      ok := EncodeBasicField(stream, field, f, s.v);
    }
  }

  // Writes exactly Wire(fields, m), or fails: when a field cannot be encoded, or when the stream
  // has no room for all of it.
  method Encode(stream: OStream, desc: MsgDesc, ghost fields: seq<Field>, m: Msg) returns (ok: bool)
    requires stream.Valid() && Describes(desc, fields) && Holds(fields, m)
    modifies stream, stream.buf
    ensures stream.Valid() && After(old(stream.State()), ok, Wire(fields, m), stream.State())
    decreases fields, 5
  {
    hide After, HoldsSlot, WireField, WireFrom, Cat, Words, Submessages, WordsBefore, SubmsgBefore, RequiredBefore,
         AllFit, Supported, Exact, Fits;
    ghost var s0 := stream.State();
    ghost var done: seq<byte> := [];
    AfterNothing(s0);
    WireRest(fields, m, 0);
    WireDone(done);
    var iter := new FieldIter.Begin(desc, fields);
    if desc.fieldCount == 0 {
      return true;
    }
    while true
      invariant iter.Valid() && iter.descriptor == desc && iter.fields == fields && fresh(iter)
      invariant stream.Valid() && After(s0, true, Some(done), stream.State())
      invariant Wire(fields, m) == Cat(Some(done), WireFrom(fields, m, iter.index))
      modifies iter, stream, stream.buf
      decreases |fields| - iter.index
    {
      ghost var i, t := iter.index, stream.State();
      ghost var f := fields[i];
      IterAt(iter, fields);
      WireRest(fields, m, i);
      var s := m.slots[iter.dataOffset];
      ok := EncodeField(stream, iter, f, s);
      AfterStep(s0, done, t, ok, WireField(f, s), stream.State(), WireFrom(fields, m, i + 1));
      if !ok {
        return;
      }
      done := done + WireField(f, s).value;
      var more := iter.Next();
      if !more {
        WireRest(fields, m, i + 1);
        WireDone(done);
        break;
      }
    }
    ok := true;
  }

  lemma WireDone(done: seq<byte>)
    ensures Cat(Some(done), Some([])) == Some(done)
  {
    assert done + [] == done;
  }

  lemma WireRest(fields: seq<Field>, m: Msg, i: nat)
    requires i <= |fields| && m.slots.Keys == Offsets(fields)
    ensures i == 0 ==> Wire(fields, m) == Cat(Some([]), WireFrom(fields, m, i))
    ensures i < |fields| ==>
      WireFrom(fields, m, i) == Cat(WireField(fields[i], m.slots[fields[i].dataOffset]), WireFrom(fields, m, i + 1))
    ensures i == |fields| ==> WireFrom(fields, m, i) == Some([])
  {
    var w := WireFrom(fields, m, i);
    assert w.Some? ==> [] + w.value == w.value;
  }

  method GetEncodedSize(desc: MsgDesc, ghost fields: seq<Field>, m: Msg) returns (ok: bool, size: nat)
    requires Describes(desc, fields) && Holds(fields, m)
    ensures ok <==> Wire(fields, m).Some?
    ensures ok ==> size == |Wire(fields, m).value|
  {
    hide Wire, Describes, Holds;
    var stream := new OStream.Sizer();
    ok := Encode(stream, desc, fields, m);
    size := stream.bytesWritten;
  }

  datatype Framing = Plain | Delimited | NullTerminated

  function WireEx(fields: seq<Field>, m: Msg, framing: Framing): Option<seq<byte>> {
    match framing
    case Plain => Wire(fields, m)
    case Delimited => WireSubmessage(fields, m)
    case NullTerminated => Cat(Wire(fields, m), Some([0]))
  }

  method EncodeEx(stream: OStream, desc: MsgDesc, ghost fields: seq<Field>, m: Msg, framing: Framing)
    returns (ok: bool)
    requires stream.Valid() && Describes(desc, fields) && Holds(fields, m)
    modifies stream, stream.buf
    ensures stream.Valid() && After(old(stream.State()), ok, WireEx(fields, m, framing), stream.State())
  {
    hide After, Wire, Describes, Holds;
    match framing
    case Delimited =>
      ok := EncodeSubmessage(stream, desc, fields, m);
    case NullTerminated =>
      ghost var s0 := stream.State();
      ok := Encode(stream, desc, fields, m);
      ghost var s1 := stream.State();
      if !ok {
        AfterFailure(s0, Wire(fields, m), s1, Some([0]));
        return;
      }
      ok := stream.Write([0]);
      AfterBoth(s0, Wire(fields, m), s1, ok, Some([0]), stream.State());
    case Plain =>
      ok := Encode(stream, desc, fields, m);
  }
}
