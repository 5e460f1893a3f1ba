// The decoder: it reads records from a stream, finds their fields with the field iterator and
// stores what they hold. Every method is tied to what DecodeSpec makes of the bytes in front of it.
module Decoder {
  import opened Bytes
  import opened Descriptor
  import opened Message
  import opened InputStream
  import opened DecodeSpec
  import opened Encoder
  import opened BitField
  import Varint

  method DecBool(stream: IStream, field: FieldIter, ghost f: Field) returns (ok: bool, v: Value)
    requires stream.Valid() && field.At(f) && LType(f.type_) == LTYPE_BOOL
    modifies stream
    ensures stream.Valid() && stream.Within(old(stream.pos), old(stream.bytesLeft))
    ensures ok <==> DecodeScalar(f, old(stream.Rest())).Got?
    ensures ok ==> DecodeScalar(f, old(stream.Rest())) == Got(v, stream.Rest())
  {
    var dest;
    ok, dest := stream.DecodeBool();
    v := Num(if dest then 1 else 0);
  }

  // Every number is cut to the field's size first and compared with what was read afterwards.
  method DecVarint(stream: IStream, field: FieldIter, ghost f: Field) returns (ok: bool, v: Value)
    requires stream.Valid() && field.At(f)
    requires LType(f.type_) == LTYPE_VARINT || LType(f.type_) == LTYPE_UVARINT || LType(f.type_) == LTYPE_SVARINT
    modifies stream
    ensures stream.Valid() && stream.Within(old(stream.pos), old(stream.bytesLeft))
    ensures ok <==> DecodeScalar(f, old(stream.Rest())).Got?
    ensures ok ==> DecodeScalar(f, old(stream.Rest())) == Got(v, stream.Rest())
  {
    hide Varint.Decode64, Varint.UnZigZag, FieldIter.At, IStream.Rest, IStream.Within;
    field.Shows(f);
    v := Num(0);
    if LType(field.type_) == LTYPE_UVARINT {
      var value;
      ok, value := stream.DecodeVarint();
      if !ok {
        return;
      }
      var clamped: int;
      if field.dataSize == 8 {
        clamped := value;
      } else if field.dataSize == 4 {
        clamped := value % TWO_32;
      } else if field.dataSize == 2 {
        clamped := value % 0x1_0000;
      } else if field.dataSize == 1 {
        clamped := value % 0x100;
      } else {
        return false, v;
      }
      if clamped != value {
        return false, v;
      }
      v := Num(clamped);
    } else {
      var svalue: int;
      ghost var value;
      if LType(field.type_) == LTYPE_SVARINT {
        value := Varint.Decode64(stream.Rest());
        ok, svalue := stream.DecodeSVarint();
        if !ok {
          return;
        }
      } else {
        value := Varint.Decode64(stream.Rest());
        var read;
        ok, read := stream.DecodeVarint();
        if !ok {
          return;
        }
        if field.dataSize == 8 {
          svalue := Signed(read, TWO_64);
        } else {
          svalue := Signed(read, TWO_32);
        }
      }
      assert svalue == SignedOf(f, value.value);
      var clamped: int;
      if field.dataSize == 8 {
        clamped := svalue;
      } else if field.dataSize == 4 {
        clamped := Signed(svalue, TWO_32);
      } else if field.dataSize == 2 {
        clamped := Signed(svalue, 0x1_0000);
      } else if field.dataSize == 1 {
        clamped := Signed(svalue, 0x100);
      } else {
        return false, v;
      }
      SignedFits(svalue, f.dataSize);
      if clamped != svalue {
        return false, v;
      }
      v := Num(clamped);
    }
  }

  // Cutting a number to a signed size leaves it alone exactly when it is in range.
  lemma SignedFits(n: int, size: nat)
    requires -TWO_63 <= n < TWO_63
    ensures size == 4 ==> (Signed(n, TWO_32) == n <==> -(Span(4) / 2) <= n < Span(4) / 2)
    ensures size == 2 ==> (Signed(n, 0x1_0000) == n <==> -(Span(2) / 2) <= n < Span(2) / 2)
    ensures size == 1 ==> (Signed(n, 0x100) == n <==> -(Span(1) / 2) <= n < Span(1) / 2)
  {
  }

  method DecFixed(stream: IStream, field: FieldIter, ghost f: Field) returns (ok: bool, v: Value)
    requires stream.Valid() && field.At(f) && (LType(f.type_) == LTYPE_FIXED32 || LType(f.type_) == LTYPE_FIXED64)
    modifies stream
    ensures stream.Valid() && stream.Within(old(stream.pos), old(stream.bytesLeft))
    ensures ok <==> DecodeScalar(f, old(stream.Rest())).Got?
    ensures ok ==> DecodeScalar(f, old(stream.Rest())) == Got(v, stream.Rest())
  {
    var n := 0;
    if field.dataSize == 4 {
      ok, n := stream.DecodeFixed32();
    } else if field.dataSize == 8 {
      ok, n := stream.DecodeFixed64();
    } else {
      ok := false;
    }
    v := Num(n);
  }

  method DecBytes(stream: IStream, field: FieldIter, ghost f: Field) returns (ok: bool, v: Value)
    requires stream.Valid() && field.At(f) && LType(f.type_) == LTYPE_BYTES
    modifies stream
    ensures stream.Valid() && stream.Within(old(stream.pos), old(stream.bytesLeft))
    ensures ok <==> DecodeScalar(f, old(stream.Rest())).Got?
    ensures ok ==> DecodeScalar(f, old(stream.Rest())) == Got(v, stream.Rest())
  {
    hide Varint.Decode32;
    v := Blob([]);
    var size;
    ok, size := stream.DecodeVarint32();
    if !ok {
      return;
    }
    if size > 0xFFFF {
      return false, v;
    }
    var allocSize := size + 2;
    if allocSize > field.dataSize {
      return false, v;
    }
    var data;
    ok, data := stream.Read(size);
    v := Blob(data);
  }

  method DecString(stream: IStream, field: FieldIter, ghost f: Field) returns (ok: bool, v: Value)
    requires stream.Valid() && field.At(f) && LType(f.type_) == LTYPE_STRING
    modifies stream
    ensures stream.Valid() && stream.Within(old(stream.pos), old(stream.bytesLeft))
    ensures ok <==> DecodeScalar(f, old(stream.Rest())).Got?
    ensures ok ==> DecodeScalar(f, old(stream.Rest())) == Got(v, stream.Rest())
  {
    hide Varint.Decode32;
    v := Text([]);
    var size;
    ok, size := stream.DecodeVarint32();
    if !ok {
      return;
    }
    if size == TWO_32 - 1 {
      return false, v;
    }
    var allocSize := size + 1;
    if allocSize > field.dataSize {
      return false, v;
    }
    var data;
    ok, data := stream.Read(size);
    v := Text(UpToNul(data));
  }

  method DecFixedLengthBytes(stream: IStream, field: FieldIter, ghost f: Field) returns (ok: bool, v: Value)
    requires stream.Valid() && field.At(f) && LType(f.type_) == LTYPE_FIXED_LENGTH_BYTES
    modifies stream
    ensures stream.Valid() && stream.Within(old(stream.pos), old(stream.bytesLeft))
    ensures ok <==> DecodeScalar(f, old(stream.Rest())).Got?
    ensures ok ==> DecodeScalar(f, old(stream.Rest())) == Got(v, stream.Rest())
  {
    hide Varint.Decode32;
    v := Inline([]);
    var size;
    ok, size := stream.DecodeVarint32();
    if !ok {
      return;
    }
    if size > 0xFFFF {
      return false, v;
    }
    if size == 0 {
      return true, Inline(Zeros(field.dataSize));
    }
    if size != field.dataSize {
      return false, v;
    }
    var data;
    ok, data := stream.Read(field.dataSize);
    v := Inline(data);
  }

  method DecSubmessage(stream: IStream, field: FieldIter, ghost f: Field) returns (ok: bool, v: Value)
    requires stream.Valid() && field.At(f) && SupportedField(f) && IsSubmsg(f.type_)
    modifies stream
    ensures stream.Valid() && stream.Inside(old(stream.pos), old(stream.bytesLeft))
    ensures ok ==> stream.Within(old(stream.pos), old(stream.bytesLeft))
    ensures ok <==> DecodeValue(f, old(stream.Rest())).Got?
    ensures ok ==> DecodeValue(f, old(stream.Rest())) == Got(v, stream.Rest())
    decreases f, 0
  {
    hide Prefixed, DecodeMessage, DecodeValue, SupportedField, Describes, Defaults, IsSubmsg, FieldIter.At,
         IStream.Valid, IStream.Rest;
    SubmessageField(field, f);
    SubmessageCases(f, stream.Rest());
    v := Num(0);
    var opened_, sub := stream.MakeSubstream();
    if !opened_ {
      return false, v;
    }
    var status, m := DecodeInner(sub, field.submsgDesc.value, f.sub, Msg(map[]), false, false);
    stream.CloseSubstream(sub);
    ok := status;
    v := Sub(m);
  }

  lemma SubmessageField(field: FieldIter, f: Field)
    requires field.At(f) && SupportedField(f) && IsSubmsg(f.type_)
    ensures field.submsgDesc.Some? && Describes(field.submsgDesc.value, f.sub)
  {
    field.Shows(f);
    hide FieldIter.At, Supported, AllFit;
  }

  lemma SubmessageCases(f: Field, bs: seq<byte>)
    requires IsSubmsg(f.type_)
    ensures var p := Prefixed(bs);
      if p.Bad? then DecodeValue(f, bs).Bad?
      else
        var q := DecodeMessage(f.sub, Defaults(f.sub), false, p.value);
        DecodeValue(f, bs) == if q.Bad? then Bad else Got(Sub(q.value), p.rest)
  {
    hide Prefixed, DecodeMessage, Defaults;
  }

  method DecodeBasicField(stream: IStream, field: FieldIter, ghost f: Field) returns (ok: bool, v: Value)
    requires stream.Valid() && field.At(f) && SupportedField(f)
    modifies stream
    ensures stream.Valid() && stream.Inside(old(stream.pos), old(stream.bytesLeft))
    ensures ok ==> stream.Within(old(stream.pos), old(stream.bytesLeft))
    ensures ok <==> DecodeValue(f, old(stream.Rest())).Got?
    ensures ok ==> DecodeValue(f, old(stream.Rest())) == Got(v, stream.Rest())
    decreases f, 1
  {
    v := Num(0);
    var t := LType(field.type_);
    if t == LTYPE_BOOL {
      ok, v := DecBool(stream, field, f);
    } else if t == LTYPE_VARINT || t == LTYPE_UVARINT || t == LTYPE_SVARINT {
      ok, v := DecVarint(stream, field, f);
    } else if t == LTYPE_FIXED32 || t == LTYPE_FIXED64 {
      ok, v := DecFixed(stream, field, f);
    } else if t == LTYPE_BYTES {
      ok, v := DecBytes(stream, field, f);
    } else if t == LTYPE_STRING {
      ok, v := DecString(stream, field, f);
    } else if t == LTYPE_SUBMESSAGE || t == LTYPE_SUBMSG_W_CB {
      ok, v := DecSubmessage(stream, field, f);
    } else if t == LTYPE_FIXED_LENGTH_BYTES {
      ok, v := DecFixedLengthBytes(stream, field, f);
    } else {
      ok := false;
    }
  }

  method WireTypeMatches(wireType: nat, field: FieldIter, ghost f: Field) returns (matches_: bool)
    requires field.At(f)
    ensures matches_ == CheckWireType(f, wireType)
  {
    var t := LType(field.type_);
    if t == LTYPE_BOOL || t == LTYPE_VARINT || t == LTYPE_UVARINT || t == LTYPE_SVARINT {
      return wireType == WT_VARINT;
    } else if t == LTYPE_FIXED32 {
      return wireType == WT_32BIT;
    } else if t == LTYPE_FIXED64 {
      return wireType == WT_64BIT;
    } else if t == LTYPE_BYTES || t == LTYPE_STRING || IsSubmsg(field.type_) || t == LTYPE_FIXED_LENGTH_BYTES {
      return wireType == WT_STRING;
    }
    matches_ := false;
  }

  // A packed array: elements until the substream or the array is used up. What is left in the
  // substream then did not fit.
  method DecodePackedField(stream: IStream, field: FieldIter, ghost f: Field, a0: Array)
    returns (ok: bool, a: Array)
    requires stream.Valid() && field.At(f) && SupportedField(f) && IsPackable(f)
    modifies stream
    ensures stream.Valid() && stream.Inside(old(stream.pos), old(stream.bytesLeft))
    ensures ok ==> stream.Within(old(stream.pos), old(stream.bytesLeft))
    ensures var p := Prefixed(old(stream.Rest()));
      ok <==> p.Got? && DecodePacked(f, a0, p.value).Got? && DecodePacked(f, a0, p.value).rest == []
    ensures ok ==> a == DecodePacked(f, a0, Prefixed(old(stream.Rest())).value).value
    ensures var p := Prefixed(old(stream.Rest())); a == if p.Bad? then a0 else PackedLeft(f, a0, p.value)
    ensures ok ==> stream.Rest() == Prefixed(old(stream.Rest())).rest
    decreases f, 2
  {
    hide Prefixed, SupportedField, DecodeValue, DecodePacked, PackedLeft, IsPackable, FieldIter.At, IStream.Rest;
    field.Shows(f);
    a := a0;
    ghost var p := Prefixed(stream.Rest());
    var opened_, sub := stream.MakeSubstream();
    if !opened_ {
      return false, a;
    }
    var status := true;
    ghost var pos0, left0 := sub.pos, sub.bytesLeft;
    while sub.bytesLeft > 0 && a.k < field.arraySize
      invariant sub.Valid() && sub.Within(pos0, left0)
      invariant status && DecodePacked(f, a0, p.value) == DecodePacked(f, a, sub.Rest())
      invariant PackedLeft(f, a0, p.value) == PackedLeft(f, a, sub.Rest())
      modifies sub
      decreases sub.bytesLeft, if a.k < field.arraySize then field.arraySize - a.k else 0
    {
      ghost var before, here := a, sub.Rest();
      var v;
      status, v := DecodeBasicField(sub, field, f);
      PackedStep(f, a, here);
      if !status {
        break;
      }
      a := StoreAt(field.arraySize, a, v);
    }
    if status {
      PackedStop(f, a, sub.Rest());
    }
    if sub.bytesLeft != 0 {
      return false, a;
    }
    assert status ==> sub.Rest() == [];
    stream.CloseSubstream(sub);
    assert status ==> stream.Rest() == p.rest;
    ok := status;
  }

  lemma PackedStep(f: Field, a: Array, bs: seq<byte>)
    requires bs != [] && a.k < f.arraySize && IsPackable(f)
    ensures DecodeValue(f, bs).Bad? ==> DecodePacked(f, a, bs).Bad? && PackedLeft(f, a, bs) == a
    ensures DecodeValue(f, bs).Got? ==>
      var a1, rest := StoreAt(f.arraySize, a, DecodeValue(f, bs).value), DecodeValue(f, bs).rest;
      DecodePacked(f, a, bs) == DecodePacked(f, a1, rest) && PackedLeft(f, a, bs) == PackedLeft(f, a1, rest)
  {
    hide DecodeScalar;
  }

  lemma PackedStop(f: Field, a: Array, bs: seq<byte>)
    requires bs == [] || a.k >= f.arraySize
    ensures DecodePacked(f, a, bs) == Got(a, bs) && PackedLeft(f, a, bs) == a
  {
  }

  method DecodeStaticField(stream: IStream, wireType: nat, field: FieldIter, ghost f: Field, s: Slot, k: nat)
    returns (ok: bool, st: Stored)
    requires stream.Valid() && field.At(f) && SupportedField(f)
    modifies stream
    ensures stream.Valid() && stream.Inside(old(stream.pos), old(stream.bytesLeft))
    ensures ok ==> stream.Within(old(stream.pos), old(stream.bytesLeft))
    ensures ok <==> DecodeField(f, wireType, s, k, old(stream.Rest())).Got?
    ensures ok ==> DecodeField(f, wireType, s, k, old(stream.Rest())) == Got(st, stream.Rest())
    ensures HType(f.type_) == HTYPE_REPEATED ==>
      var left := ArrayLeft(f, wireType, Array(Elements(s), k), old(stream.Rest()));
      st == Stored(Many(left.vs), left.k)
    decreases f, 3
  {
    hide Prefixed, Supported, AllFit, DecodeValue, DecodePacked, PackedLeft, CheckWireType;
    st := Stored(if HType(field.type_) == HTYPE_REPEATED then Many(Elements(s)) else s, k);
    var v;
    if HType(field.type_) == HTYPE_REPEATED && wireType == WT_STRING && LType(field.type_) <= LTYPE_LAST_PACKABLE {
      var a;
      ok, a := DecodePackedField(stream, field, f, Array(Elements(s), k));
      st := Stored(Many(a.vs), a.k);
      return;
    }
    var matches_ := WireTypeMatches(wireType, field, f);
    if !matches_ {
      return false, st;
    }
    if HType(field.type_) == HTYPE_REPEATED {
      st := st.(k := k + 1);
      if k >= field.arraySize {
        return false, st;
      }
    }
    ok, v := DecodeBasicField(stream, field, f);
    if !ok {
      return;
    }
    if HType(field.type_) == HTYPE_REPEATED {
      var a := StoreAt(field.arraySize, Array(Elements(s), k), v);
      st := Stored(Many(a.vs), a.k);
    } else if HType(field.type_) == HTYPE_ONEOF {
      st := Stored(Union(Some(Member(field.tag, v))), k);
    } else if field.sizeOffset != 0 && HType(field.type_) == HTYPE_OPTIONAL {
      st := Stored(Opt(Some(v)), k);
    } else {
      st := Stored(One(v), k);
    }
  }

  // --- Defaults

  method FieldSetToDefault(field: FieldIter, ghost f: Field, m: Msg) returns (r: Msg)
    requires field.At(f) && SupportedField(f)
    ensures r == Msg(m.slots[f.dataOffset := DefaultSlot(f)])
    decreases f
  {
    hide Defaults, Supported, AllFit;
    var t := LType(field.type_);
    var s: Slot;
    if HType(field.type_) == HTYPE_OPTIONAL && field.sizeOffset != 0 {
      s := Opt(None);
    } else if HType(field.type_) == HTYPE_REPEATED {
      s := Many([]);
    } else if HType(field.type_) == HTYPE_ONEOF {
      s := Union(None);
    } else if t == LTYPE_SUBMESSAGE || t == LTYPE_SUBMSG_W_CB {
      var sub := MessageSetToDefaults(field.submsgDesc.value, f.sub, Msg(map[]));
      s := One(Sub(sub));
    } else if t == LTYPE_BYTES {
      s := One(Blob([]));
    } else if t == LTYPE_STRING {
      s := One(Text([]));
    } else if t == LTYPE_FIXED_LENGTH_BYTES {
      s := One(Inline(Zeros(field.dataSize)));
    } else {
      s := One(Num(0));
    }
    r := Msg(m.slots[field.dataOffset := s]);
  }

  // Whatever the structure held before, every field ends up with its default.
  method MessageSetToDefaults(desc: MsgDesc, ghost fields: seq<Field>, m: Msg) returns (r: Msg)
    requires Describes(desc, fields) && m.slots.Keys <= Offsets(fields)
    ensures r == Defaults(fields)
    decreases fields
  {
    hide *;
    Described(desc, fields);
    r := m;
    MergeStart(fields, m);
    var iter := new FieldIter.Begin(desc, fields);
    if desc.fieldCount == 0 {
      MergeEnd(fields, m, r);
      return;
    }
    while true
      invariant iter.Valid() && iter.descriptor == desc && iter.fields == fields && iter.index < |fields|
      invariant r.slots == m.slots + DefaultsUpTo(fields, iter.index).slots
      modifies iter
      decreases |fields| - iter.index
    {
      ghost var i := iter.index;
      IterAt(iter, fields);
      MergeStep(fields, m, r, i);
      r := FieldSetToDefault(iter, fields[i], r);
      var more := iter.Next();
      if !more {
        MergeEnd(fields, m, r);
        break;
      }
    }
  }

  lemma Described(desc: MsgDesc, fields: seq<Field>)
    requires Describes(desc, fields)
    ensures Supported(fields) && AllFit(fields) && desc == Bind(fields) && desc.fieldCount == |fields|
  {
    hide Supported, AllFit;
  }

  lemma MergeStart(fields: seq<Field>, m: Msg)
    ensures m.slots == m.slots + DefaultsUpTo(fields, 0).slots
  {
  }

  lemma MergeStep(fields: seq<Field>, m: Msg, r: Msg, i: nat)
    requires i < |fields| && r.slots == m.slots + DefaultsUpTo(fields, i).slots
    ensures r.slots[fields[i].dataOffset := DefaultSlot(fields[i])] == m.slots + DefaultsUpTo(fields, i + 1).slots
  {
    hide DefaultSlot;
  }

  lemma MergeEnd(fields: seq<Field>, m: Msg, r: Msg)
    requires m.slots.Keys <= Offsets(fields) && r.slots == m.slots + DefaultsUpTo(fields, |fields|).slots
    ensures r == Defaults(fields)
  {
    assert r.slots == Defaults(fields).slots;
  }

  // --- Required fields

  // The two words of the bit set and the set they stand for.
  ghost predicate SeenBits(w0: nat, w1: nat, seen: set<nat>) {
    && (forall k: nat :: Bit(w0, k) == (k < 32 && k in seen))
    && (forall k: nat :: Bit(w1, k) == (k < 32 && k + 32 in seen))
    && forall k | k in seen :: k < MAX_REQUIRED_FIELDS
  }

  lemma MarkSeen(w0: nat, w1: nat, seen: set<nat>, index: nat)
    requires SeenBits(w0, w1, seen) && index < MAX_REQUIRED_FIELDS
    ensures index < 32 ==> SeenBits(Or(w0, Pow2(index % 32)), w1, seen + {index})
    ensures index >= 32 ==> SeenBits(w0, Or(w1, Pow2(index % 32)), seen + {index})
  {
    var tmp := Pow2(index % 32);
    forall k: nat
      ensures Bit(Or(w0, tmp), k) == (Bit(w0, k) || k == index % 32)
      ensures Bit(Or(w1, tmp), k) == (Bit(w1, k) || k == index % 32)
    {
      BitOr(w0, tmp, k);
      BitOr(w1, tmp, k);
      BitOfPow2(index % 32, k);
    }
  }

  // Required fields are numbered without gaps.
  lemma {:induction false} RequiredIndex(fields: seq<Field>, n: nat, k: nat)
    requires n <= |fields| && k < RequiredBefore(fields, n)
    ensures exists i | 0 <= i < n :: HType(fields[i].type_) == HTYPE_REQUIRED && RequiredBefore(fields, i) == k
  {
    if k < RequiredBefore(fields, n - 1) {
      RequiredIndex(fields, n - 1, k);
    } else {
      assert HType(fields[n - 1].type_) == HTYPE_REQUIRED && RequiredBefore(fields, n - 1) == k;
    }
  }

  ghost predicate LowSeen(seen: set<nat>, count: nat) {
    forall k: nat :: k < count && k < MAX_REQUIRED_FIELDS ==> k in seen
  }

  lemma AllSeenIsLowSeen(fields: seq<Field>, seen: set<nat>)
    ensures AllRequiredSeen(fields, seen) <==> LowSeen(seen, RequiredBefore(fields, |fields|))
  {
    var n := |fields|;
    if AllRequiredSeen(fields, seen) {
      forall k: nat | k < RequiredBefore(fields, n) && k < MAX_REQUIRED_FIELDS
        ensures k in seen
      {
        RequiredIndex(fields, n, k);
      }
    }
    if LowSeen(seen, RequiredBefore(fields, n)) {
      forall i | 0 <= i < n && HType(fields[i].type_) == HTYPE_REQUIRED
        && RequiredBefore(fields, i) < MAX_REQUIRED_FIELDS
        ensures RequiredBefore(fields, i) in seen
      {
        RequiredGrows(fields, i, n);
      }
    }
  }

  // Comparing whole words and the masked rest of one word decides whether the lowest count bits
  // are set, as long as no bit is set above them.
  lemma WordsDecide(w0: nat, w1: nat, seen: set<nat>, count: nat)
    requires SeenBits(w0, w1, seen) && count <= MAX_REQUIRED_FIELDS
    requires forall k | k in seen :: k < count
    ensures LowSeen(seen, count) <==>
      && (count / 32 >= 1 ==> w0 == ALL_BITS)
      && (count / 32 >= 2 ==> w1 == ALL_BITS)
      && (count % 32 != 0 ==> (if count / 32 == 0 then w0 else w1) == ALL_BITS / Pow2(32 - count % 32))
  {
    hide Bit, Pow2;
    var n := count % 32;
    Pow2Is32();
    LowOnes(w0, 32);
    LowOnes(w1, 32);
    LowOnes(w0, n);
    LowOnes(w1, n);
    if n != 0 {
      ShiftedOnes(n);
    }
    FullWords(w0, w1, seen, count);
  }

  lemma FullWords(w0: nat, w1: nat, seen: set<nat>, count: nat)
    requires SeenBits(w0, w1, seen) && count <= MAX_REQUIRED_FIELDS
    requires forall k | k in seen :: k < count
    ensures LowSeen(seen, count) <==>
      && (count / 32 >= 1 ==> LowOnly(w0, 32))
      && (count / 32 >= 2 ==> LowOnly(w1, 32))
      && (count % 32 != 0 ==> if count / 32 == 0 then LowOnly(w0, count % 32) else LowOnly(w1, count % 32))
  {
    hide Bit;
    var low := if count < 32 then count else 32;
    assert (forall k: nat | k < low :: k in seen) <==> LowOnly(w0, low) by {
      if LowOnly(w0, low) {
        forall k: nat | k < low
          ensures k in seen
        {
          assert Bit(w0, k);
        }
      }
    }
    var high := count - low;
    assert (forall k: nat | 32 <= k < count :: k in seen) <==> LowOnly(w1, high) by {
      if forall k: nat | 32 <= k < count :: k in seen {
        forall k: nat
          ensures Bit(w1, k) == (k < high)
        {
          assert k < high ==> k + 32 in seen;
        }
      }
      if LowOnly(w1, high) {
        forall k: nat | 32 <= k < count
          ensures k in seen
        {
          assert Bit(w1, k - 32);
        }
      }
    }
  }

  // The number of required fields, read off the iterator at the end of the descriptor; the last
  // field is not counted by the index that belongs to it.
  method CountRequired(iter: FieldIter) returns (reqFieldCount: nat)
    requires iter.Valid() && Supported(iter.fields)
    modifies iter
    ensures reqFieldCount == RequiredBefore(iter.fields, |iter.fields|)
  {
    hide Words, Submessages, WordsBefore, SubmsgBefore, AllFit, RequiredBefore, Supported;
    ghost var fields := iter.fields;
    reqFieldCount := iter.requiredFieldIndex;
    var lastType := iter.type_;
    var more := iter.Next();
    NoneRequired();
    while more
      invariant iter.Valid() && iter.fields == fields && (more <==> iter.index != 0)
      invariant var last := if iter.index == 0 then |fields| - 1 else iter.index - 1;
        if fields == [] then reqFieldCount == 0 && iter.index == 0
        else 0 <= last < |fields| && reqFieldCount == RequiredBefore(fields, last) && lastType == fields[last].type_
      decreases if more then |fields| - iter.index else 0
    {
      reqFieldCount := iter.requiredFieldIndex;
      lastType := iter.type_;
      more := iter.Next();
    }
    if HType(lastType) == HTYPE_REQUIRED && iter.tag != 0 {
      reqFieldCount := reqFieldCount + 1;
    }
    LastFixup(iter, fields);
  }

  lemma NoneRequired()
    ensures RequiredBefore([], 0) == 0
  {
  }

  // The end of pb_decode_inner: the bit set is compared word by word.
  method CheckRequired(iter: FieldIter, bitfield: array<nat>, ghost seen: set<nat>) returns (ok: bool)
    requires iter.Valid() && Supported(iter.fields) && bitfield.Length == 2
    requires SeenBits(bitfield[0], bitfield[1], seen)
    requires forall k | k in seen :: k < RequiredBefore(iter.fields, |iter.fields|)
    modifies iter
    ensures ok == AllRequiredSeen(iter.fields, seen)
  {
    hide SeenBits, AllRequiredSeen, Pow2, RequiredBefore, Supported, LowSeen;
    AllSeenIsLowSeen(iter.fields, seen);
    SeenBelow(bitfield[0], bitfield[1], seen);
    var reqFieldCount := CountRequired(iter);
    if reqFieldCount > MAX_REQUIRED_FIELDS {
      reqFieldCount := MAX_REQUIRED_FIELDS;
    }
    LowSeenCapped(seen, RequiredBefore(iter.fields, |iter.fields|), reqFieldCount);
    WordsDecide(bitfield[0], bitfield[1], seen, reqFieldCount);
    if reqFieldCount > 0 {
      var i := 0;
      while i < reqFieldCount / 32
        invariant i <= reqFieldCount / 32 <= 2
        invariant forall j | 0 <= j < i :: bitfield[j] == ALL_BITS
      {
        if bitfield[i] != ALL_BITS {
          return false;
        }
        i := i + 1;
      }
      if reqFieldCount % 32 != 0 {
        if bitfield[reqFieldCount / 32] != ALL_BITS / Pow2(32 - reqFieldCount % 32) {
          return false;
        }
      }
    }
    ok := true;
  }

  lemma LowSeenCapped(seen: set<nat>, count: nat, capped: nat)
    requires capped == if count > MAX_REQUIRED_FIELDS then MAX_REQUIRED_FIELDS else count
    ensures LowSeen(seen, count) <==> LowSeen(seen, capped)
  {
  }

  lemma SeenBelow(w0: nat, w1: nat, seen: set<nat>)
    requires SeenBits(w0, w1, seen)
    ensures forall k | k in seen :: k < MAX_REQUIRED_FIELDS
  {
  }

  lemma LastFixup(iter: FieldIter, fields: seq<Field>)
    requires iter.Valid() && iter.fields == fields && Supported(fields)
    ensures fields != [] ==> iter.tag != 0
    ensures fields == [] ==> iter.tag == 0
    ensures fields != [] ==>
      RequiredBefore(fields, |fields|) == RequiredBefore(fields, |fields| - 1)
        + if HType(fields[|fields| - 1].type_) == HTYPE_REQUIRED then 1 else 0
  {
    hide Words, Submessages, WordsBefore, SubmsgBefore, AllFit, Pack;
  }

  // --- Messages

  // The decoder's own state stands for the run so far.
  ghost predicate Tracks(
    fields: seq<Field>, run: Run, m: Msg, w0: nat, w1: nat, fixedField: Option<nat>, fixedSize: nat, fixedTotal: nat) {
    && run.msg == m && m.slots.Keys == Offsets(fields)
    && SeenBits(w0, w1, run.seen)
    && (forall k | k in run.seen :: k < RequiredBefore(fields, |fields|))
    && run.fixedField == fixedField && run.fixedSize == fixedSize
    && (fixedField.Some? ==> fixedField.value < |fields| && fixedTotal == fields[fixedField.value].arraySize)
  }

  method FindField(iter: FieldIter, tag: nat, ghost fields: seq<Field>) returns (found: bool)
    requires iter.Valid() && iter.fields == fields && Supported(fields) && tag != 0
    modifies iter
    ensures iter.Valid() && Search(fields, tag) == if found then Some(iter.index) else None
    ensures found ==> fields != [] && iter.At(fields[iter.index]) && SupportedField(fields[iter.index])
  {
    ghost var steps;
    found, steps := iter.Find(tag);
    FindIsSearch(iter, tag, found, fields);
    if found {
      IterAt(iter, fields);
    }
  }

  // Sets the bit of a required field.
  method MarkRequired(iter: FieldIter, ghost fields: seq<Field>, bitfield: array<nat>, ghost run: Run)
    requires iter.Valid() && iter.fields == fields && fields != []
    requires iter.At(fields[iter.index]) && bitfield.Length == 2
    requires SeenBits(bitfield[0], bitfield[1], run.seen)
    requires forall k | k in run.seen :: k < RequiredBefore(fields, |fields|)
    modifies bitfield
    ensures SeenBits(bitfield[0], bitfield[1], See(fields, iter.index, run).seen)
    ensures forall k | k in See(fields, iter.index, run).seen :: k < RequiredBefore(fields, |fields|)
  {
    hide SeenBits, Pow2;
    if HType(iter.type_) == HTYPE_REQUIRED && iter.requiredFieldIndex < MAX_REQUIRED_FIELDS {
      var tmp := Pow2(iter.requiredFieldIndex % 32);
      MarkSeen(bitfield[0], bitfield[1], run.seen, iter.requiredFieldIndex);
      RequiredGrows(fields, iter.index, |fields|);
      bitfield[iter.requiredFieldIndex / 32] := Or(bitfield[iter.requiredFieldIndex / 32], tmp);
    }
  }

  // The part of pb_decode_inner that follows a successful search.
  method DecodeKnownField(
    stream: IStream, iter: FieldIter, ghost fields: seq<Field>, wireType: nat, m: Msg, bitfield: array<nat>,
    fixedField: Option<nat>, fixedSize: nat, fixedTotal: nat, ghost run: Run)
    returns (ok: bool, m': Msg, fixedField': Option<nat>, fixedSize': nat, fixedTotal': nat, ghost run': Run)
    requires stream.Valid() && iter.Valid() && iter.fields == fields && fields != []
    requires iter.At(fields[iter.index]) && SupportedField(fields[iter.index])
    requires bitfield.Length == 2
    requires Tracks(fields, run, m, bitfield[0], bitfield[1], fixedField, fixedSize, fixedTotal)
    modifies stream, bitfield
    ensures stream.Valid() && stream.Inside(old(stream.pos), old(stream.bytesLeft))
    ensures ok ==> stream.Within(old(stream.pos), old(stream.bytesLeft))
    ensures ok <==> DecodeKnown(fields, iter.index, wireType, run, old(stream.Rest())).Got?
    ensures ok ==> DecodeKnown(fields, iter.index, wireType, run, old(stream.Rest())) == Got(run', stream.Rest())
    ensures ok ==> Tracks(fields, run', m', bitfield[0], bitfield[1], fixedField', fixedSize', fixedTotal')
    ensures !ok ==> m' == KnownLeft(fields, iter.index, wireType, run, old(stream.Rest()))
    decreases fields[iter.index], 4
  {
    hide ArrayLeft, SeenBits, Words, Submessages, WordsBefore, SubmsgBefore, AllFit, Supported, Exact, Fits, Pow2,
         DecodeField;
    ghost var i := iter.index;
    ghost var f := fields[i];
    m', fixedField', fixedSize', fixedTotal', run' := m, fixedField, fixedSize, fixedTotal, run;
    var k := |Elements(m.slots[iter.dataOffset])|;
    if iter.IsFixedCount() {
      if fixedField != Some(iter.index) {
        if fixedField.Some? && fixedSize != fixedTotal {
          ok := false;
          return;
        }
        fixedField', fixedSize', fixedTotal' := Some(iter.index), 0, iter.arraySize;
      }
      k := fixedSize';
    }
    MarkRequired(iter, fields, bitfield, run);
    var st;
    ok, st := DecodeStaticField(stream, wireType, iter, f, m.slots[iter.dataOffset], k);
    if ok || HType(iter.type_) == HTYPE_REPEATED {
      m' := Msg(m.slots[iter.dataOffset := st.slot]);
    }
    if !ok {
      return;
    }
    if iter.IsFixedCount() {
      fixedSize' := st.k;
    }
    run' := DecodeKnown(fields, i, wireType, run, old(stream.Rest())).value;
    assert m'.slots.Keys == m.slots.Keys;
  }

  // One turn of the loop of pb_decode_inner. stopped: a zero tag has ended the message.
  method DecodeNext(
    stream: IStream, iter: FieldIter, ghost fields: seq<Field>, nullTerminated: bool, m: Msg, bitfield: array<nat>,
    fixedField: Option<nat>, fixedSize: nat, fixedTotal: nat, ghost run: Run)
    returns (ok: bool, stopped: bool, m': Msg, fixedField': Option<nat>, fixedSize': nat, fixedTotal': nat,
             ghost run': Run)
    requires stream.Valid() && stream.bytesLeft > 0
    requires iter.Valid() && iter.fields == fields && Supported(fields) && bitfield.Length == 2
    requires Tracks(fields, run, m, bitfield[0], bitfield[1], fixedField, fixedSize, fixedTotal)
    modifies stream, iter, bitfield
    ensures stream.Valid() && stream.Inside(old(stream.pos), old(stream.bytesLeft)) && iter.Valid()
    ensures ok ==> stream.Within(old(stream.pos), old(stream.bytesLeft)) && stream.pos > old(stream.pos)
    ensures var p := DecodeRecords(fields, run, nullTerminated, old(stream.Rest()));
      if !ok then p == Bad
      else if stopped then p == Got(run', stream.Rest())
      else p == DecodeRecords(fields, run', nullTerminated, stream.Rest())
    ensures ok ==> Tracks(fields, run', m', bitfield[0], bitfield[1], fixedField', fixedSize', fixedTotal')
    ensures Reached(fields, run, old(stream.Rest()))
      == if !ok || stopped then m' else Reached(fields, run', stream.Rest())
    decreases fields, 0
  {
    hide Reached, KnownLeft, DecodeRecords, FixedDone, SeenBits, Words, Submessages, WordsBefore, SubmsgBefore,
         RequiredBefore, AllFit, Supported, Exact, Fits, Offsets, DecodeKnown, SkipField, Tracks, Search, DecodeKey;
    ok, stopped := false, false;
    m', fixedField', fixedSize', fixedTotal', run' := m, fixedField, fixedSize, fixedTotal, run;
    FixedDoneIs(fields, run, m, bitfield[0], bitfield[1], fixedField, fixedSize, fixedTotal);
    RecordCases(fields, run, nullTerminated, stream.Rest());
    var read, tag, wireType := stream.DecodeTag();
    if !read {
      return;
    }
    if tag == 0 {
      ok, stopped := nullTerminated, nullTerminated;
      return;
    }
    var found := FindField(iter, tag, fields);
    if !found {
      ok := stream.SkipUnknown(wireType);
      return;
    }
    ok, m', fixedField', fixedSize', fixedTotal', run' := DecodeKnownField(
      stream, iter, fields, wireType, m, bitfield, fixedField, fixedSize, fixedTotal, run);
  }

  method DecodeInner(
    stream: IStream, desc: MsgDesc, ghost fields: seq<Field>, dest: Msg, noInit: bool, nullTerminated: bool)
    returns (ok: bool, m: Msg)
    requires stream.Valid() && Describes(desc, fields)
    requires if noInit then dest.slots.Keys == Offsets(fields) else dest.slots.Keys <= Offsets(fields)
    modifies stream
    ensures stream.Valid() && stream.Inside(old(stream.pos), old(stream.bytesLeft))
    ensures ok ==> stream.Within(old(stream.pos), old(stream.bytesLeft))
    ensures var p := DecodeMessage(
        fields, if noInit then dest else Defaults(fields), nullTerminated, old(stream.Rest()));
      (ok <==> p.Got?) && (ok ==> p == Got(m, stream.Rest()))
    ensures m == Reached(fields, Start(if noInit then dest else Defaults(fields)), old(stream.Rest()))
    decreases fields, 1
  {
    hide Reached, DecodeRecords, FixedDone, AllRequiredSeen, SeenBits, Defaults, Words, Submessages, WordsBefore,
         SubmsgBefore, RequiredBefore, AllFit, Supported, Exact, Fits, Offsets, Tracks, DecodeMessage;
    var iter := new FieldIter.Begin(desc, fields);
    var bitfield := new nat[2](_ => 0);
    var fixedCountField: Option<nat> := None;  // None: PB_SIZE_MAX
    var fixedCountSize, fixedCountTotalSize := 0, 0;
    m := dest;
    if !noInit {
      m := MessageSetToDefaults(desc, fields, dest);
    }
    ghost var all, run := stream.Rest(), Start(m);
    TracksStart(fields, m);
    MessageParts(fields, m, nullTerminated, all);
    var stopped := false;
    while stream.bytesLeft > 0 && !stopped
      invariant stream.Valid() && stream.Within(old(stream.pos), old(stream.bytesLeft))
      invariant iter.Valid() && iter.fields == fields
      invariant Tracks(fields, run, m, bitfield[0], bitfield[1], fixedCountField, fixedCountSize, fixedCountTotalSize)
      invariant DecodeRecords(fields, Start(if noInit then dest else Defaults(fields)), nullTerminated, all)
        == if stopped then Got(run, stream.Rest()) else DecodeRecords(fields, run, nullTerminated, stream.Rest())
      invariant Reached(fields, Start(if noInit then dest else Defaults(fields)), all)
        == if stopped then m else Reached(fields, run, stream.Rest())
      modifies stream, iter, bitfield
      decreases stream.bytesLeft
    {
      ok, stopped, m, fixedCountField, fixedCountSize, fixedCountTotalSize, run := DecodeNext(
        stream, iter, fields, nullTerminated, m, bitfield, fixedCountField, fixedCountSize, fixedCountTotalSize, run);
      if !ok {
        return;
      }
    }
    RecordsEnd(fields, run, nullTerminated);
    FixedDoneIs(fields, run, m, bitfield[0], bitfield[1], fixedCountField, fixedCountSize, fixedCountTotalSize);
    if fixedCountField.Some? && fixedCountSize != fixedCountTotalSize {
      return false, m;
    }
    ok := CheckRequired(iter, bitfield, run.seen);
  }

  lemma MessageParts(fields: seq<Field>, m: Msg, nt: bool, bs: seq<byte>)
    ensures DecodeMessage(fields, m, nt, bs)
      == match DecodeRecords(fields, Start(m), nt, bs)
         case Bad => Bad
         case Got(r, rest) =>
           if FixedDone(fields, r) && AllRequiredSeen(fields, r.seen) then Got(r.msg, rest) else Bad
  {
  }

  lemma TracksStart(fields: seq<Field>, m: Msg)
    requires m.slots.Keys == Offsets(fields)
    ensures Tracks(fields, Start(m), m, 0, 0, None, 0, 0)
  {
    forall k: nat
      ensures !Bit(0, k)
    {
      BitOfZero(k);
    }
  }

  lemma RecordCases(fields: seq<Field>, r: Run, nt: bool, bs: seq<byte>)
    requires bs != []
    ensures DecodeKey(bs).Bad? ==> DecodeRecords(fields, r, nt, bs) == Bad
    ensures DecodeKey(bs).Got? && DecodeKey(bs).value.tag == 0 ==>
      DecodeRecords(fields, r, nt, bs) == if nt then Got(r, DecodeKey(bs).rest) else Bad
    ensures DecodeKey(bs).Got? && DecodeKey(bs).value.tag != 0 ==>
      DecodeRecords(fields, r, nt, bs)
      == match DecodeRecord(fields, DecodeKey(bs).value, r, DecodeKey(bs).rest)
         case Bad => Bad
         case Got(r1, rest1) => DecodeRecords(fields, r1, nt, rest1)
    ensures DecodeKey(bs).Bad? || DecodeKey(bs).value.tag == 0 ==> Reached(fields, r, bs) == r.msg
    ensures DecodeKey(bs).Got? && DecodeKey(bs).value.tag != 0 ==>
      Reached(fields, r, bs)
      == match DecodeRecord(fields, DecodeKey(bs).value, r, DecodeKey(bs).rest)
         case Got(r1, rest1) => Reached(fields, r1, rest1)
         case Bad =>
           match Search(fields, DecodeKey(bs).value.tag)
           case None => r.msg
           case Some(i) => KnownLeft(fields, i, DecodeKey(bs).value.wireType, r, DecodeKey(bs).rest)
  {
  }

  lemma FixedDoneIs(
    fields: seq<Field>, run: Run, m: Msg, w0: nat, w1: nat, fixedField: Option<nat>, fixedSize: nat, fixedTotal: nat)
    requires Tracks(fields, run, m, w0, w1, fixedField, fixedSize, fixedTotal)
    ensures FixedDone(fields, run) <==> fixedField.None? || fixedSize == fixedTotal
    ensures SeenBits(w0, w1, run.seen) && run.msg == m
    ensures forall k | k in run.seen :: k < RequiredBefore(fields, |fields|)
  {
  }

  // The search of the iterator agrees with the linear search when tags are distinct; where they
  // are not, the iterator prefers the field it is at.
  lemma FindIsSearch(iter: FieldIter, tag: nat, found: bool, fields: seq<Field>)
    requires iter.Valid() && iter.fields == fields && Supported(fields)
    requires found ==> fields != [] && fields[iter.index].tag == tag
    requires !found ==> Search(fields, tag).None?
    ensures Search(fields, tag) == if found then Some(iter.index) else None
  {
    if found {
      assert LType(fields[iter.index].type_) != LTYPE_EXTENSION;
      var r := Search(fields, tag);
      assert r.Some?;
      assert fields[r.value].tag == fields[iter.index].tag;
    }
  }

  // pb_decode_ex with its three flags.
  function DecodeExSpec(
    fields: seq<Field>, dest: Msg, delimited: bool, noInit: bool, nullTerminated: bool, bs: seq<byte>): Parse<Msg>
  {
    var m := if noInit then dest else Defaults(fields);
    if !delimited then DecodeMessage(fields, m, nullTerminated, bs)
    else
      match Prefixed(bs)
      case Bad => Bad
      case Got(payload, rest) =>
        match DecodeMessage(fields, m, nullTerminated, payload)
        case Bad => Bad
        case Got(r, _) => Got(r, rest)
  }

  method DecodeEx(
    stream: IStream, desc: MsgDesc, ghost fields: seq<Field>, dest: Msg,
    delimited: bool, noInit: bool, nullTerminated: bool)
    returns (ok: bool, m: Msg)
    requires stream.Valid() && Describes(desc, fields)
    requires if noInit then dest.slots.Keys == Offsets(fields) else dest.slots.Keys <= Offsets(fields)
    modifies stream
    ensures stream.Valid()
    ensures ok <==> DecodeExSpec(fields, dest, delimited, noInit, nullTerminated, old(stream.Rest())).Got?
    ensures ok ==>
      DecodeExSpec(fields, dest, delimited, noInit, nullTerminated, old(stream.Rest())) == Got(m, stream.Rest())
  {
    hide Describes, Defaults, Offsets, DecodeMessage, Prefixed;
    m := dest;
    if !delimited {
      ok, m := DecodeInner(stream, desc, fields, dest, noInit, nullTerminated);
      return;
    }
    ghost var p := Prefixed(stream.Rest());
    var opened_, sub := stream.MakeSubstream();
    if !opened_ {
      return false, m;
    }
    ok, m := DecodeInner(sub, desc, fields, dest, noInit, nullTerminated);
    stream.CloseSubstream(sub);
    assert ok ==> stream.Rest() == p.rest;
  }
}
