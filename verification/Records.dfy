// What decoding does to a series of records: it is a fold, it passes over unknown ones, it consumes
// each of them exactly, and it sees exactly the required fields that are there.
module Records {
  import opened Bytes
  import opened Descriptor
  import opened Message
  import opened InputStream
  import opened DecodeSpec
  import opened ScalarRoundTrip
  import opened RoundTrip
  import opened Structures
  import Varint

  // --- Reading is local: bytes behind an accepted part do not matter to it

  lemma TakeIsLocal(bs: seq<byte>, n: nat, more: seq<byte>)
    requires Take(bs, n).Got?
    ensures Take(bs + more, n) == Got(Take(bs, n).value, Take(bs, n).rest + more)
  {
    assert (bs + more)[..n] == bs[..n] && (bs + more)[n..] == bs[n..] + more;
  }

  lemma PrefixedIsLocal(bs: seq<byte>, more: seq<byte>)
    requires Prefixed(bs).Got?
    ensures Prefixed(bs + more) == Got(Prefixed(bs).value, Prefixed(bs).rest + more)
  {
    hide Varint.Decode32;
    Varint.DecodeIsLocal(bs, more);
    var p := Varint.Decode32(bs);
    TakeIsLocal(p.rest, p.value, more);
  }

  lemma SkipIsLocal(wireType: nat, bs: seq<byte>, more: seq<byte>)
    requires SkipField(wireType, bs).Got?
    ensures SkipField(wireType, bs + more) == Got((), SkipField(wireType, bs).rest + more)
  {
    hide Prefixed, Take, Varint.Skip;
    if wireType == WT_VARINT {
      Varint.DecodeIsLocal(bs, more);
    } else if wireType == WT_64BIT {
      TakeIsLocal(bs, 8, more);
    } else if wireType == WT_STRING {
      PrefixedIsLocal(bs, more);
    } else {
      TakeIsLocal(bs, 4, more);
    }
  }

  lemma ScalarIsLocal(f: Field, bs: seq<byte>, more: seq<byte>)
    requires DecodeScalar(f, bs).Got?
    ensures DecodeScalar(f, bs + more) == Got(DecodeScalar(f, bs).value, DecodeScalar(f, bs).rest + more)
  {
    hide Varint.Decode32, Varint.Decode64, FromLittleEndian, UpToNul, Clamped;
    Varint.DecodeIsLocal(bs, more);
    var t := LType(f.type_);
    if t == LTYPE_FIXED32 || t == LTYPE_FIXED64 {
      TakeIsLocal(bs, f.dataSize, more);
    } else if t == LTYPE_BYTES || t == LTYPE_STRING || t == LTYPE_FIXED_LENGTH_BYTES {
      var p := Varint.Decode32(bs);
      if p.value <= |p.rest| {
        TakeIsLocal(p.rest, p.value, more);
      }
    }
  }

  lemma ValueIsLocal(f: Field, bs: seq<byte>, more: seq<byte>)
    requires DecodeValue(f, bs).Got?
    ensures DecodeValue(f, bs + more) == Got(DecodeValue(f, bs).value, DecodeValue(f, bs).rest + more)
  {
    hide Prefixed, DecodeMessage, DecodeScalar;
    if IsSubmsg(f.type_) {
      PrefixedIsLocal(bs, more);
    } else {
      ScalarIsLocal(f, bs, more);
    }
  }

  lemma FieldIsLocal(f: Field, wireType: nat, s: Slot, k: nat, bs: seq<byte>, more: seq<byte>)
    requires DecodeField(f, wireType, s, k, bs).Got?
    ensures DecodeField(f, wireType, s, k, bs + more)
         == Got(DecodeField(f, wireType, s, k, bs).value, DecodeField(f, wireType, s, k, bs).rest + more)
  {
    hide Prefixed, DecodeValue, DecodePacked;
    if HType(f.type_) == HTYPE_REPEATED && wireType == WT_STRING && IsPackable(f) {
      PrefixedIsLocal(bs, more);
    } else {
      ValueIsLocal(f, bs, more);
    }
  }

  lemma RecordIsLocal(fields: seq<Field>, key: Key, r: Run, bs: seq<byte>, more: seq<byte>)
    requires DecodeRecord(fields, key, r, bs).Got?
    ensures DecodeRecord(fields, key, r, bs + more)
         == Got(DecodeRecord(fields, key, r, bs).value, DecodeRecord(fields, key, r, bs).rest + more)
  {
    hide DecodeField, SkipField;
    match Search(fields, key.tag)
    case None =>
      SkipIsLocal(key.wireType, bs, more);
    case Some(i) =>
      var f := fields[i];
      var s := r.msg.slots[f.dataOffset];
      FieldIsLocal(f, key.wireType, s, if IsFixedCount(f) then Enter(i, r).fixedSize else |Elements(s)|, bs, more);
  }

  lemma KeyIsLocal(bs: seq<byte>, more: seq<byte>)
    requires DecodeKey(bs).Got?
    ensures DecodeKey(bs + more) == Got(DecodeKey(bs).value, DecodeKey(bs).rest + more)
  {
    hide Varint.Decode32;
    Varint.DecodeIsLocal(bs, more);
  }

  // --- Decoding is a fold over records

  // If x decodes from the state r to the state r1, then x followed by y is decoded like y from r1.
  lemma {:induction false} RecordsFold(fields: seq<Field>, r: Run, x: seq<byte>, r1: Run, nt: bool, y: seq<byte>)
    requires DecodeRecords(fields, r, false, x) == Got(r1, [])
    ensures DecodeRecords(fields, r, nt, x + y) == DecodeRecords(fields, r1, nt, y)
    decreases |x|
  {
    hide DecodeRecord, DecodeKey;
    if x == [] {
      assert x + y == y;
    } else {
      var key := DecodeKey(x);
      var p := DecodeRecord(fields, key.value, r, key.rest);
      KeyIsLocal(x, y);
      RecordIsLocal(fields, key.value, r, key.rest, y);
      RecordsFold(fields, p.value, p.rest, r1, nt, y);
    }
  }

  // A message type without required fields and without fixed-count arrays keeps no books.
  predicate NoBooks(fields: seq<Field>) {
    forall i | 0 <= i < |fields| :: HType(fields[i].type_) != HTYPE_REQUIRED && !IsFixedCount(fields[i])
  }

  lemma RecordKeepsBooks(fields: seq<Field>, key: Key, r: Run, bs: seq<byte>)
    requires NoBooks(fields) && DecodeRecord(fields, key, r, bs).Got?
    ensures DecodeRecord(fields, key, r, bs).value == r.(msg := DecodeRecord(fields, key, r, bs).value.msg)
  {
    hide DecodeField, SkipField;
  }

  lemma {:induction false} BooksStayEmpty(fields: seq<Field>, r: Run, nt: bool, bs: seq<byte>)
    requires NoBooks(fields) && DecodeRecords(fields, r, nt, bs).Got?
    ensures DecodeRecords(fields, r, nt, bs).value == r.(msg := DecodeRecords(fields, r, nt, bs).value.msg)
    decreases |bs|
  {
    hide DecodeKey, DecodeRecord;
    if bs != [] {
      var key := DecodeKey(bs);
      if key.value.tag != 0 {
        var p := DecodeRecord(fields, key.value, r, key.rest);
        RecordKeepsBooks(fields, key.value, r, key.rest);
        BooksStayEmpty(fields, p.value, nt, p.rest);
      }
    }
  }

  // Decoding two pieces one after the other, the second one without initialising, is decoding
  // their concatenation.
  lemma DecodeIsFold(fields: seq<Field>, m: Msg, x: seq<byte>, m1: Msg, nt: bool, y: seq<byte>)
    requires NoBooks(fields) && DecodeMessage(fields, m, false, x) == Got(m1, [])
    ensures DecodeMessage(fields, m, nt, x + y) == DecodeMessage(fields, m1, nt, y)
  {
    hide DecodeRecords;
    var r1 := DecodeRecords(fields, Start(m), false, x).value;
    BooksStayEmpty(fields, Start(m), false, x);
    RecordsFold(fields, Start(m), x, r1, nt, y);
  }

  // A record whose tag belongs to no field, put between two records, changes nothing.
  lemma UnknownRecordIgnored(fields: seq<Field>, m: Msg, x: seq<byte>, u: seq<byte>, nt: bool, y: seq<byte>)
    requires DecodeRecords(fields, Start(m), false, x).Got?
    requires DecodeKey(u).Got? && DecodeKey(u).value.tag != 0 && Search(fields, DecodeKey(u).value.tag).None?
    requires SkipField(DecodeKey(u).value.wireType, DecodeKey(u).rest) == Got((), [])
    ensures DecodeMessage(fields, m, nt, x + u + y) == DecodeMessage(fields, m, nt, x + y)
  {
    hide DecodeRecords, DecodeKey, SkipField, Search;
    var r := DecodeRecords(fields, Start(m), false, x).value;
    AllRead(fields, Start(m), x);
    RecordsFold(fields, Start(m), x, r, nt, u + y);
    RecordsFold(fields, Start(m), x, r, nt, y);
    assert x + u + y == x + (u + y);
    SkipOne(fields, r, nt, u, y);
  }

  lemma SkipOne(fields: seq<Field>, r: Run, nt: bool, u: seq<byte>, y: seq<byte>)
    requires DecodeKey(u).Got? && DecodeKey(u).value.tag != 0 && Search(fields, DecodeKey(u).value.tag).None?
    requires SkipField(DecodeKey(u).value.wireType, DecodeKey(u).rest) == Got((), [])
    ensures DecodeRecords(fields, r, nt, u + y) == DecodeRecords(fields, r, nt, y)
  {
    hide DecodeKey, SkipField, Search;
    KeyIsLocal(u, y);
    SkipIsLocal(DecodeKey(u).value.wireType, DecodeKey(u).rest, y);
    assert [] + y == y;
  }

  lemma {:induction false} AllRead(fields: seq<Field>, r: Run, bs: seq<byte>)
    requires DecodeRecords(fields, r, false, bs).Got?
    ensures DecodeRecords(fields, r, false, bs).rest == []
    decreases |bs|
  {
    hide DecodeKey, DecodeRecord;
    if bs != [] {
      var key := DecodeKey(bs);
      var p := DecodeRecord(fields, key.value, r, key.rest);
      AllRead(fields, p.value, p.rest);
    }
  }

  // --- Every record is consumed exactly

  lemma ScalarIsSkip(f: Field, wireType: nat, bs: seq<byte>)
    requires SizedRight(f) && CheckWireType(f, wireType) && DecodeScalar(f, bs).Got?
    ensures SkipField(wireType, bs) == Got((), DecodeScalar(f, bs).rest)
  {
    hide UpToNul, Clamped, FromLittleEndian, Varint.Value, Varint.Fits32;
  }

  // Whatever a field makes of a record, it moves on by what pb_skip_field would have skipped.
  lemma FieldIsSkip(f: Field, wireType: nat, s: Slot, k: nat, bs: seq<byte>)
    requires SizedRight(f) && DecodeField(f, wireType, s, k, bs).Got?
    ensures SkipField(wireType, bs) == Got((), DecodeField(f, wireType, s, k, bs).rest)
  {
    hide DecodePacked, DecodeMessage, DecodeScalar, Prefixed, Varint.Skip;
    if HType(f.type_) == HTYPE_REPEATED && wireType == WT_STRING && IsPackable(f) {
    } else if !IsSubmsg(f.type_) {
      ScalarIsSkip(f, wireType, bs);
    }
  }

  // --- Required fields

  // The tags of the records, found by skipping from one to the next without a descriptor.
  function ScannedTags(bs: seq<byte>): set<nat>
    decreases |bs|
  {
    match DecodeKey(bs)
    case Bad => {}
    case Got(key, rest) =>
      if key.tag == 0 then {}
      else
        {key.tag} +
        match SkipField(key.wireType, rest)
        case Bad => {}
        case Got(_, rest1) => ScannedTags(rest1)
  }

  ghost predicate SeenExactly(fields: seq<Field>, before: set<nat>, tags: set<nat>, after: set<nat>) {
    forall i | 0 <= i < |fields| ::
      HType(fields[i].type_) == HTYPE_REQUIRED && RequiredBefore(fields, i) < MAX_REQUIRED_FIELDS ==>
        (RequiredBefore(fields, i) in after <==> RequiredBefore(fields, i) in before || fields[i].tag in tags)
  }

  lemma RecordSees(fields: seq<Field>, key: Key, r: Run, bs: seq<byte>)
    requires WellFormed(fields) && DecodeRecord(fields, key, r, bs).Got?
    ensures SkipField(key.wireType, bs).Got?
    ensures SkipField(key.wireType, bs).rest == DecodeRecord(fields, key, r, bs).rest
    ensures SeenExactly(fields, r.seen, {key.tag}, DecodeRecord(fields, key, r, bs).value.seen)
  {
    hide DecodeField, SkipField, RequiredBefore;
    match Search(fields, key.tag)
    case None =>
    case Some(i) =>
      var f := fields[i];
      var s := r.msg.slots[f.dataOffset];
      FieldIsSkip(f, key.wireType, s, if IsFixedCount(f) then Enter(i, r).fixedSize else |Elements(s)|, bs);
      forall j | 0 <= j < |fields| && HType(fields[j].type_) == HTYPE_REQUIRED
        ensures HType(f.type_) == HTYPE_REQUIRED ==>
          (RequiredBefore(fields, j) == RequiredBefore(fields, i) <==> i == j)
        ensures fields[j].tag == key.tag <==> i == j
      {
        if HType(f.type_) == HTYPE_REQUIRED {
          RequiredDiffers(fields, i, j);
        }
      }
  }

  lemma RequiredDiffers(fields: seq<Field>, i: nat, j: nat)
    requires i < |fields| && j < |fields|
    requires HType(fields[i].type_) == HTYPE_REQUIRED && HType(fields[j].type_) == HTYPE_REQUIRED
    ensures RequiredBefore(fields, i) == RequiredBefore(fields, j) <==> i == j
  {
    if i < j {
      RequiredGrows(fields, i, j);
    } else if j < i {
      RequiredGrows(fields, j, i);
    }
  }

  lemma {:induction false} RecordsSee(fields: seq<Field>, r: Run, nt: bool, bs: seq<byte>)
    requires WellFormed(fields) && DecodeRecords(fields, r, nt, bs).Got?
    ensures SeenExactly(fields, r.seen, ScannedTags(bs), DecodeRecords(fields, r, nt, bs).value.seen)
    decreases |bs|
  {
    hide DecodeKey, DecodeRecord, SkipField, WellFormed, RequiredBefore;
    if bs == [] {
      NoKeyInNothing();
    } else {
      var key := DecodeKey(bs);
      if key.value.tag != 0 {
        var p := DecodeRecord(fields, key.value, r, key.rest);
        RecordSees(fields, key.value, r, key.rest);
        RecordsSee(fields, p.value, nt, p.rest);
      }
    }
  }

  lemma NoKeyInNothing()
    ensures DecodeKey([]) == Bad
  {
  }

  // The index of a required field is the number of required fields in front of it.
  lemma {:induction false} RequiredBeforeCounts(fields: seq<Field>, i: nat)
    requires i <= |fields|
    ensures RequiredBefore(fields, i) == |set j | 0 <= j < i && fields[j].type_ / 16 % 4 == 0|
  {
    var s := set j | 0 <= j < i && fields[j].type_ / 16 % 4 == 0;
    if i == 0 {
      assert s == {};
    } else {
      RequiredBeforeCounts(fields, i - 1);
      var t := set j | 0 <= j < i - 1 && fields[j].type_ / 16 % 4 == 0;
      assert s == if fields[i - 1].type_ / 16 % 4 == 0 then t + {i - 1} else t;
    }
  }

  // Provided that every record decodes and no fixed-count array is short, a message is accepted
  // exactly when there is a record for each required field with an index below 64.
  lemma AcceptedIffRequiredPresent(fields: seq<Field>, m: Msg, nt: bool, bs: seq<byte>)
    requires WellFormed(fields)
    requires DecodeRecords(fields, Start(m), nt, bs).Got?
    requires FixedDone(fields, DecodeRecords(fields, Start(m), nt, bs).value)
    ensures DecodeMessage(fields, m, nt, bs).Got? <==>
      forall i | 0 <= i < |fields| ::
        HType(fields[i].type_) == HTYPE_REQUIRED && RequiredBefore(fields, i) < 64 ==>
          fields[i].tag in ScannedTags(bs)
  {
    hide DecodeRecords, FixedDone, ScannedTags, WellFormed, RequiredBefore;
    RecordsSee(fields, Start(m), nt, bs);
  }

  // --- Arrays never outgrow their storage

  ghost predicate ArraysFit(fields: seq<Field>, m: Msg) {
    forall i | 0 <= i < |fields| ::
      HType(fields[i].type_) == HTYPE_REPEATED && fields[i].dataOffset in m.slots ==>
        |Elements(m.slots[fields[i].dataOffset])| <= fields[i].arraySize
  }

  ghost predicate Bounded(fields: seq<Field>, r: Run) {
    && ArraysFit(fields, r.msg)
    && (r.fixedField.Some? && r.fixedField.value < |fields| ==> r.fixedSize <= fields[r.fixedField.value].arraySize)
  }

  lemma {:induction false} PackedLeftBound(f: Field, a: Array, bs: seq<byte>)
    requires |a.vs| <= f.arraySize && a.k <= f.arraySize
    ensures |PackedLeft(f, a, bs).vs| <= f.arraySize && PackedLeft(f, a, bs).k <= f.arraySize
    ensures DecodePacked(f, a, bs).Got? ==> DecodePacked(f, a, bs).value == PackedLeft(f, a, bs)
    decreases if a.k < f.arraySize then f.arraySize - a.k else 0
  {
    hide DecodeScalar;
    if bs != [] && a.k < f.arraySize {
      var p := DecodeScalar(f, bs);
      if p.Got? {
        PackedLeftBound(f, StoreAt(f.arraySize, a, p.value), p.rest);
      }
    }
  }

  // Whatever a record holds, the elements of its array stay inside, and the count does too unless a
  // single element arrives when the array is full: it is then one more than the array has elements.
  // FieldLeaves tells that such a record is rejected.
  lemma ArrayLeftBound(f: Field, wireType: nat, a: Array, bs: seq<byte>)
    requires |a.vs| <= f.arraySize && a.k <= f.arraySize
    ensures var left := ArrayLeft(f, wireType, a, bs);
      && |left.vs| <= f.arraySize && left.k <= f.arraySize + 1
      && (left.k == f.arraySize + 1 <==>
            a.k == f.arraySize && CheckWireType(f, wireType) && !(wireType == WT_STRING && IsPackable(f)))
  {
    hide Prefixed, DecodeValue, PackedLeft, CheckWireType;
    if wireType == WT_STRING && IsPackable(f) && Prefixed(bs).Got? {
      PackedLeftBound(f, a, Prefixed(bs).value);
    }
  }

  // The elements that were there stay, and a rejected single element leaves just those.
  lemma {:induction false} EarlierElementsStay(f: Field, wireType: nat, a: Array, bs: seq<byte>)
    requires a.k <= |a.vs|
    ensures a.vs[..a.k] <= ArrayLeft(f, wireType, a, bs).vs
    ensures !(wireType == WT_STRING && IsPackable(f)) && (a.k >= f.arraySize || DecodeValue(f, bs).Bad?) ==>
      ArrayLeft(f, wireType, a, bs).vs == a.vs
  {
    hide Prefixed, DecodeValue, PackedLeft, CheckWireType;
    if wireType == WT_STRING && IsPackable(f) && Prefixed(bs).Got? {
      PackedLeftExtends(f, a, Prefixed(bs).value);
    }
  }

  lemma {:induction false} PackedLeftExtends(f: Field, a: Array, bs: seq<byte>)
    requires a.k <= |a.vs|
    ensures a.vs[..a.k] <= PackedLeft(f, a, bs).vs
    decreases if a.k < f.arraySize then f.arraySize - a.k else 0
  {
    hide DecodeScalar;
    if bs != [] && a.k < f.arraySize {
      var p := DecodeScalar(f, bs);
      if p.Got? {
        var a1 := StoreAt(f.arraySize, a, p.value);
        PackedLeftExtends(f, a1, p.rest);
        assert a1.vs[..a1.k][..a.k] == a.vs[..a.k];
      }
    }
  }

  lemma FieldLeaves(f: Field, wireType: nat, s: Slot, k: nat, bs: seq<byte>)
    requires HType(f.type_) == HTYPE_REPEATED && |Elements(s)| <= f.arraySize && k <= f.arraySize
    requires DecodeField(f, wireType, s, k, bs).Got?
    ensures var left := ArrayLeft(f, wireType, Array(Elements(s), k), bs);
      && left.k <= f.arraySize && DecodeField(f, wireType, s, k, bs).value == Stored(Many(left.vs), left.k)
  {
    hide Prefixed, DecodeValue, DecodePacked, PackedLeft;
    if wireType == WT_STRING && IsPackable(f) {
      PackedLeftBound(f, Array(Elements(s), k), Prefixed(bs).value);
    }
  }

  lemma FieldBound(f: Field, wireType: nat, s: Slot, k: nat, bs: seq<byte>)
    requires HType(f.type_) == HTYPE_REPEATED && |Elements(s)| <= f.arraySize && k <= f.arraySize
    requires DecodeField(f, wireType, s, k, bs).Got?
    ensures var st := DecodeField(f, wireType, s, k, bs).value;
      st.slot.Many? && |st.slot.vs| <= f.arraySize && st.k <= f.arraySize
  {
    hide DecodeField, ArrayLeft;
    FieldLeaves(f, wireType, s, k, bs);
    ArrayLeftBound(f, wireType, Array(Elements(s), k), bs);
  }

  lemma RecordBound(fields: seq<Field>, key: Key, r: Run, bs: seq<byte>)
    requires SeparateStorage(fields) && Bounded(fields, r) && DecodeRecord(fields, key, r, bs).Got?
    ensures Bounded(fields, DecodeRecord(fields, key, r, bs).value)
  {
    hide DecodeField, SkipField, Search;
    match Search(fields, key.tag)
    case None =>
    case Some(i) =>
      var f := fields[i];
      var s := r.msg.slots[f.dataOffset];
      if HType(f.type_) == HTYPE_REPEATED {
        FieldBound(f, key.wireType, s, if IsFixedCount(f) then Enter(i, r).fixedSize else |Elements(s)|, bs);
      }
  }

  lemma {:induction false} RecordsBound(fields: seq<Field>, r: Run, nt: bool, bs: seq<byte>)
    requires SeparateStorage(fields) && Bounded(fields, r) && DecodeRecords(fields, r, nt, bs).Got?
    ensures Bounded(fields, DecodeRecords(fields, r, nt, bs).value)
    ensures DecodeRecords(fields, r, nt, bs).value.msg == Reached(fields, r, bs)
    decreases |bs|
  {
    hide DecodeKey, DecodeRecord, SeparateStorage, Bounded;
    if bs == [] {
      RecordsEnd(fields, r, nt);
    } else {
      var key := DecodeKey(bs);
      if key.value.tag != 0 {
        var p := DecodeRecord(fields, key.value, r, key.rest);
        RecordBound(fields, key.value, r, key.rest);
        RecordsBound(fields, p.value, nt, p.rest);
      }
    }
  }

  lemma KnownLeftBound(fields: seq<Field>, i: nat, wireType: nat, r: Run, bs: seq<byte>)
    requires SeparateStorage(fields) && Bounded(fields, r) && i < |fields|
    ensures ArraysFit(fields, KnownLeft(fields, i, wireType, r, bs))
  {
    hide ArrayLeft;
    var f := fields[i];
    if HType(f.type_) == HTYPE_REPEATED && f.dataOffset in r.msg.slots {
      var vs := Elements(r.msg.slots[f.dataOffset]);
      ArrayLeftBound(f, wireType, Array(vs, if IsFixedCount(f) then Enter(i, r).fixedSize else |vs|), bs);
    }
  }

  // Whatever the bytes are, accepted or not, at the end or at the record that is rejected no array of
  // the message has more elements than its storage.
  lemma {:induction false} ReachedBound(fields: seq<Field>, r: Run, bs: seq<byte>)
    requires SeparateStorage(fields) && Bounded(fields, r)
    ensures ArraysFit(fields, Reached(fields, r, bs))
    decreases |bs|
  {
    hide DecodeRecord, SeparateStorage, Bounded, ArraysFit, KnownLeft, Search, Varint.Decode32;
    BoundedFits(fields, r);
    var key := DecodeKey(bs);
    if key.Got? && key.value.tag != 0 {
      var p := DecodeRecord(fields, key.value, r, key.rest);
      if p.Got? {
        RecordBound(fields, key.value, r, key.rest);
        ReachedBound(fields, p.value, p.rest);
      } else {
        var i := Search(fields, key.value.tag);
        if i.Some? {
          KnownLeftBound(fields, i.value, key.value.wireType, r, key.rest);
        }
      }
    }
  }

  lemma BoundedFits(fields: seq<Field>, r: Run)
    requires Bounded(fields, r)
    ensures ArraysFit(fields, r.msg)
  {
  }

  // In particular from an initialised structure.
  lemma DecodedArraysFit(fields: seq<Field>, bs: seq<byte>)
    requires SeparateStorage(fields)
    ensures ArraysFit(fields, Reached(fields, Start(Defaults(fields)), bs))
  {
    hide Reached, Defaults;
    forall i | 0 <= i < |fields|
      ensures Defaults(fields).slots[fields[i].dataOffset] == DefaultSlot(fields[i])
    {
      DefaultsWhole(fields, i);
    }
    ReachedBound(fields, Start(Defaults(fields)), bs);
  }
}
