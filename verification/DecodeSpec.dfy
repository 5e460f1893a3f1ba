// What the decoder makes of a string of bytes.
module DecodeSpec {
  import opened Bytes
  import opened Descriptor
  import opened Message
  import opened InputStream
  import Varint

  const MAX_REQUIRED_FIELDS := 64

  predicate CheckWireType(f: Field, wireType: nat) {
    var t := LType(f.type_);
    if t == LTYPE_BOOL || t == LTYPE_VARINT || t == LTYPE_UVARINT || t == LTYPE_SVARINT then wireType == WT_VARINT
    else if t == LTYPE_FIXED32 then wireType == WT_32BIT
    else if t == LTYPE_FIXED64 then wireType == WT_64BIT
    else if t == LTYPE_BYTES || t == LTYPE_STRING || IsSubmsg(f.type_) || t == LTYPE_FIXED_LENGTH_BYTES then
      wireType == WT_STRING
    else false
  }

  // The number a varint stands for in a signed field, before it is cut down to the field's size:
  // fields of 32 bits and less keep only the low word of what was sent.
  function SignedOf(f: Field, value: uint64): int {
    if LType(f.type_) == LTYPE_SVARINT then Varint.UnZigZag(value)
    else if f.dataSize == 8 then Signed(value, TWO_64)
    else Signed(value, TWO_32)
  }

  // The stored number; a number that the field's size cannot hold is an error.
  function Clamped(f: Field, value: uint64): Option<int> {
    if !IntegerSize(f.dataSize) then None
    else if LType(f.type_) == LTYPE_UVARINT then
      if value < Span(f.dataSize) then Some(value) else None
    else
      var n := SignedOf(f, value);
      if -(Span(f.dataSize) / 2) <= n < Span(f.dataSize) / 2 then Some(n) else None
  }

  function UpToNul(data: seq<byte>): (s: seq<byte>)
    ensures |s| <= |data|
    ensures 0 !in s
  {
    if data == [] || data[0] == 0 then [] else [data[0]] + UpToNul(data[1..])
  }

  // The contents of one element that is not a submessage.
  function DecodeScalar(f: Field, bs: seq<byte>): (p: Parse<Value>)
    ensures p.Got? ==> |p.rest| <= |bs|
  {
    var t := LType(f.type_);
    if t == LTYPE_BOOL then
      match Varint.Decode32(bs)
      case Bad => Bad
      case Got(n, rest) => Got(Num(if n != 0 then 1 else 0), rest)
    else if t == LTYPE_VARINT || t == LTYPE_UVARINT || t == LTYPE_SVARINT then
      match Varint.Decode64(bs)
      case Bad => Bad
      case Got(n, rest) => if Clamped(f, n).None? then Bad else Got(Num(Clamped(f, n).value), rest)
    else if t == LTYPE_FIXED32 || t == LTYPE_FIXED64 then
      if f.dataSize != 4 && f.dataSize != 8 then Bad
      else
        match DecodeFixed(bs, f.dataSize)
        case Bad => Bad
        case Got(n, rest) => Got(Num(n), rest)
    else if t == LTYPE_BYTES then
      match Varint.Decode32(bs)
      case Bad => Bad
      case Got(size, rest) =>
        if size > 0xFFFF || size + 2 > f.dataSize || |rest| < size then Bad
        else Got(Blob(rest[..size]), rest[size..])
    else if t == LTYPE_STRING then
      match Varint.Decode32(bs)
      case Bad => Bad
      case Got(size, rest) =>
        if size == TWO_32 - 1 || size + 1 > f.dataSize || |rest| < size then Bad
        else Got(Text(UpToNul(rest[..size])), rest[size..])
    else if t == LTYPE_FIXED_LENGTH_BYTES then
      match Varint.Decode32(bs)
      case Bad => Bad
      case Got(size, rest) =>
        if size > 0xFFFF then Bad
        else if size == 0 then Got(Inline(Zeros(f.dataSize)), rest)
        else if size != f.dataSize || |rest| < size then Bad
        else Got(Inline(rest[..size]), rest[size..])
    else Bad
  }

  // An array that is being received: its elements and the number of those received.
  datatype Array = Array(vs: seq<Value>, k: nat)

  // Storing the next element of an array of that size. There has to be room for it.
  function StoreAt(size: nat, a: Array, v: Value): (r: Array)
    requires a.k < size
    ensures r.k == a.k + 1 && |r.vs| == if a.k < |a.vs| then |a.vs| else |a.vs| + 1
  {
    Array(if a.k < |a.vs| then a.vs[a.k := v] else a.vs + [v], a.k + 1)
  }

  // The loop over a packed array: it stops at the end of the data or of the array.
  function DecodePacked(f: Field, a: Array, bs: seq<byte>): (p: Parse<Array>)
    decreases |bs|, if a.k < f.arraySize then f.arraySize - a.k else 0
  {
    if bs == [] || a.k >= f.arraySize then Got(a, bs)
    else
      match DecodeScalar(f, bs)
      case Bad => Bad
      case Got(v, rest) => DecodePacked(f, StoreAt(f.arraySize, a, v), rest)
  }

  datatype Stored = Stored(slot: Slot, k: nat)

  // One record of a known field. k is the number of elements the array has received so far.
  function DecodeField(f: Field, wireType: nat, s: Slot, k: nat, bs: seq<byte>): (p: Parse<Stored>)
    ensures p.Got? ==> |p.rest| <= |bs|
    decreases f, |bs|, 1
  {
    if HType(f.type_) == HTYPE_REPEATED && wireType == WT_STRING && IsPackable(f) then
      match Prefixed(bs)
      case Bad => Bad
      case Got(payload, rest) =>
        match DecodePacked(f, Array(Elements(s), k), payload)
        case Bad => Bad
        case Got(a, left) => if left != [] then Bad else Got(Stored(Many(a.vs), a.k), rest)
    else if !CheckWireType(f, wireType) then Bad
    else if HType(f.type_) == HTYPE_REPEATED && k >= f.arraySize then Bad
    else
      match DecodeValue(f, bs)
      case Bad => Bad
      case Got(v, rest) =>
        if HType(f.type_) == HTYPE_REPEATED then
          var a := StoreAt(f.arraySize, Array(Elements(s), k), v);
          Got(Stored(Many(a.vs), a.k), rest)
        else if HType(f.type_) == HTYPE_ONEOF then Got(Stored(Union(Some(Member(f.tag, v))), k), rest)
        else if HasFlag(f) then Got(Stored(Opt(Some(v)), k), rest)
        else Got(Stored(One(v), k), rest)
  }

  function Elements(s: Slot): seq<Value> {
    if s.Many? then s.vs else []
  }

  function DecodeValue(f: Field, bs: seq<byte>): (p: Parse<Value>)
    ensures p.Got? ==> |p.rest| <= |bs|
    decreases f, |bs|, 0
  {
    if IsSubmsg(f.type_) then
      match Prefixed(bs)
      case Bad => Bad
      case Got(payload, rest) =>
        match DecodeMessage(f.sub, Defaults(f.sub), false, payload)
        case Bad => Bad
        case Got(m, _) => Got(Sub(m), rest)
    else DecodeScalar(f, bs)
  }

  // The decoder between two records: the structure, the required fields seen so far and the
  // fixed-count array being received.
  datatype Run = Run(msg: Msg, seen: set<nat>, fixedField: Option<nat>, fixedSize: nat)

  // The fixed-count array that was being received has all of its elements.
  predicate FixedDone(fields: seq<Field>, r: Run) {
    r.fixedField.Some? && r.fixedField.value < |fields| ==>
      r.fixedSize == fields[r.fixedField.value].arraySize
  }

  function Enter(i: nat, r: Run): Run {
    if r.fixedField == Some(i) then r else r.(fixedField := Some(i), fixedSize := 0)
  }

  function See(fields: seq<Field>, i: nat, r: Run): Run
    requires i < |fields|
  {
    if HType(fields[i].type_) == HTYPE_REQUIRED && RequiredBefore(fields, i) < MAX_REQUIRED_FIELDS then
      r.(seen := r.seen + {RequiredBefore(fields, i)})
    else r
  }

  // The record of field i, behind its tag.
  function DecodeKnown(fields: seq<Field>, i: nat, wireType: nat, r: Run, bs: seq<byte>): (p: Parse<Run>)
    requires i < |fields|
    ensures p.Got? ==> |p.rest| <= |bs|
    decreases fields, |bs|, 0
  {
    var f := fields[i];
    if f.dataOffset !in r.msg.slots then Bad
    else if IsFixedCount(f) then
      if r.fixedField != Some(i) && !FixedDone(fields, r) then Bad
      else
        var r1 := Enter(i, r);
        match DecodeField(f, wireType, r.msg.slots[f.dataOffset], r1.fixedSize, bs)
        case Bad => Bad
        case Got(st, rest) =>
          Got(r1.(msg := Msg(r.msg.slots[f.dataOffset := st.slot]), fixedSize := st.k), rest)
    else
      match DecodeField(f, wireType, r.msg.slots[f.dataOffset], |Elements(r.msg.slots[f.dataOffset])|, bs)
      case Bad => Bad
      case Got(st, rest) =>
        Got(See(fields, i, r).(msg := Msg(r.msg.slots[f.dataOffset := st.slot])), rest)
  }

  function DecodeRecord(fields: seq<Field>, key: Key, r: Run, bs: seq<byte>): (p: Parse<Run>)
    ensures p.Got? ==> |p.rest| <= |bs|
    decreases fields, |bs|, 1
  {
    match Search(fields, key.tag)
    case Some(i) => DecodeKnown(fields, i, key.wireType, r, bs)
    case None =>
      match SkipField(key.wireType, bs)
      case Bad => Bad
      case Got(_, rest) => Got(r, rest)
  }

  // Records up to the end of the bytes, or up to a zero tag if the message may end with one.
  function DecodeRecords(fields: seq<Field>, r: Run, nullTerminated: bool, bs: seq<byte>): (p: Parse<Run>)
    ensures p.Got? ==> |p.rest| <= |bs|
    decreases fields, |bs|, 2
  {
    if bs == [] then Got(r, [])
    else
      match DecodeKey(bs)
      case Bad => Bad
      case Got(key, rest) =>
        if key.tag == 0 then (if nullTerminated then Got(r, rest) else Bad)
        else
          match DecodeRecord(fields, key, r, rest)
          case Bad => Bad
          case Got(r1, rest1) => DecodeRecords(fields, r1, nullTerminated, rest1)
  }

  lemma RecordsEnd(fields: seq<Field>, r: Run, nt: bool)
    ensures DecodeRecords(fields, r, nt, []) == Got(r, [])
    ensures Reached(fields, r, []) == r.msg
  {
  }

  predicate AllRequiredSeen(fields: seq<Field>, seen: set<nat>) {
    forall i | 0 <= i < |fields| ::
      HType(fields[i].type_) == HTYPE_REQUIRED && RequiredBefore(fields, i) < MAX_REQUIRED_FIELDS ==>
        RequiredBefore(fields, i) in seen
  }

  function Start(m: Msg): Run { Run(m, {}, None, 0) }

  function DecodeMessage(fields: seq<Field>, m: Msg, nullTerminated: bool, bs: seq<byte>): (p: Parse<Msg>)
    ensures p.Got? ==> |p.rest| <= |bs|
    decreases fields, |bs|, 3
  {
    match DecodeRecords(fields, Start(m), nullTerminated, bs)
    case Bad => Bad
    case Got(r, rest) =>
      if FixedDone(fields, r) && AllRequiredSeen(fields, r.seen) then Got(r.msg, rest) else Bad
  }

  // --- What is left behind, whether decoding succeeds or not

  // The loop over a packed array again: where it stops.
  function PackedLeft(f: Field, a: Array, bs: seq<byte>): Array
    decreases |bs|, if a.k < f.arraySize then f.arraySize - a.k else 0
  {
    if bs == [] || a.k >= f.arraySize then a
    else
      match DecodeScalar(f, bs)
      case Bad => a
      case Got(v, rest) => PackedLeft(f, StoreAt(f.arraySize, a, v), rest)
  }

  // What a record of a repeated field leaves of the array: the elements that are complete, and the
  // count. The count is raised before it is compared with the size of the array and before the
  // element is read.
  function ArrayLeft(f: Field, wireType: nat, a: Array, bs: seq<byte>): Array {
    if wireType == WT_STRING && IsPackable(f) then
      match Prefixed(bs)
      case Bad => a
      case Got(payload, _) => PackedLeft(f, a, payload)
    else if !CheckWireType(f, wireType) then a
    else if a.k < f.arraySize && DecodeValue(f, bs).Got? then StoreAt(f.arraySize, a, DecodeValue(f, bs).value)
    else a.(k := a.k + 1)
  }

  // What a rejected record of field i leaves of the arrays of the message.
  function KnownLeft(fields: seq<Field>, i: nat, wireType: nat, r: Run, bs: seq<byte>): Msg
    requires i < |fields|
  {
    var f := fields[i];
    if HType(f.type_) != HTYPE_REPEATED || f.dataOffset !in r.msg.slots then r.msg
    else if IsFixedCount(f) && r.fixedField != Some(i) && !FixedDone(fields, r) then r.msg
    else
      var vs := Elements(r.msg.slots[f.dataOffset]);
      var left := ArrayLeft(f, wireType, Array(vs, if IsFixedCount(f) then Enter(i, r).fixedSize else |vs|), bs);
      Msg(r.msg.slots[f.dataOffset := Many(left.vs)])
  }

  // The message when decoding ends, be it at a record that is rejected.
  function Reached(fields: seq<Field>, r: Run, bs: seq<byte>): Msg
    decreases |bs|
  {
    match DecodeKey(bs)
    case Bad => r.msg
    case Got(key, rest) =>
      if key.tag == 0 then r.msg
      else
        match DecodeRecord(fields, key, r, rest)
        case Got(r1, rest1) => Reached(fields, r1, rest1)
        case Bad =>
          match Search(fields, key.tag)
          case None => r.msg
          case Some(i) => KnownLeft(fields, i, key.wireType, r, rest)
  }
}
