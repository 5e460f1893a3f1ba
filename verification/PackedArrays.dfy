// A repeated number may arrive in packed chunks and in single records, in any mixture.
module PackedArrays {
  import opened Bytes
  import opened Descriptor
  import opened Message
  import opened OutputStream
  import opened InputStream
  import opened EncodeSpec
  import opened DecodeSpec
  import opened ScalarRoundTrip
  import opened RoundTrip
  import opened Structures
  import Varint

  datatype Chunk = Packed(vs: seq<Value>) | Single(v: Value)

  function Contents(c: Chunk): seq<Value> {
    match c
    case Packed(vs) => vs
    case Single(v) => [v]
  }

  function AllContents(cs: seq<Chunk>): seq<Value> {
    if cs == [] then [] else Contents(cs[0]) + AllContents(cs[1..])
  }

  function ChunkBytes(f: Field, c: Chunk): seq<byte> {
    match c
    case Packed(vs) =>
      TagBytes(WT_STRING, f.tag) + WithPrefix(if WirePackedAll(f, vs).Some? then WirePackedAll(f, vs).value else [])
    case Single(v) => if WireBasic(f, v).Some? then WireBasic(f, v).value else []
  }

  function AllBytes(f: Field, cs: seq<Chunk>): seq<byte> {
    if cs == [] then [] else ChunkBytes(f, cs[0]) + AllBytes(f, cs[1..])
  }

  ghost predicate HoldsChunks(f: Field, cs: seq<Chunk>) {
    forall c | c in cs :: |Contents(c)| < TWO_63 / 16 && forall v | v in Contents(c) :: HoldsValue(f, v)
  }

  // The elements vs stored behind the first a.k ones; what is there of an earlier array is overwritten.
  function Extended(a: Array, vs: seq<Value>): Array
    requires a.k <= |a.vs|
  {
    var n := a.k + |vs|;
    Array(a.vs[..a.k] + vs + (if n < |a.vs| then a.vs[n..] else []), n)
  }

  lemma ExtendNothing(a: Array)
    requires a.k <= |a.vs|
    ensures Extended(a, []) == a
  {
    assert a.vs[..a.k] + [] + a.vs[a.k..] == a.vs;
  }

  lemma ExtendTwice(a: Array, x: seq<Value>, y: seq<Value>)
    requires a.k <= |a.vs|
    ensures Extended(Extended(a, x), y) == Extended(a, x + y)
  {
    var b := Extended(a, x);
    assert b.vs[..b.k] == a.vs[..a.k] + x;
    assert b.k + |y| < |a.vs| ==> b.vs[b.k + |y|..] == a.vs[b.k + |y|..];
    assert (a.vs[..a.k] + x) + y == a.vs[..a.k] + (x + y);
  }

  lemma ExtendOne(size: nat, a: Array, v: Value)
    requires a.k <= |a.vs| && a.k < size
    ensures StoreAt(size, a, v) == Extended(a, [v])
  {
    if a.k < |a.vs| {
      assert a.vs[a.k := v] == a.vs[..a.k] + [v] + a.vs[a.k + 1..];
    } else {
      assert a.vs[..a.k] + [v] + [] == a.vs + [v];
    }
  }

  // The elements of a packed array as far as there is room for them.
  lemma {:induction false} PackedChunk(f: Field, a: Array, vs: seq<Value>)
    requires SizedRight(f) && IsPackable(f) && forall v | v in vs :: HoldsValue(f, v)
    requires a.k <= |a.vs| && a.k <= f.arraySize
    ensures WirePackedAll(f, vs).Some? && |vs| <= |WirePackedAll(f, vs).value| <= 10 * |vs|
    ensures var p := DecodePacked(f, a, WirePackedAll(f, vs).value);
      if a.k + |vs| <= f.arraySize then p == Got(Extended(a, vs), []) else p.Got? && p.rest != []
    decreases |vs|
  {
    hide WirePacked, DecodeScalar, HoldsValue, DecodePacked, SizedRight, Extended, StoreAt;
    if vs == [] {
      Full(f, a, []);
      ExtendNothing(a);
    } else {
      var rest := WirePackedAll(f, vs[1..]);
      PackedInverts(f, vs[0], if rest.Some? then rest.value else []);
      if a.k < f.arraySize {
        var a1 := Extended(a, [vs[0]]);
        ExtendedSize(a, [vs[0]]);
        PackedChunk(f, a1, vs[1..]);
        TakeOne(f, a, vs[0], WirePacked(f, vs[0]).value, rest.value);
        ExtendOne(f.arraySize, a, vs[0]);
        ExtendTwice(a, [vs[0]], vs[1..]);
        assert [vs[0]] + vs[1..] == vs;
      } else {
        PackedChunk(f, a, vs[1..]);
        Full(f, a, WirePacked(f, vs[0]).value + rest.value);
      }
    }
  }

  lemma ExtendedSize(a: Array, vs: seq<Value>)
    requires a.k <= |a.vs|
    ensures Extended(a, vs).k == a.k + |vs| && Extended(a, vs).k <= |Extended(a, vs).vs|
    ensures |Extended(a, vs).vs| == if a.k + |vs| < |a.vs| then |a.vs| else a.k + |vs|
  {
  }

  lemma TakeOne(f: Field, a: Array, v: Value, w: seq<byte>, rest: seq<byte>)
    requires a.k < f.arraySize && w != [] && DecodeScalar(f, w + rest) == Got(v, rest)
    ensures DecodePacked(f, a, w + rest) == DecodePacked(f, StoreAt(f.arraySize, a, v), rest)
  {
    hide DecodeScalar;
  }

  lemma Full(f: Field, a: Array, bs: seq<byte>)
    requires a.k >= f.arraySize || bs == []
    ensures DecodePacked(f, a, bs) == Got(a, bs)
  {
  }

  ghost predicate ScalarArray(fields: seq<Field>, i: nat) {
    WellFormed(fields) && i < |fields| && HType(fields[i].type_) == HTYPE_REPEATED && IsPackable(fields[i])
  }

  // A run in which field i holds an array with at most the elements it has room for. The elements of
  // a fixed-count array are counted anew when the decoder comes to it from another one.
  ghost predicate Ready(fields: seq<Field>, i: nat, r: Run)
    requires i < |fields|
  {
    && fields[i].dataOffset in r.msg.slots && r.msg.slots[fields[i].dataOffset].Many?
    && |r.msg.slots[fields[i].dataOffset].vs| <= fields[i].arraySize
    && (IsFixedCount(fields[i]) && r.fixedField == Some(i) ==>
          r.fixedSize <= |r.msg.slots[fields[i].dataOffset].vs|)
  }

  // No other fixed-count array is still incomplete.
  predicate MayEnter(fields: seq<Field>, i: nat, r: Run)
    requires i < |fields|
  {
    IsFixedCount(fields[i]) && r.fixedField != Some(i) ==> FixedDone(fields, r)
  }

  ghost function Current(fields: seq<Field>, i: nat, r: Run): (a: Array)
    requires i < |fields| && Ready(fields, i, r)
    ensures a.k <= |a.vs| <= fields[i].arraySize
  {
    var vs := r.msg.slots[fields[i].dataOffset].vs;
    Array(vs, if IsFixedCount(fields[i]) then Enter(i, r).fixedSize else |vs|)
  }

  // The run with the array a stored in field i.
  function With(fields: seq<Field>, i: nat, r: Run, a: Array): Run
    requires i < |fields|
  {
    var r1 := r.(msg := Msg(r.msg.slots[fields[i].dataOffset := Many(a.vs)]));
    if IsFixedCount(fields[i]) then r1.(fixedField := Some(i), fixedSize := a.k) else r1
  }

  // Decoding goes on with the elements vs stored, if there is room for them.
  ghost function Continued(
    fields: seq<Field>, i: nat, r: Run, vs: seq<Value>, nt: bool, tail: seq<byte>): Parse<Run>
    requires i < |fields| && Ready(fields, i, r)
  {
    if MayEnter(fields, i, r) && Current(fields, i, r).k + |vs| <= fields[i].arraySize
    then DecodeRecords(fields, With(fields, i, r, Extended(Current(fields, i, r), vs)), nt, tail)
    else Bad
  }

  lemma OneChunk(fields: seq<Field>, i: nat, r: Run, c: Chunk, nt: bool, tail: seq<byte>)
    requires ScalarArray(fields, i) && HoldsChunks(fields[i], [c]) && Ready(fields, i, r)
    ensures DecodeRecords(fields, r, nt, ChunkBytes(fields[i], c) + tail)
         == Continued(fields, i, r, Contents(c), nt, tail)
  {
    hide DecodeRecords, HoldsValue, ChunkBytes, WellFormed, Continued, Ready;
    FieldSized(fields, i);
    assert c in [c];
    match c
    case Packed(vs) =>
      assert forall v | v in vs :: v in Contents(c);
      PackedChunkRecord(fields, i, r, vs, nt, tail);
    case Single(v) =>
      assert v in Contents(c);
      SingleRecord(fields, i, r, v, nt, tail);
  }

  // What DecodeKnown makes of the record, by what DecodeField makes of it.
  lemma KnownArray(fields: seq<Field>, i: nat, wt: nat, r: Run, bs: seq<byte>)
    requires ScalarArray(fields, i) && Ready(fields, i, r)
    ensures var a := Current(fields, i, r);
      var p := DecodeField(fields[i], wt, Many(a.vs), a.k, bs);
      && (!MayEnter(fields, i, r) || p.Bad? ==> DecodeKnown(fields, i, wt, r, bs) == Bad)
      && (MayEnter(fields, i, r) && p.Got? && p.value.slot.Many? ==>
            DecodeKnown(fields, i, wt, r, bs) == Got(With(fields, i, r, Array(p.value.slot.vs, p.value.k)), p.rest))
  {
    hide DecodeField, WellFormed, FixedDone;
  }

  lemma PackedChunkRecord(fields: seq<Field>, i: nat, r: Run, vs: seq<Value>, nt: bool, tail: seq<byte>)
    requires ScalarArray(fields, i) && SizedRight(fields[i]) && Ready(fields, i, r)
    requires |vs| < TWO_63 / 16 && forall v | v in vs :: HoldsValue(fields[i], v)
    ensures DecodeRecords(fields, r, nt, ChunkBytes(fields[i], Packed(vs)) + tail)
         == Continued(fields, i, r, vs, nt, tail)
  {
    hide DecodeRecords, HoldsValue, TagBytes, WirePackedAll, DecodePacked, Prefixed, WithPrefix, WellFormed,
         DecodeKnown, Extended, With, Ready, MayEnter;
    var f, a := fields[i], Current(fields, i, r);
    PackedChunk(f, a, vs);
    ExtendedSize(a, vs);
    var data := WirePackedAll(f, vs).value;
    PrefixInverts(data, tail);
    KnownArray(fields, i, WT_STRING, r, WithPrefix(data) + tail);
    KnownRecord(fields, i, WT_STRING, r, nt, WithPrefix(data) + tail);
    assert ChunkBytes(f, Packed(vs)) + tail == TagBytes(WT_STRING, f.tag) + (WithPrefix(data) + tail);
  }

  lemma SingleRecord(fields: seq<Field>, i: nat, r: Run, v: Value, nt: bool, tail: seq<byte>)
    requires ScalarArray(fields, i) && SizedRight(fields[i]) && HoldsValue(fields[i], v) && Ready(fields, i, r)
    ensures DecodeRecords(fields, r, nt, ChunkBytes(fields[i], Single(v)) + tail)
         == Continued(fields, i, r, [v], nt, tail)
  {
    hide DecodeRecords, HoldsValue, TagBytes, WireValue, DecodeScalar, WellFormed, DecodeKnown, Extended, With, Ready,
         MayEnter, StoreAt;
    var f, a := fields[i], Current(fields, i, r);
    SingleWire(f, v);
    ScalarInverts(f, v, tail);
    ExtendedSize(a, [v]);
    var wt, w := WireTypeOf(f).value, WireValue(f, v).value;
    WireTypeChecks(f);
    KnownRecord(fields, i, wt, r, nt, w + tail);
    KnownArray(fields, i, wt, r, w + tail);
    assert ChunkBytes(f, Single(v)) + tail == TagBytes(wt, f.tag) + (w + tail);
    if a.k < f.arraySize {
      ExtendOne(f.arraySize, a, v);
    }
  }

  lemma FieldSized(fields: seq<Field>, i: nat)
    requires WellFormed(fields) && i < |fields|
    ensures SizedRight(fields[i])
  {
  }

  lemma SingleWire(f: Field, v: Value)
    requires SizedRight(f) && IsPackable(f) && HoldsValue(f, v)
    ensures WireTypeOf(f).Some? && WireTypeOf(f).value != WT_STRING && WireValue(f, v).Some? && !IsSubmsg(f.type_)
  {
  }

  // Any mixture of chunks decodes to the concatenation of their elements, in order, as long as the
  // array has room for all of them; otherwise decoding fails.
  lemma {:induction false} ChunksConcatenate(
    fields: seq<Field>, i: nat, r: Run, cs: seq<Chunk>, nt: bool, tail: seq<byte>)
    requires i < |fields| && ScalarArray(fields, i) && HoldsChunks(fields[i], cs) && Ready(fields, i, r)
    ensures DecodeRecords(fields, r, nt, AllBytes(fields[i], cs) + tail)
         == if cs == [] then DecodeRecords(fields, r, nt, tail)
            else Continued(fields, i, r, AllContents(cs), nt, tail)
    decreases |cs|
  {
    hide *;
    if cs == [] {
      NoChunks(fields[i], tail);
    } else {
      var f := fields[i];
      var c, rest := cs[0], cs[1..];
      ChunksSplit(f, cs);
      var bytes, others, contents, more := ChunkBytes(f, c), AllBytes(f, rest), Contents(c), AllContents(rest);
      OneChunk(fields, i, r, c, nt, others + tail);
      assert (bytes + others) + tail == bytes + (others + tail);
      ContinuedTwice(fields, i, r, contents, more, nt, others + tail, tail);
      if rest == [] {
        NoChunks(f, tail);
        assert contents + more == contents;
      } else if MayEnter(fields, i, r) && Current(fields, i, r).k + |contents| <= f.arraySize {
        ChunksConcatenate(fields, i, With(fields, i, r, Extended(Current(fields, i, r), contents)), rest, nt, tail);
      }
    }
  }

  lemma NoChunks(f: Field, tail: seq<byte>)
    ensures AllBytes(f, []) + tail == tail && AllContents([]) == []
  {
    assert [] + tail == tail;
  }

  lemma ChunksSplit(f: Field, cs: seq<Chunk>)
    requires cs != [] && HoldsChunks(f, cs)
    ensures HoldsChunks(f, [cs[0]]) && HoldsChunks(f, cs[1..])
    ensures AllBytes(f, cs) == ChunkBytes(f, cs[0]) + AllBytes(f, cs[1..])
    ensures AllContents(cs) == Contents(cs[0]) + AllContents(cs[1..])
  {
    hide HoldsValue, ChunkBytes, Contents;
    assert cs[0] in cs && forall d | d in cs[1..] :: d in cs;
  }

  lemma ContinuedTwice(
    fields: seq<Field>, i: nat, r: Run, x: seq<Value>, y: seq<Value>, nt: bool, behind: seq<byte>, tail: seq<byte>)
    requires i < |fields| && Ready(fields, i, r)
    ensures Continued(fields, i, r, x, nt, behind)
         == if MayEnter(fields, i, r) && Current(fields, i, r).k + |x| <= fields[i].arraySize
            then DecodeRecords(fields, With(fields, i, r, Extended(Current(fields, i, r), x)), nt, behind)
            else Bad
    ensures MayEnter(fields, i, r) && Current(fields, i, r).k + |x| <= fields[i].arraySize ==>
      var r1 := With(fields, i, r, Extended(Current(fields, i, r), x));
      Ready(fields, i, r1) && Continued(fields, i, r1, y, nt, tail) == Continued(fields, i, r, x + y, nt, tail)
    ensures !(MayEnter(fields, i, r) && Current(fields, i, r).k + |x| <= fields[i].arraySize) ==>
      Continued(fields, i, r, x + y, nt, tail) == Bad
  {
    hide DecodeRecords, Extended, FixedDone;
    var f, a := fields[i], Current(fields, i, r);
    if MayEnter(fields, i, r) && a.k + |x| <= f.arraySize {
      ExtendedSize(a, x);
      ExtendTwice(a, x, y);
      var b := Extended(a, x);
      WithAgain(fields, i, r, b, Extended(b, y));
      assert Current(fields, i, With(fields, i, r, b)) == b;
    }
  }

  lemma WithAgain(fields: seq<Field>, i: nat, r: Run, a: Array, b: Array)
    requires i < |fields|
    ensures var r1 := With(fields, i, r, a);
      && fields[i].dataOffset in r1.msg.slots && r1.msg.slots[fields[i].dataOffset] == Many(a.vs)
      && With(fields, i, r1, b) == With(fields, i, r, b)
  {
    var off := fields[i].dataOffset;
    assert r.msg.slots[off := Many(a.vs)][off := Many(b.vs)] == r.msg.slots[off := Many(b.vs)];
  }

  // A message of nothing but the chunks of one array is accepted exactly when they fit, and when they
  // fill the array if its count is not stored.
  lemma ChunksAccepted(fields: seq<Field>, i: nat, cs: seq<Chunk>)
    requires i < |fields| && ScalarArray(fields, i) && HoldsChunks(fields[i], cs) && cs != []
    requires AllRequiredSeen(fields, {})
    ensures var f, vs := fields[i], AllContents(cs);
      DecodeMessage(fields, Defaults(fields), false, AllBytes(f, cs))
      == if (if f.sizeOffset == 0 then |vs| == f.arraySize else |vs| <= f.arraySize)
         then Got(Msg(Defaults(fields).slots[f.dataOffset := Many(vs)]), [])
         else Bad
  {
    hide DecodeRecords, AllRequiredSeen, Defaults, WellFormed, HoldsChunks, AllBytes, AllContents, Continued, Ready;
    var f, vs, r := fields[i], AllContents(cs), Start(Defaults(fields));
    ReadyAtStart(fields, i);
    ChunksConcatenate(fields, i, r, cs, false, []);
    assert AllBytes(f, cs) + [] == AllBytes(f, cs);
    ContinuedToEnd(fields, i, vs);
  }

  lemma ReadyAtStart(fields: seq<Field>, i: nat)
    requires WellFormed(fields) && i < |fields| && HType(fields[i].type_) == HTYPE_REPEATED
    ensures var r := Start(Defaults(fields));
      Ready(fields, i, r) && MayEnter(fields, i, r) && Current(fields, i, r) == Array([], 0)
  {
    hide Defaults;
    FieldsApart(fields);
    DefaultsWhole(fields, i);
  }

  lemma ContinuedToEnd(fields: seq<Field>, i: nat, vs: seq<Value>)
    requires WellFormed(fields) && i < |fields| && HType(fields[i].type_) == HTYPE_REPEATED
    ensures Ready(fields, i, Start(Defaults(fields)))
    ensures var r1 := With(fields, i, Start(Defaults(fields)), Array(vs, |vs|));
      && Continued(fields, i, Start(Defaults(fields)), vs, false, [])
         == (if |vs| <= fields[i].arraySize then Got(r1, []) else Bad)
      && (FixedDone(fields, r1) <==> IsFixedCount(fields[i]) ==> |vs| == fields[i].arraySize)
  {
    hide Defaults, DecodeRecords, WellFormed;
    ReadyAtStart(fields, i);
    var a := Extended(Array([], 0), vs);
    assert a.vs == vs;
    RecordsEnd(fields, With(fields, i, Start(Defaults(fields)), a), false);
  }

  // --- What a packed array leaves behind that breaks off

  // The elements in front of the first malformed one are kept, as far as there is room for them.
  lemma {:induction false} BrokenChunk(f: Field, a: Array, vs: seq<Value>, bad: seq<byte>)
    requires SizedRight(f) && IsPackable(f) && forall v | v in vs :: HoldsValue(f, v)
    requires a.k <= |a.vs| && a.k <= f.arraySize
    requires bad == [] || DecodeScalar(f, bad) == Bad
    ensures WirePackedAll(f, vs).Some?
    ensures PackedLeft(f, a, WirePackedAll(f, vs).value + bad)
         == Extended(a, if a.k + |vs| <= f.arraySize then vs else vs[..f.arraySize - a.k])
    ensures bad != [] ==>
      DecodePacked(f, a, WirePackedAll(f, vs).value + bad).Bad?
      || DecodePacked(f, a, WirePackedAll(f, vs).value + bad).rest != []
    decreases |vs|
  {
    hide WirePacked, DecodeScalar, HoldsValue, PackedLeft, DecodePacked, SizedRight, Extended, StoreAt;
    ExtendNothing(a);
    if vs == [] {
      LeftAtEnd(f, a, bad);
      assert [] + bad == bad;
    } else {
      BrokenChunk(f, a, vs[1..], bad);
      var w, rest := WirePacked(f, vs[0]), WirePackedAll(f, vs[1..]).value + bad;
      PackedInverts(f, vs[0], rest);
      assert WirePackedAll(f, vs).value + bad == w.value + rest;
      if a.k < f.arraySize {
        var a1 := Extended(a, [vs[0]]);
        ExtendedSize(a, [vs[0]]);
        var taken := if a1.k + |vs[1..]| <= f.arraySize then vs[1..] else vs[1..][..f.arraySize - a1.k];
        BrokenChunk(f, a1, vs[1..], bad);
        LeftOne(f, a, vs[0], w.value, rest);
        TakeOne(f, a, vs[0], w.value, rest);
        ExtendOne(f.arraySize, a, vs[0]);
        ExtendTwice(a, [vs[0]], taken);
        assert [vs[0]] + taken == if a.k + |vs| <= f.arraySize then vs else vs[..f.arraySize - a.k];
      } else {
        LeftAtEnd(f, a, w.value + rest);
      }
    }
  }

  lemma LeftAtEnd(f: Field, a: Array, bs: seq<byte>)
    requires a.k >= f.arraySize || bs == [] || DecodeScalar(f, bs) == Bad
    ensures PackedLeft(f, a, bs) == a
    ensures bs != [] ==> DecodePacked(f, a, bs).Bad? || DecodePacked(f, a, bs).rest != []
  {
  }

  lemma LeftOne(f: Field, a: Array, v: Value, w: seq<byte>, rest: seq<byte>)
    requires a.k < f.arraySize && w != [] && DecodeScalar(f, w + rest) == Got(v, rest)
    ensures PackedLeft(f, a, w + rest) == PackedLeft(f, StoreAt(f.arraySize, a, v), rest)
  {
    hide DecodeScalar;
  }

  function BrokenBytes(f: Field, vs: seq<Value>, bad: seq<byte>): seq<byte> {
    WithPrefix((if WirePackedAll(f, vs).Some? then WirePackedAll(f, vs).value else []) + bad)
  }

  // The message when decoding ends at such an array: only the array itself has changed, and not even
  // that when another array is still incomplete.
  lemma BrokenMessage(fields: seq<Field>, i: nat, r: Run, vs: seq<Value>, bad: seq<byte>, tail: seq<byte>)
    requires ScalarArray(fields, i) && Ready(fields, i, r)
    requires forall v | v in vs :: HoldsValue(fields[i], v)
    requires bad != [] && DecodeScalar(fields[i], bad) == Bad && |vs| < TWO_32 / 16 && |bad| < TWO_32 / 16
    ensures var f := fields[i];
      Reached(fields, r, TagBytes(WT_STRING, f.tag) + BrokenBytes(f, vs, bad) + tail)
      == if MayEnter(fields, i, r)
         then
           var a := Current(fields, i, r);
           var taken := if a.k + |vs| <= f.arraySize then vs else vs[..f.arraySize - a.k];
           With(fields, i, r, Extended(a, taken)).msg
         else r.msg
  {
    hide HoldsValue, WirePackedAll, DecodeScalar, WellFormed, Extended, PackedLeft, DecodePacked, WithPrefix, TagBytes,
         Reached, FixedDone, Ready, MayEnter, KnownLeft, DecodeKnown, With;
    var f, a := fields[i], Current(fields, i, r);
    FieldSized(fields, i);
    PackedChunk(f, a, vs);
    BrokenChunk(f, a, vs, bad);
    var data := WirePackedAll(f, vs).value + bad;
    PrefixInverts(data, tail);
    KnownArray(fields, i, WT_STRING, r, WithPrefix(data) + tail);
    ArrayKnownLeft(fields, i, r, WithPrefix(data) + tail);
    ReachedKnown(fields, i, WT_STRING, r, WithPrefix(data) + tail);
    assert TagBytes(WT_STRING, f.tag) + BrokenBytes(f, vs, bad) + tail
        == TagBytes(WT_STRING, f.tag) + (WithPrefix(data) + tail);
  }

  lemma ArrayKnownLeft(fields: seq<Field>, i: nat, r: Run, bs: seq<byte>)
    requires ScalarArray(fields, i) && Ready(fields, i, r) && Prefixed(bs).Got?
    ensures KnownLeft(fields, i, WT_STRING, r, bs)
         == if MayEnter(fields, i, r)
            then With(fields, i, r, PackedLeft(fields[i], Current(fields, i, r), Prefixed(bs).value)).msg
            else r.msg
  {
    hide WellFormed, FixedDone, PackedLeft, Prefixed;
  }

  // A record of a known field, when decoding may end at it.
  lemma ReachedKnown(fields: seq<Field>, i: nat, wireType: nat, r: Run, body: seq<byte>)
    requires WellFormed(fields) && i < |fields| && wireType < 8
    ensures Reached(fields, r, TagBytes(wireType, fields[i].tag) + body)
         == match DecodeKnown(fields, i, wireType, r, body)
            case Bad => KnownLeft(fields, i, wireType, r, body)
            case Got(r1, rest) => Reached(fields, r1, rest)
  {
    hide DecodeKnown, TagBytes, KnownLeft;
    KeyInverts(wireType, fields[i].tag, body);
    SearchFinds(fields, i);
  }

  lemma FieldsApart(fields: seq<Field>)
    requires WellFormed(fields)
    ensures SeparateStorage(fields)
  {
  }
}
