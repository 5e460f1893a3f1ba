// Decoding inverts encoding for everything but submessages.
module ScalarRoundTrip {
  import opened Bytes
  import opened Descriptor
  import opened Message
  import opened OutputStream
  import opened InputStream
  import opened EncodeSpec
  import opened DecodeSpec
  import Varint

  // The sizes that go with each type of number.
  predicate SizedRight(f: Field) {
    var t := LType(f.type_);
    && Fits(f)
    && (t == LTYPE_BOOL ==> f.dataSize == 1)
    && (t == LTYPE_VARINT || t == LTYPE_UVARINT || t == LTYPE_SVARINT ==> IntegerSize(f.dataSize))
    && (t == LTYPE_FIXED32 ==> f.dataSize == 4)
    && (t == LTYPE_FIXED64 ==> f.dataSize == 8)
  }

  lemma {:induction false} LittleEndianInverts(n: nat, k: nat)
    requires n < Pow2(8 * k)
    ensures FromLittleEndian(LittleEndian(n, k)) == n
  {
    if k > 0 {
      Pow2Byte(k);
      assert n / 256 < Pow2(8 * (k - 1));
      LittleEndianInverts(n / 256, k - 1);
      assert LittleEndian(n, k)[1..] == LittleEndian(n / 256, k - 1);
    }
  }

  lemma Pow2Byte(k: nat)
    requires k > 0
    ensures Pow2(8 * k) == 256 * Pow2(8 * (k - 1))
  {
    Pow2Sum(8, 8 * (k - 1));
    assert Pow2(8) == 256;
  }

  lemma Pow2Words()
    ensures Pow2(32) == TWO_32 && Pow2(64) == TWO_64
  {
    assert Pow2(8) == 256;
    Pow2Sum(8, 8);
    Pow2Sum(16, 16);
    Pow2Sum(32, 32);
  }

  lemma FixedInverts(n: nat, size: nat, tail: seq<byte>)
    requires (size == 4 && n < TWO_32) || (size == 8 && n < TWO_64)
    ensures DecodeFixed(LittleEndian(n, size) + tail, size) == Got(n, tail)
  {
    Pow2Words();
    LittleEndianInverts(n, size);
    var w := LittleEndian(n, size);
    assert (w + tail)[..size] == w && (w + tail)[size..] == tail;
  }

  // What a stored integer becomes on the wire and back.
  lemma ClampedInverts(f: Field, v: Value)
    requires LType(f.type_) == LTYPE_VARINT || LType(f.type_) == LTYPE_UVARINT || LType(f.type_) == LTYPE_SVARINT
    requires IntegerSize(f.dataSize) && HoldsValue(f, v)
    ensures VarintOf(f, v.n) < TWO_64
    ensures Clamped(f, VarintOf(f, v.n)) == Some(v.n)
  {
    if LType(f.type_) == LTYPE_SVARINT {
      Varint.UnZigZagInverts(v.n);
    } else if LType(f.type_) == LTYPE_VARINT {
      SignExtension(v.n, f.dataSize);
    }
  }

  lemma SignExtension(n: int, size: nat)
    requires IntegerSize(size) && -(Span(size) / 2) <= n < Span(size) / 2
    ensures Signed(n % TWO_64, TWO_64) == n
    ensures size < 8 ==> Signed(n % TWO_64, TWO_32) == n
  {
    assert n % TWO_64 == if n < 0 then n + TWO_64 else n;
    if size < 8 {
      assert (n + TWO_64) % TWO_32 == n % TWO_32;
      assert n % TWO_32 == if n < 0 then n + TWO_32 else n;
    }
  }

  lemma PrefixInverts(data: seq<byte>, tail: seq<byte>)
    requires |data| < TWO_63
    ensures Prefixed(WithPrefix(data) + tail) == if |data| < TWO_32 then Got(data, tail) else Bad
    ensures |data| < TWO_32 ==> Varint.Decode32(WithPrefix(data) + tail) == Got(|data|, data + tail)
  {
    hide Varint.Encode, Varint.Decode32;
    Varint.Decode32OfEncode(|data|, data + tail);
    assert WithPrefix(data) + tail == Varint.Encode(|data|) + (data + tail);
    assert (data + tail)[..|data|] == data && (data + tail)[|data|..] == tail;
  }

  lemma {:induction false} UpToNulOfChars(s: seq<byte>)
    requires 0 !in s
    ensures UpToNul(s) == s
  {
    if s != [] {
      UpToNulOfChars(s[1..]);
    }
  }

  lemma VarintInverts(f: Field, v: Value, tail: seq<byte>)
    requires SizedRight(f) && HoldsValue(f, v)
    requires LType(f.type_) == LTYPE_BOOL || LType(f.type_) == LTYPE_VARINT || LType(f.type_) == LTYPE_UVARINT
      || LType(f.type_) == LTYPE_SVARINT
    ensures WireVarint(f, v).Some? && |WireVarint(f, v).value| <= 10
    ensures DecodeScalar(f, WireVarint(f, v).value + tail) == Got(v, tail)
  {
    if LType(f.type_) == LTYPE_BOOL {
      Varint.Decode32OfEncode(v.n, tail);
      Varint.EncodeAtMostTen(v.n);
    } else {
      ClampedInverts(f, v);
      Varint.Decode64Inverts(VarintOf(f, v.n), tail);
      Varint.EncodeAtMostTen(VarintOf(f, v.n));
    }
  }

  lemma BytesInvert(f: Field, v: Value, tail: seq<byte>)
    requires SizedRight(f) && HoldsValue(f, v) && WireValue(f, v).Some?
    requires LType(f.type_) == LTYPE_BYTES || LType(f.type_) == LTYPE_STRING
      || LType(f.type_) == LTYPE_FIXED_LENGTH_BYTES
    ensures DecodeScalar(f, WireValue(f, v).value + tail) == Got(v, tail)
  {
    hide Varint.Decode32, Varint.Encode;
    var data := if v.Text? then v.chars else v.data;
    PrefixInverts(data, tail);
    assert (data + tail)[..|data|] == data && (data + tail)[|data|..] == tail;
    if LType(f.type_) == LTYPE_STRING {
      UpToNulOfChars(data);
    } else if LType(f.type_) == LTYPE_FIXED_LENGTH_BYTES && f.dataSize == 0 {
      assert data == Zeros(0);
    }
  }

  // Reading back one element that is not a submessage, whatever follows it.
  lemma ScalarInverts(f: Field, v: Value, tail: seq<byte>)
    requires SizedRight(f) && HoldsValue(f, v) && !IsSubmsg(f.type_) && WireValue(f, v).Some?
    ensures DecodeScalar(f, WireValue(f, v).value + tail) == Got(v, tail)
  {
    hide Varint.Decode32, Varint.Encode, Varint.Decode64;
    var t := LType(f.type_);
    if t == LTYPE_BOOL {
      Varint.Decode32OfEncode(v.n, tail);
    } else if t == LTYPE_VARINT || t == LTYPE_UVARINT || t == LTYPE_SVARINT {
      VarintInverts(f, v, tail);
    } else if t == LTYPE_FIXED32 || t == LTYPE_FIXED64 {
      FixedInverts(v.n, f.dataSize, tail);
    } else {
      BytesInvert(f, v, tail);
    }
  }

  // The elements of a packed array are written and read by other routines than single values.
  lemma PackedInverts(f: Field, v: Value, tail: seq<byte>)
    requires SizedRight(f) && HoldsValue(f, v) && IsPackable(f)
    ensures WirePacked(f, v).Some? && 0 < |WirePacked(f, v).value| <= 10
    ensures DecodeScalar(f, WirePacked(f, v).value + tail) == Got(v, tail)
  {
    hide Varint.Decode32, Varint.Encode, Varint.Decode64;
    if LType(f.type_) == LTYPE_FIXED32 || LType(f.type_) == LTYPE_FIXED64 {
      FixedInverts(v.n, f.dataSize, tail);
    } else {
      VarintInverts(f, v, tail);
    }
  }

  // A packed array is read back behind the elements that are there already.
  lemma {:induction false} PackedAllInverts(f: Field, before: seq<Value>, vs: seq<Value>)
    requires SizedRight(f) && IsPackable(f) && forall i | 0 <= i < |vs| :: HoldsValue(f, vs[i])
    requires |before| + |vs| <= f.arraySize
    ensures WirePackedAll(f, vs).Some? && |vs| <= |WirePackedAll(f, vs).value| <= 10 * |vs|
    ensures DecodePacked(f, Array(before, |before|), WirePackedAll(f, vs).value)
         == Got(Array(before + vs, |before| + |vs|), [])
    decreases |vs|
  {
    hide WirePacked, DecodeScalar, HoldsValue, DecodePacked, SizedRight;
    if vs == [] {
      PackedEnd(f, before);
      assert before + vs == before;
    } else {
      PackedAllInverts(f, before + [vs[0]], vs[1..]);
      var rest := WirePackedAll(f, vs[1..]).value;
      PackedInverts(f, vs[0], rest);
      PackedStep(f, before, vs, rest);
    }
  }

  lemma PackedEnd(f: Field, before: seq<Value>)
    ensures DecodePacked(f, Array(before, |before|), []) == Got(Array(before, |before|), [])
  {
  }

  lemma PackedStep(f: Field, before: seq<Value>, vs: seq<Value>, rest: seq<byte>)
    requires vs != [] && |before| < f.arraySize
    requires WirePacked(f, vs[0]).Some? && WirePacked(f, vs[0]).value != []
    requires DecodeScalar(f, WirePacked(f, vs[0]).value + rest) == Got(vs[0], rest)
    requires DecodePacked(f, Array(before + [vs[0]], |before + [vs[0]]|), rest)
          == Got(Array(before + [vs[0]] + vs[1..], |before| + |vs|), [])
    ensures DecodePacked(f, Array(before, |before|), WirePacked(f, vs[0]).value + rest)
         == Got(Array(before + vs, |before| + |vs|), [])
  {
    hide WirePacked, DecodeScalar, StoreAt;
    StoredBehind(f.arraySize, before, vs[0]);
    assert before + [vs[0]] + vs[1..] == before + vs;
  }

  lemma StoredBehind(size: nat, before: seq<Value>, v: Value)
    requires |before| < size
    ensures StoreAt(size, Array(before, |before|), v) == Array(before + [v], |before| + 1)
  {
  }
}
