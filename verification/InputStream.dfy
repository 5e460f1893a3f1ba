// The decoder's input stream: a window of constant bytes, read from the front.
module InputStream {
  import opened Bytes
  import Varint

  const WT_VARINT := 0
  const WT_64BIT := 1
  const WT_STRING := 2
  const WT_32BIT := 5

  function Take(bs: seq<byte>, n: nat): (p: Parse<seq<byte>>)
    ensures p.Got? ==> p.value + p.rest == bs && |p.value| == n
  {
    if |bs| < n then Bad else Got(bs[..n], bs[n..])
  }

  // A length prefix and as many bytes as it announces.
  function Prefixed(bs: seq<byte>): (p: Parse<seq<byte>>)
    ensures p.Got? ==> |p.value| + |p.rest| < |bs|
  {
    match Varint.Decode32(bs)
    case Bad => Bad
    case Got(n, rest) => Take(rest, n)
  }

  lemma PrefixedIs(bs: seq<byte>)
    ensures var p := Varint.Decode32(bs);
      Prefixed(bs) ==
        if p.Got? && p.value <= |p.rest| then Got(p.rest[..p.value], p.rest[p.value..]) else Bad
  {
    hide Varint.Decode32;
  }

  datatype Key = Key(tag: nat, wireType: nat)

  function DecodeKey(bs: seq<byte>): (p: Parse<Key>)
    ensures p.Got? ==> |p.rest| < |bs|
  {
    match Varint.Decode32(bs)
    case Bad => Bad
    case Got(n, rest) => Got(Key(n / 8, n % 8), rest)
  }

  // Passing over a field that is not in the descriptor.
  function SkipField(wireType: nat, bs: seq<byte>): (p: Parse<()>)
    ensures p.Got? ==> |p.rest| <= |bs|
  {
    if wireType == WT_VARINT then Varint.Skip(bs)
    else if wireType == WT_64BIT then Forget(Take(bs, 8))
    else if wireType == WT_STRING then Forget(Prefixed(bs))
    else if wireType == WT_32BIT then Forget(Take(bs, 4))
    else Bad
  }

  function Forget<T>(p: Parse<T>): Parse<()> {
    match p
    case Bad => Bad
    case Got(_, rest) => Got((), rest)
  }

  // The word that a little-endian string of bytes denotes.
  function FromLittleEndian(bs: seq<byte>): nat {
    if bs == [] then 0 else bs[0] + 256 * FromLittleEndian(bs[1..])
  }

  lemma {:induction false} FromLittleEndianBound(bs: seq<byte>)
    ensures FromLittleEndian(bs) < Pow2(8 * |bs|)
  {
    if bs != [] {
      FromLittleEndianBound(bs[1..]);
      var n := 8 * (|bs| - 1);
      assert Pow2(n + 8) == 2 * Pow2(n + 7);
      assert Pow2(n + 7) == 2 * Pow2(n + 6);
      assert Pow2(n + 6) == 2 * Pow2(n + 5);
      assert Pow2(n + 5) == 2 * Pow2(n + 4);
      assert Pow2(n + 4) == 2 * Pow2(n + 3);
      assert Pow2(n + 3) == 2 * Pow2(n + 2);
      assert Pow2(n + 2) == 2 * Pow2(n + 1);
      assert Pow2(n + 1) == 2 * Pow2(n);
    }
  }

  function DecodeFixed(bs: seq<byte>, width: nat): (p: Parse<nat>)
    ensures p.Got? ==> |p.rest| <= |bs|
  {
    match Take(bs, width)
    case Bad => Bad
    case Got(b, rest) => Got(FromLittleEndian(b), rest)
  }

  // The seven digit bits of a byte, shifted into place.
  function ShiftDigit(b: byte, bitpos: nat): nat {
    b % 0x80 * Pow2(bitpos)
  }

  lemma SliceOfSlice(a: seq<byte>, i: nat, j: nat, n: nat)
    requires i + n <= j <= |a|
    ensures a[i..j][..n] == a[i..i + n] && a[i..j][n..] == a[i + n..j]
  {
  }

  class IStream {
    const buf: seq<byte>
    var pos: nat
    var bytesLeft: nat

    ghost predicate Valid()
      reads this
    {
      pos + bytesLeft <= |buf|
    }

    // The bytes that reads can still return.
    ghost function Rest(): (r: seq<byte>)
      requires Valid()
      reads this
      ensures |r| == bytesLeft
    {
      buf[pos..pos + bytesLeft]
    }

    // The stream has moved forward without losing its end.
    ghost predicate Within(pos0: nat, left0: nat)
      reads this
    {
      pos0 <= pos && pos + bytesLeft == pos0 + left0
    }

    // The stream has not left its window. A record that fails may lose the end of it.
    ghost predicate Inside(pos0: nat, left0: nat)
      reads this
    {
      pos0 <= pos && pos + bytesLeft <= pos0 + left0
    }

    constructor FromBuffer(buf: seq<byte>, start: nat, size: nat)
      requires start + size <= |buf|
      ensures Valid() && this.buf == buf && pos == start && bytesLeft == size
    {
      this.buf, pos, bytesLeft := buf, start, size;
    }

    method Read(count: nat) returns (ok: bool, data: seq<byte>)
      requires Valid()
      modifies this
      ensures Valid() && Within(old(pos), old(bytesLeft))
      ensures ok <==> Take(old(Rest()), count).Got?
      ensures ok ==> pos == old(pos) + count
      ensures ok ==> Take(old(Rest()), count) == Got(data, Rest())
    {
      if count == 0 {
        return true, [];
      }
      if bytesLeft < count {
        return false, [];
      }
      data := buf[pos..pos + count];
      pos := pos + count;
      bytesLeft := bytesLeft - count;
      ok := true;
      SliceOfSlice(buf, old(pos), old(pos) + old(bytesLeft), count);
    }

    method ReadByte() returns (ok: bool, b: byte)
      requires Valid()
      modifies this
      ensures Valid() && Within(old(pos), old(bytesLeft))
      ensures ok <==> old(bytesLeft) > 0
      ensures ok ==> b == old(Rest())[0] && Rest() == old(Rest())[1..]
    {
      if bytesLeft == 0 {
        return false, 0;
      }
      b := buf[pos];
      pos := pos + 1;
      bytesLeft := bytesLeft - 1;
      ok := true;
    }

    method DecodeVarint32() returns (ok: bool, dest: uint32)
      requires Valid()
      modifies this
      ensures Valid() && Within(old(pos), old(bytesLeft))
      ensures ok <==> Varint.Decode32(old(Rest())).Got?
      ensures ok ==> Varint.Decode32(old(Rest())) == Got(dest, Rest())
    {
      ghost var all := Rest();
      var read, b := ReadByte();
      if !read {
        Unterminated(all);
        return false, 0;
      }
      if b < 0x80 {
        SingleByte(all);
        return true, b;
      }
      ok, dest := DecodeMultibyte32(all, b);
    }

    // The digits behind a first byte that announces more of them.
    method DecodeMultibyte32(ghost all: seq<byte>, first: byte) returns (ok: bool, dest: uint32)
      requires Valid() && all != [] && all[0] == first >= 0x80 && Rest() == all[1..]
      modifies this
      ensures Valid() && Within(old(pos), old(bytesLeft))
      ensures ok <==> Varint.Decode32(all).Got?
      ensures ok ==> Varint.Decode32(all) == Got(dest, Rest())
    {
      hide Varint.Value, Varint.Decode32, Varint.Length, ShiftDigit, LowBits, Tolerated;
      var bitpos := 7;
      var result: uint32 := first % 0x80;
      ghost var i := 1;  // bytes consumed
      LowBitsStart(all);
      while true
        invariant Valid() && Within(old(pos), old(bytesLeft))
        invariant 1 <= i <= |all| && bitpos == 7 * i && Rest() == all[i..]
        invariant forall j | 0 <= j < i :: all[j] >= 0x80
        invariant LowBits(all[..i], result)
        invariant forall j | 5 <= j < i :: Tolerated(all, j)
        decreases bytesLeft
      {
        var read, b := ReadByte();
        if !read {
          Unterminated(all);
          return false, 0;
        }
        assert b == all[i];
        LowBitsStep(all, i, result);
        ToleratedDigit(all, i, result);
        if bitpos >= 32 {
          var signExtension := if bitpos < 63 then 0xFF else 0x01;
          if b % 0x80 != 0 && (result / TWO_31 == 0 || b != signExtension) {
            NotTolerated(all, i);
            return false, 0;
          }
        } else {
          result := result + ShiftDigit(b, bitpos) % TWO_32;  // the bits are disjoint
        }
        bitpos := bitpos + 7;
        i := i + 1;
        if b < 0x80 {
          Varint.LengthIs(all, i);
          if bitpos == 35 && b / 0x10 % 8 != 0 {
            FifthTooLarge(all);
            return false, 0;
          }
          LowBitsDone(all, i, result);
          return true, result;
        }
      }
    }

    method DecodeVarint() returns (ok: bool, dest: uint64)
      requires Valid()
      modifies this
      ensures Valid() && Within(old(pos), old(bytesLeft))
      ensures ok <==> Varint.Decode64(old(Rest())).Got?
      ensures ok ==> Varint.Decode64(old(Rest())) == Got(dest, Rest())
    {
      hide Varint.Value, Varint.Length, Varint.Decode64, ShiftDigit;
      ghost var all := Rest();
      var bitpos := 0;
      var result: uint64 := 0;
      ghost var i := 0;
      assert all[..0] == [] && all[0..] == all;
      ValueOfNothing();
      while true
        invariant Valid() && Within(old(pos), old(bytesLeft))
        invariant 0 <= i <= |all| && i <= 10 && bitpos == 7 * i && Rest() == all[i..]
        invariant forall j | 0 <= j < i :: all[j] >= 0x80
        invariant i < 10 ==> result == Varint.Value(all[..i])
        decreases bytesLeft
      {
        if bitpos >= 64 {
          Unterminated64(all, i);
          return false, 0;
        }
        var read, b := ReadByte();
        if !read {
          Unterminated64(all, i);
          return false, 0;
        }
        assert b == all[i];
        ResultStep(all, i, result);
        result := result + ShiftDigit(b, bitpos) % TWO_64;  // the bits are disjoint
        bitpos := bitpos + 7;
        i := i + 1;
        if b < 0x80 {
          Varint.LengthIs(all, i);
          ResultDone(all, i);
          return true, result;
        }
      }
    }

    method SkipVarint() returns (ok: bool)
      requires Valid()
      modifies this
      ensures Valid() && Within(old(pos), old(bytesLeft))
      ensures ok <==> Varint.Skip(old(Rest())).Got?
      ensures ok ==> Varint.Skip(old(Rest())) == Got((), Rest())
    {
      ghost var all := Rest();
      ghost var i := 0;
      while true
        invariant Valid() && Within(old(pos), old(bytesLeft))
        invariant 0 <= i <= |all| && Rest() == all[i..]
        invariant forall j | 0 <= j < i :: all[j] >= 0x80
        decreases bytesLeft
      {
        var read, b := Read(1);
        if !read {
          return false;
        }
        assert b[0] == all[i];
        i := i + 1;
        if b[0] < 0x80 {
          Varint.LengthIs(all, i);
          return true;
        }
      }
    }

    method SkipString() returns (ok: bool)
      requires Valid()
      modifies this
      ensures Valid() && Within(old(pos), old(bytesLeft))
      ensures ok <==> Prefixed(old(Rest())).Got?
      ensures ok ==> Prefixed(old(Rest())).rest == Rest()
    {
      var length;
      ok, length := DecodeVarint32();
      if !ok {
        return;
      }
      var skipped;
      ok, skipped := Read(length);
    }

    method DecodeTag() returns (ok: bool, tag: nat, wireType: nat)
      requires Valid()
      modifies this
      ensures Valid() && Within(old(pos), old(bytesLeft))
      ensures ok <==> DecodeKey(old(Rest())).Got?
      ensures ok ==> DecodeKey(old(Rest())) == Got(Key(tag, wireType), Rest())
    {
      var temp;
      ok, temp := DecodeVarint32();
      tag := temp / 8;
      wireType := temp % 8;
    }

    method SkipUnknown(wireType: nat) returns (ok: bool)
      requires Valid()
      modifies this
      ensures Valid() && Within(old(pos), old(bytesLeft))
      ensures ok <==> SkipField(wireType, old(Rest())).Got?
      ensures ok ==> SkipField(wireType, old(Rest())) == Got((), Rest())
    {
      var skipped;
      if wireType == WT_VARINT {
        ok := SkipVarint();
      } else if wireType == WT_64BIT {
        ok, skipped := Read(8);
      } else if wireType == WT_STRING {
        ok := SkipString();
      } else if wireType == WT_32BIT {
        ok, skipped := Read(4);
      } else {
        ok := false;
      }
    }

    // Splits off a stream limited to the announced length. Until the substream is closed, this
    // stream keeps its position but no longer counts those bytes as its own.
    method MakeSubstream() returns (ok: bool, sub: IStream)
      requires Valid()
      modifies this
      ensures Valid()
      ensures ok <==> Prefixed(old(Rest())).Got?
      ensures ok ==> fresh(sub) && sub.buf == buf && sub.Valid() && sub.pos == pos
      ensures ok ==> old(pos) <= pos && pos + sub.bytesLeft + bytesLeft == old(pos) + old(bytesLeft)
      ensures ok ==> pos + sub.bytesLeft + bytesLeft <= |buf|
      ensures ok ==>
        Prefixed(old(Rest())) == Got(sub.Rest(), buf[pos + sub.bytesLeft..pos + sub.bytesLeft + bytesLeft])
      ensures !ok ==> Within(old(pos), old(bytesLeft))
    {
      hide Varint.Decode32, Prefixed, Rest, Valid;
      PrefixedIs(Rest());
      var size;
      sub := this;
      ok, size := DecodeVarint32();
      if !ok {
        return;
      }
      ghost var rest := Rest();
      if bytesLeft < size {
        ok := false;
        return;
      }
      sub := Split(size);
    }

    // A stream over the next size bytes; this one keeps the rest of its window, still in front of them.
    method Split(size: nat) returns (sub: IStream)
      requires Valid() && size <= bytesLeft
      modifies this`bytesLeft
      ensures Valid() && fresh(sub) && sub.buf == buf && sub.Valid() && sub.pos == pos
      ensures sub.bytesLeft == size && bytesLeft == old(bytesLeft) - size && pos + size + bytesLeft <= |buf|
      ensures sub.Rest() == old(Rest())[..size]
      ensures buf[pos + size..pos + size + bytesLeft] == old(Rest())[size..]
    {
      SliceOfSlice(buf, pos, pos + bytesLeft, size);
      sub := new IStream.FromBuffer(buf, pos, size);
      bytesLeft := bytesLeft - size;
    }

    // Skips what is left of a substream and takes over its position: whatever was read from the
    // substream, this stream continues behind it.
    method CloseSubstream(sub: IStream)
      requires Valid() && sub.Valid() && sub != this && sub.buf == buf
      requires sub.pos + sub.bytesLeft + bytesLeft <= |buf|
      modifies this`pos, sub
      ensures Valid() && sub.Valid()
      ensures pos == old(sub.pos) + old(sub.bytesLeft) && bytesLeft == old(bytesLeft)
      ensures pos + bytesLeft <= |buf| && Rest() == buf[pos..pos + bytesLeft]
    {
      if sub.bytesLeft != 0 {
        var skipped, _ := sub.Read(sub.bytesLeft);
        assert skipped;
      }
      pos := sub.pos;
    }

    method DecodeBool() returns (ok: bool, dest: bool)
      requires Valid()
      modifies this
      ensures Valid() && Within(old(pos), old(bytesLeft))
      ensures ok <==> Varint.Decode32(old(Rest())).Got?
      ensures ok ==> Varint.Decode32(old(Rest())).rest == Rest()
      ensures ok ==> dest == (Varint.Decode32(old(Rest())).value != 0)
    {
      var value;
      ok, value := DecodeVarint32();
      dest := value != 0;
    }

    method DecodeSVarint() returns (ok: bool, dest: int64)
      requires Valid()
      modifies this
      ensures Valid() && Within(old(pos), old(bytesLeft))
      ensures ok <==> Varint.Decode64(old(Rest())).Got?
      ensures ok ==> Varint.Decode64(old(Rest())).rest == Rest()
      ensures ok ==> dest == Varint.UnZigZag(Varint.Decode64(old(Rest())).value)
    {
      var value;
      ok, value := DecodeVarint();
      if value % 2 == 1 {
        dest := Signed(TWO_64 - 1 - value / 2, TWO_64);
      } else {
        dest := value / 2;
      }
    }

    method DecodeFixed32() returns (ok: bool, dest: nat)
      requires Valid()
      modifies this
      ensures Valid() && Within(old(pos), old(bytesLeft))
      ensures ok <==> DecodeFixed(old(Rest()), 4).Got?
      ensures ok ==> DecodeFixed(old(Rest()), 4) == Got(dest, Rest())
    {
      var u;
      ok, u := Read(4);
      dest := 0;
      if ok {
        dest := Word(u[0], u[1], u[2], u[3]);
        FourBytesValue(u);
      }
    }

    method DecodeFixed64() returns (ok: bool, dest: nat)
      requires Valid()
      modifies this
      ensures Valid() && Within(old(pos), old(bytesLeft))
      ensures ok <==> DecodeFixed(old(Rest()), 8).Got?
      ensures ok ==> DecodeFixed(old(Rest()), 8) == Got(dest, Rest())
    {
      var u;
      ok, u := Read(8);
      dest := 0;
      if ok {
        dest := Word(u[0], u[1], u[2], u[3]) + TWO_32 * Word(u[4], u[5], u[6], u[7]);
        FourBytesValue(u);
        FourBytesValue(u[4..]);
        assert u[4..][4..] == [];
      }
    }
  }

  // The four shifted bytes of a word; their bits are disjoint.
  function Word(b0: int, b1: int, b2: int, b3: int): int {
    b0 + b1 * 0x100 + b2 * 0x1_0000 + b3 * 0x100_0000
  }

  lemma FourBytesValue(u: seq<byte>)
    requires |u| >= 4
    ensures FromLittleEndian(u) == Word(u[0], u[1], u[2], u[3]) + TWO_32 * FromLittleEndian(u[4..])
  {
    var u1, u2, u3 := u[1..], u[2..], u[3..];
    assert u1[1..] == u2 && u2[1..] == u3 && u3[1..] == u[4..];
    assert FromLittleEndian(u1) == u[1] + 256 * FromLittleEndian(u2);
    assert FromLittleEndian(u2) == u[2] + 256 * FromLittleEndian(u3);
    assert FromLittleEndian(u3) == u[3] + 256 * FromLittleEndian(u[4..]);
  }

  // The loop of the 32-bit reader: what result holds once the bytes v have been consumed.
  ghost predicate LowBits(v: seq<byte>, result: nat) {
    if |v| < 5 then result == Varint.Value(v) else result == Varint.Value(v[..5]) % TWO_32
  }

  ghost predicate Tolerated(all: seq<byte>, j: nat)
    requires 5 <= j < |all|
  {
    all[j] % 128 == 0 || (all[4] / 8 % 2 == 1 && all[j] == if j < 9 then 0xFF else 1)
  }

  lemma SingleByte(all: seq<byte>)
    requires all != [] && all[0] < 128
    ensures Varint.Decode32(all) == Got(all[0], all[1..])
  {
    Varint.LengthIs(all, 1);
    Varint.ValueSingle(all[0]);
    assert all[..1] == [all[0]];
  }

  lemma Unterminated(all: seq<byte>)
    requires forall j | 0 <= j < |all| :: all[j] >= 0x80
    ensures Varint.Decode32(all) == Bad
  {
  }

  lemma FifthTooLarge(all: seq<byte>)
    requires Varint.Length(all) == 5 && all[4] >= 16
    ensures Varint.Decode32(all) == Bad
  {
  }

  lemma LowBitsStart(all: seq<byte>)
    requires all != []
    ensures LowBits(all[..1], all[0] % 0x80)
  {
    Varint.ValueSingle(all[0]);
    assert all[..1] == [all[0]];
  }

  lemma LowBitsStep(all: seq<byte>, i: nat, result: nat)
    requires 1 <= i < |all| && LowBits(all[..i], result)
    ensures i < 5 ==> result + ShiftDigit(all[i], 7 * i) % TWO_32 < TWO_32
    ensures i < 5 ==> LowBits(all[..i + 1], result + ShiftDigit(all[i], 7 * i) % TWO_32)
    ensures i >= 5 ==> LowBits(all[..i + 1], result) && result / TWO_31 == all[4] / 8 % 2
  {
    hide Varint.Value, Varint.Pow128, Pow2;
    Varint.Pow2Seven(i);
    if i < 4 {
      LowBitsEarly(all, i, result);
    } else if i == 4 {
      LowBitsFifth(all, result);
    } else {
      LowBitsLate(all, i, result);
    }
  }

  lemma LowBitsEarly(all: seq<byte>, i: nat, result: nat)
    requires 1 <= i < 4 && i < |all| && LowBits(all[..i], result)
    ensures all[i] % 0x80 * Varint.Pow128(i) < TWO_32
    ensures result + all[i] % 0x80 * Varint.Pow128(i) < TWO_32
    ensures LowBits(all[..i + 1], result + all[i] % 0x80 * Varint.Pow128(i))
  {
    hide Varint.Value, Varint.Pow128;
    assert all[..i + 1] == all[..i] + [all[i]];
    Varint.ValueAppend(all[..i], all[i]);
    SmallDigits(all[..i + 1], i);
  }

  lemma LowBitsFifth(all: seq<byte>, result: nat)
    requires 4 < |all| && LowBits(all[..4], result)
    ensures result + all[4] % 0x80 * Varint.Pow128(4) % TWO_32 < TWO_32
    ensures LowBits(all[..5], result + all[4] % 0x80 * Varint.Pow128(4) % TWO_32)
  {
    hide Varint.Value, Varint.Pow128;
    Varint.FiveDigits(all);
    Varint.Pow128Table();
    assert all[..5][..5] == all[..5];
    var d: int := all[4] % 0x80;
    assert d * 0x1000_0000 % TWO_32 == d % 16 * 0x1000_0000;
  }

  lemma LowBitsLate(all: seq<byte>, i: nat, result: nat)
    requires 5 <= i < |all| && LowBits(all[..i], result)
    ensures LowBits(all[..i + 1], result) && result / TWO_31 == all[4] / 8 % 2
  {
    hide Varint.Value;
    assert all[..i][..5] == all[..5] && all[..i + 1][..5] == all[..5];
    Varint.FiveDigits(all);
    HighBit(Varint.Value(all[..4]), all[4], result);
  }

  lemma HighBit(low: nat, digit: byte, result: nat)
    requires low < 0x1000_0000 && result == (low + 0x1000_0000 * (digit as int % 128)) % TWO_32
    ensures result / TWO_31 == digit / 8 % 2
  {
    FourBits(digit as int, digit as int % 128);
    Wraps(low, digit as int % 128);
  }

  lemma FourBits(digit: nat, d: nat)
    requires d == digit % 128
    ensures d % 16 / 8 == digit / 8 % 2
  {
  }

  lemma Wraps(low: nat, d: nat)
    requires low < 0x1000_0000
    ensures (low + 0x1000_0000 * d) % TWO_32 / TWO_31 == d % 16 / 8
  {
    var q, n := d / 16, d % 16;
    assert low + 0x1000_0000 * d == low + 0x1000_0000 * n + TWO_32 * q;
    assert (low + 0x1000_0000 * d) % TWO_32 == low + 0x1000_0000 * n;
  }

  lemma SmallDigits(v: seq<byte>, i: nat)
    requires 1 <= i < 4 && |v| == i + 1
    ensures v[i] % 0x80 * Varint.Pow128(i) < TWO_32
    ensures Varint.Value(v) < TWO_32
  {
    Varint.Pow128Table();
    Varint.ValueBound(v);
  }

  lemma ToleratedDigit(all: seq<byte>, i: nat, result: nat)
    requires 0 <= i < |all|
    requires i >= 5 ==> result / TWO_31 == all[4] / 8 % 2
    ensures i >= 5 ==>
      (Tolerated(all, i) <==>
        !(all[i] % 0x80 != 0 && (result / TWO_31 == 0 || all[i] != if 7 * i < 63 then 0xFF else 0x01)))
  {
  }

  lemma NotTolerated(all: seq<byte>, i: nat)
    requires 5 <= i < |all| && !Tolerated(all, i)
    requires forall j | 0 <= j < i :: all[j] >= 0x80
    ensures Varint.Decode32(all) == Bad
  {
    var k := Varint.Length(all);
    if k > 0 {
      assert all[..k][k - 1] < 128;
      assert all[..k][i] == all[i] && all[..k][4] == all[4];
    }
  }

  lemma AllTolerated(all: seq<byte>, i: nat)
    requires 1 < i <= |all|
    requires forall j | 5 <= j < i :: Tolerated(all, j)
    requires i == 5 ==> all[4] < 16
    ensures Varint.Fits32(all[..i])
  {
    var v := all[..i];
    if i > 5 {
      forall j | 5 <= j < |v|
        ensures v[j] % 128 == 0 || (v[4] / 8 % 2 == 1 && v[j] == if j < 9 then 0xFF else 1)
      {
        assert Tolerated(all, j);
      }
    }
  }

  lemma LowBitsDone(all: seq<byte>, i: nat, result: uint32)
    requires 1 < i <= |all| && Varint.Length(all) == i && LowBits(all[..i], result)
    requires forall j | 5 <= j < i :: Tolerated(all, j)
    requires i == 5 ==> all[4] < 16
    ensures Varint.Decode32(all) == Got(result, all[i..])
  {
    hide Varint.Value, Varint.Fits32, Varint.Length, LowBits;
    AllTolerated(all, i);
    LowBitsValue(all[..i], result);
  }

  lemma LowBitsValue(v: seq<byte>, result: uint32)
    requires LowBits(v, result)
    ensures Varint.Value(v) % TWO_32 == result
  {
    hide Varint.Value;
    if |v| >= 5 {
      Varint.HighDigitsVanish(v);
    }
  }

  lemma ValueOfNothing()
    ensures Varint.Value([]) == 0
  {
  }

  lemma Unterminated64(all: seq<byte>, i: nat)
    requires i <= |all| && (i == |all| || i == 10)
    requires forall j | 0 <= j < i :: all[j] >= 0x80
    ensures Varint.Decode64(all) == Bad
  {
    assert Varint.Length(all) == 0 || Varint.Length(all) > 10;
  }

  lemma ResultDone(all: seq<byte>, i: nat)
    requires 0 < i <= 10 && i <= |all| && Varint.Length(all) == i
    ensures Varint.Decode64(all) == Got(Varint.Value(all[..i]) % TWO_64, all[i..])
  {
  }

  lemma ResultStep(all: seq<byte>, i: nat, result: nat)
    requires 0 <= i < |all| && i < 10 && result == Varint.Value(all[..i])
    ensures result + ShiftDigit(all[i], 7 * i) % TWO_64 == Varint.Value(all[..i + 1]) % TWO_64
    ensures i < 9 ==> Varint.Value(all[..i + 1]) < TWO_64
  {
    Varint.Pow2Seven(i);
    assert all[..i + 1] == all[..i] + [all[i]];
    Varint.ValueAppend(all[..i], all[i]);
    Varint.ValueBound(all[..i]);
    Varint.ValueBound(all[..i + 1]);
    TopDigit(i, result, all[i] % 0x80);
  }

  lemma TopDigit(i: nat, low: nat, digit: nat)
    requires i < 10 && low < Varint.Pow128(i) && digit < 128
    ensures low + digit * Varint.Pow128(i) % TWO_64 == (low + Varint.Pow128(i) * digit) % TWO_64
    ensures i < 9 ==> Varint.Pow128(i + 1) <= TWO_63
  {
    Varint.Pow128Table();
    if i == 9 {
      assert digit * TWO_63 % TWO_64 == digit % 2 * TWO_63;
    } else {
      Monotone(i + 1, 9);
      assert digit * Varint.Pow128(i) <= 127 * Varint.Pow128(i);
    }
  }

  lemma {:induction false} Monotone(i: nat, j: nat)
    requires i <= j
    ensures Varint.Pow128(i) <= Varint.Pow128(j)
  {
    if i < j {
      Monotone(i, j - 1);
    }
  }
}
