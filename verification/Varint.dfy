// Base 128 varints: the encoding the writer must produce and what the two readers accept.
module Varint {
  import opened Bytes

  // The little-endian base-128 form of n, with the top bit set on every byte but the last.
  function Encode(n: nat): (bs: seq<byte>)
    ensures bs != []
  {
    if n < 128 then [n] else [n % 128 + 128] + Encode(n / 128)
  }

  // The number that a string of base-128 digits denotes; the top bit of each byte is ignored.
  function Value(bs: seq<byte>): nat {
    if bs == [] then 0 else bs[0] % 128 + 128 * Value(bs[1..])
  }

  ghost predicate Terminated(bs: seq<byte>) {
    bs != [] && bs[|bs| - 1] < 128 && forall i | 0 <= i < |bs| - 1 :: bs[i] >= 128
  }

  ghost predicate Minimal(bs: seq<byte>) {
    Terminated(bs) && (|bs| > 1 ==> bs[|bs| - 1] != 0)
  }

  // Number of bytes up to and including the first one below 128, or 0 when there is none.
  function Length(bs: seq<byte>): (k: nat)
    ensures k <= |bs|
    ensures k > 0 ==> Terminated(bs[..k])
    ensures k == 0 ==> forall i | 0 <= i < |bs| :: bs[i] >= 128
  {
    if bs == [] then 0
    else if bs[0] < 128 then 1
    else
      var k := Length(bs[1..]);
      assert k > 0 ==> bs[..k + 1] == [bs[0]] + bs[1..][..k];
      if k == 0 then 0 else k + 1
  }

  // What the 64-bit reader accepts: at most ten bytes; bits above 64 are shifted out.
  function Decode64(bs: seq<byte>): (p: Parse<uint64>)
    ensures p.Got? ==> |p.rest| < |bs|
  {
    var k := Length(bs);
    if k == 0 || k > 10 then Bad else Got(Value(bs[..k]) % TWO_64, bs[k..])
  }

  // What the 32-bit reader tolerates above bit 31: zero digits, or copies of a set bit 31.
  predicate Fits32(v: seq<byte>) {
    || |v| <= 4
    || (|v| == 5 && v[4] < 16)
    || (|v| > 5 && forall i | 5 <= i < |v| ::
          v[i] % 128 == 0 || (v[4] / 8 % 2 == 1 && v[i] == if i < 9 then 0xFF else 1))
  }

  function Decode32(bs: seq<byte>): (p: Parse<uint32>)
    ensures p.Got? ==> |p.rest| < |bs|
  {
    var k := Length(bs);
    if k == 0 || !Fits32(bs[..k]) then Bad else Got(Value(bs[..k]) % TWO_32, bs[k..])
  }

  function Skip(bs: seq<byte>): (p: Parse<()>)
    ensures p.Got? ==> |p.rest| < |bs|
  {
    var k := Length(bs);
    if k == 0 then Bad else Got((), bs[k..])
  }

  // Zigzag: negative numbers interleaved with the non-negative ones, in 64-bit arithmetic.
  function ZigZag(value: int64): uint64 {
    if value < 0 then TWO_64 - 1 - (2 * value) % TWO_64 else (2 * value) % TWO_64
  }

  function UnZigZag(value: uint64): int64 {
    if value % 2 == 1 then Signed(TWO_64 - 1 - value / 2, TWO_64) else value / 2
  }

  lemma UnZigZagInverts(value: int64)
    ensures UnZigZag(ZigZag(value)) == value
  {
    assert ZigZag(value) == if value < 0 then -2 * value - 1 else 2 * value;
  }

  lemma ZigZagInverts(value: uint64)
    ensures ZigZag(UnZigZag(value)) == value
  {
    assert UnZigZag(value) == if value % 2 == 1 then -1 - value / 2 else value / 2;
  }

  lemma {:induction false} EncodeIsMinimal(n: nat)
    ensures Minimal(Encode(n)) && Value(Encode(n)) == n
    ensures n > 0 ==> Encode(n)[|Encode(n)| - 1] != 0
  {
    if n >= 128 {
      EncodeIsMinimal(n / 128);
      assert Encode(n)[1..] == Encode(n / 128);
    } else {
      assert Encode(n)[1..] == [];
    }
  }

  // The minimal form is unique, so EncodeIsMinimal says exactly what Encode returns.
  lemma {:induction false} MinimalIsEncode(bs: seq<byte>)
    requires Minimal(bs)
    ensures bs == Encode(Value(bs))
  {
    if |bs| == 1 {
      assert bs[1..] == [];
    } else {
      var tail := bs[1..];
      assert forall i | 0 <= i < |tail| :: tail[i] == bs[i + 1];
      assert Minimal(tail);
      MinimalIsEncode(tail);
      ValuePositive(tail);
      assert bs == [bs[0]] + tail;
    }
  }

  lemma {:induction false} ValuePositive(bs: seq<byte>)
    requires Terminated(bs) && bs[|bs| - 1] != 0
    ensures Value(bs) > 0
  {
    if |bs| > 1 {
      var tail := bs[1..];
      assert forall i | 0 <= i < |tail| :: tail[i] == bs[i + 1];
      ValuePositive(tail);
    }
  }

  // Appending bytes after a terminated varint does not change where it ends.
  lemma {:induction false} LengthOfPrefix(v: seq<byte>, tail: seq<byte>)
    requires Terminated(v)
    ensures Length(v + tail) == |v| && (v + tail)[..|v|] == v && (v + tail)[|v|..] == tail
  {
    var all := v + tail;
    assert all[..|v|] == v && all[|v|..] == tail;
    if |v| > 1 {
      assert all[1..] == v[1..] + tail;
      assert forall i | 0 <= i < |v| - 1 :: v[1..][i] == v[i + 1];
      assert v[0] >= 128;
      LengthOfPrefix(v[1..], tail);
    }
  }

  // 128 to the k.
  function Pow128(k: nat): (p: nat)
    ensures p > 0
  {
    if k == 0 then 1 else 128 * Pow128(k - 1)
  }

  lemma {:induction false} EncodeLength(n: nat, k: nat)
    requires k > 0
    ensures |Encode(n)| <= k <==> n < Pow128(k)
  {
    if k == 1 {
      assert Pow128(1) == 128 * Pow128(0);
    } else {
      if n >= 128 {
        EncodeLength(n / 128, k - 1);
        var p := Pow128(k - 1);
        assert n / 128 < p <==> n < 128 * p;
      } else {
        assert Pow128(k) == 128 * Pow128(k - 1);
      }
    }
  }

  lemma Pow128Table()
    ensures Pow128(1) == 0x80 && Pow128(2) == 0x4000 && Pow128(3) == 0x20_0000
    ensures Pow128(4) == 0x1000_0000 && Pow128(5) == 0x8_0000_0000
    ensures Pow128(8) == 0x100_0000_0000_0000 && Pow128(9) == TWO_63
    ensures Pow128(10) == 128 * TWO_63
  {
    assert Pow128(0) == 1;
    assert Pow128(1) == 128 * Pow128(0);
    assert Pow128(2) == 128 * Pow128(1);
    assert Pow128(3) == 128 * Pow128(2);
    assert Pow128(4) == 128 * Pow128(3);
    assert Pow128(5) == 128 * Pow128(4);
    assert Pow128(6) == 128 * Pow128(5);
    assert Pow128(7) == 128 * Pow128(6);
    assert Pow128(8) == 128 * Pow128(7);
    assert Pow128(9) == 128 * Pow128(8);
    assert Pow128(10) == 128 * Pow128(9);
  }

  lemma EncodeAtMostTen(n: uint64)
    ensures |Encode(n)| <= 10
  {
    Pow128Table();
    EncodeLength(n, 10);
  }

  // The 64-bit reader inverts the writer, whatever follows, for every 64-bit number.
  lemma Decode64Inverts(n: uint64, tail: seq<byte>)
    ensures Decode64(Encode(n) + tail) == Got(n, tail)
  {
    EncodeIsMinimal(n);
    var v := Encode(n);
    EncodeAtMostTen(n);
    LengthOfPrefix(v, tail);
  }

  lemma SkipInverts(n: nat, tail: seq<byte>)
    ensures Skip(Encode(n) + tail) == Got((), tail)
  {
    EncodeIsMinimal(n);
    LengthOfPrefix(Encode(n), tail);
  }

  // On what the writer produces for numbers below 2^63, the 32-bit reader accepts exactly the
  // numbers below 2^32 and returns them unchanged.
  lemma Decode32OfEncode(n: nat, tail: seq<byte>)
    requires n < TWO_63
    ensures Decode32(Encode(n) + tail) == if n < TWO_32 then Got(n, tail) else Bad
  {
    var v := Encode(n);
    Fits32OfEncode(n, v);
    EncodeIsMinimal(n);
    Decode32OfTerminated(v, tail);
  }

  lemma Decode32OfTerminated(v: seq<byte>, tail: seq<byte>)
    requires Terminated(v)
    ensures Decode32(v + tail) == if Fits32(v) then Got(Value(v) % TWO_32, tail) else Bad
  {
    LengthOfPrefix(v, tail);
  }

  lemma EncodeSizes(n: nat)
    ensures |Encode(n)| <= 4 <==> n < 0x1000_0000
    ensures |Encode(n)| <= 5 <==> n < 0x8_0000_0000
    ensures |Encode(n)| <= 9 <==> n < TWO_63
  {
    Pow128Table();
    EncodeLength(n, 4);
    EncodeLength(n, 5);
    EncodeLength(n, 9);
  }

  lemma Fits32OfEncode(n: nat, v: seq<byte>)
    requires n < TWO_63 && v == Encode(n)
    ensures Fits32(v) <==> n < TWO_32
  {
    EncodeSizes(n);
    if |v| == 5 {
      FifthDigit(n);
    } else if |v| > 5 {
      EncodeIsMinimal(n);
      var last := |v| - 1;
      assert 5 <= last < 9 && 0 < v[last] < 128;
      assert !Fits32(v);
    }
  }

  lemma FifthDigit(n: nat)
    requires |Encode(n)| == 5
    ensures Encode(n)[4] == n / 0x1000_0000
  {
    var n1, n2, n3, n4 := n / 128, n / 128 / 128, n / 128 / 128 / 128, n / 128 / 128 / 128 / 128;
    assert Encode(n) == [n % 128 + 128] + Encode(n1);
    assert Encode(n1) == [n1 % 128 + 128] + Encode(n2);
    assert Encode(n2) == [n2 % 128 + 128] + Encode(n3);
    assert Encode(n3) == [n3 % 128 + 128] + Encode(n4);
    assert n4 == n / 0x1000_0000;
    assert Encode(n)[4] == Encode(n4)[0];
  }

  lemma Distribute(a: nat, p: nat, b: nat)
    ensures 128 * (a + p * b) == 128 * a + (128 * p) * b
  {
  }

  // Splitting the digits after position k.
  lemma {:induction false} ValueSplit(bs: seq<byte>, k: nat)
    requires k <= |bs|
    ensures Value(bs) == Value(bs[..k]) + Pow128(k) * Value(bs[k..])
  {
    if k == 0 {
      assert bs[..0] == [] && bs[0..] == bs;
    } else {
      var low, high, p := bs[1..][..k - 1], bs[k..], Pow128(k - 1);
      calc {
        Value(bs);
        bs[0] % 128 + 128 * Value(bs[1..]);
        { ValueSplit(bs[1..], k - 1); assert bs[1..][k - 1..] == high; }
        bs[0] % 128 + 128 * (Value(low) + p * Value(high));
        { Distribute(Value(low), p, Value(high)); }
        bs[0] % 128 + 128 * Value(low) + (128 * p) * Value(high);
        { assert bs[..k][1..] == low; }
        Value(bs[..k]) + Pow128(k) * Value(high);
      }
    }
  }

  lemma {:induction false} ValueBound(bs: seq<byte>)
    ensures Value(bs) < Pow128(|bs|)
  {
    if bs != [] {
      ValueBound(bs[1..]);
    }
  }

  lemma ValueSingle(b: byte)
    ensures Value([b]) == b % 128
  {
    assert [b][1..] == [];
  }

  lemma ValueAppend(bs: seq<byte>, b: byte)
    ensures Value(bs + [b]) == Value(bs) + Pow128(|bs|) * (b % 128)
  {
    var all := bs + [b];
    ValueSplit(all, |bs|);
    assert all[..|bs|] == bs && all[|bs|..] == [b];
    ValueSingle(b);
  }

  // Up to ten bytes, whatever the 32-bit reader accepts the 64-bit reader accepts as well, and the
  // 32-bit answer is the low half of the 64-bit one.
  lemma Decode32IsLowHalf(bs: seq<byte>)
    requires Length(bs) <= 10
    requires Decode32(bs).Got?
    ensures Decode64(bs).Got? && Decode64(bs).rest == Decode32(bs).rest
    ensures Decode32(bs).value == Decode64(bs).value % TWO_32
  {
    hide Value, Length, Fits32;
    LowHalf(Value(bs[..Length(bs)]));
  }

  lemma LowHalf(v: nat)
    ensures v % TWO_64 % TWO_32 == v % TWO_32
  {
  }

  // Seven bits a digit.
  lemma {:induction false} Pow2Seven(i: nat)
    ensures Pow2(7 * i) == Pow128(i)
  {
    if i > 0 {
      Pow2Seven(i - 1);
      var n := 7 * (i - 1);
      assert Pow2(n + 7) == 2 * Pow2(n + 6);
      assert Pow2(n + 6) == 2 * Pow2(n + 5);
      assert Pow2(n + 5) == 2 * Pow2(n + 4);
      assert Pow2(n + 4) == 2 * Pow2(n + 3);
      assert Pow2(n + 3) == 2 * Pow2(n + 2);
      assert Pow2(n + 2) == 2 * Pow2(n + 1);
      assert Pow2(n + 1) == 2 * Pow2(n);
    }
  }

  // A varint ends at its first byte below 128.
  lemma LengthIs(bs: seq<byte>, k: nat)
    requires 0 < k <= |bs| && bs[k - 1] < 128
    requires forall i | 0 <= i < k - 1 :: bs[i] >= 128
    ensures Length(bs) == k
  {
    LengthOfPrefix(bs[..k], bs[k..]);
    assert bs[..k] + bs[k..] == bs;
  }

  // Digits past the fifth have weight 2^35 and more, so they do not reach the low 32 bits.
  lemma HighDigitsVanish(v: seq<byte>)
    requires |v| >= 5
    ensures Value(v) % TWO_32 == Value(v[..5]) % TWO_32
  {
    hide Value, Pow128;
    ValueSplit(v, 5);
    Pow128Table();
    var h := Value(v[5..]);
    assert 0x8_0000_0000 * h == TWO_32 * (8 * h);
  }

  lemma FiveDigits(v: seq<byte>)
    requires |v| >= 5
    ensures Value(v[..5]) == Value(v[..4]) + 0x1000_0000 * (v[4] as int % 128)
    ensures Value(v[..4]) < 0x1000_0000
  {
    hide Value, Pow128;
    ValueAppend(v[..4], v[4]);
    assert v[..5] == v[..4] + [v[4]];
    ValueBound(v[..4]);
    Pow128Table();
  }

  // Reading is local: bytes behind an accepted varint are left alone.
  lemma DecodeIsLocal(bs: seq<byte>, more: seq<byte>)
    ensures Decode32(bs).Got? ==> Decode32(bs + more) == Got(Decode32(bs).value, Decode32(bs).rest + more)
    ensures Decode64(bs).Got? ==> Decode64(bs + more) == Got(Decode64(bs).value, Decode64(bs).rest + more)
    ensures Skip(bs).Got? ==> Skip(bs + more) == Got((), Skip(bs).rest + more)
  {
    var k := Length(bs);
    if k > 0 {
      LengthOfPrefix(bs[..k], bs[k..] + more);
      assert bs[..k] + (bs[k..] + more) == bs + more;
    }
  }

  // --- Any digits, minimal or not

  lemma {:induction false} NoEnd(bs: seq<byte>)
    requires forall i | 0 <= i < |bs| :: bs[i] >= 0x80
    ensures Decode64(bs) == Bad && Decode32(bs) == Bad && Skip(bs) == Bad
  {
    if bs != [] {
      NoEnd(bs[1..]);
    }
  }

  // The 64-bit reader takes up to ten digits and drops what is above 64 bits; skipping takes any number.
  lemma DigitsRead(v: seq<byte>, tail: seq<byte>)
    requires Terminated(v)
    ensures Decode64(v + tail) == if |v| <= 10 then Got(Value(v) % 0x1_0000_0000_0000_0000, tail) else Bad
    ensures Skip(v + tail) == Got((), tail)
  {
    hide Value;
    LengthOfPrefix(v, tail);
  }

  // The 32-bit reader takes numbers below 2^32 however many zero digits follow them in ten bytes.
  lemma PaddedRead(v: seq<byte>, tail: seq<byte>)
    requires Terminated(v) && |v| <= 10 && Value(v) < 0x1_0000_0000
    ensures Decode32(v + tail) == Got(Value(v), tail)
  {
    hide Value, Decode32;
    Decode32OfTerminated(v, tail);
    HighDigitsZero(v);
  }

  lemma {:induction false} NoDigits(v: seq<byte>)
    requires Value(v) == 0
    ensures forall i | 0 <= i < |v| :: v[i] % 0x80 == 0
  {
    if v != [] {
      NoDigits(v[1..]);
    }
  }

  lemma HighDigitsZero(v: seq<byte>)
    requires Value(v) < 0x1_0000_0000
    ensures |v| >= 5 ==> v[4] % 0x80 < 16
    ensures forall i | 5 <= i < |v| :: v[i] % 0x80 == 0
  {
    hide Value, Pow128;
    if |v| >= 5 {
      ValueSplit(v, 5);
      Pow128Table();
      FiveDigits(v);
      NoDigits(v[5..]);
      assert forall i | 5 <= i < |v| :: v[i] == v[5..][i - 5];
    }
  }

  lemma FiveBehind(n: nat)
    requires n >= 0x8_0000_0000
    ensures |Encode(n)| == 5 + |Encode(n / 0x8_0000_0000)| && Encode(n)[5..] == Encode(n / 0x8_0000_0000)
    ensures Encode(n)[4] == n / 0x1000_0000 % 128 + 128
  {
    var n1, n2, n3, n4 := n / 128, n / 128 / 128, n / 128 / 128 / 128, n / 128 / 128 / 128 / 128;
    assert Encode(n) == [n % 128 + 128] + Encode(n1);
    assert Encode(n1) == [n1 % 128 + 128] + Encode(n2);
    assert Encode(n2) == [n2 % 128 + 128] + Encode(n3);
    assert Encode(n3) == [n3 % 128 + 128] + Encode(n4);
    assert Encode(n4) == [n4 % 128 + 128] + Encode(n4 / 128);
    assert n4 == n / 0x1000_0000 && n4 / 128 == n / 0x8_0000_0000;
    hide Encode;
    assert Encode(n)[5..] == Encode(n / 0x8_0000_0000);
  }

  predicate ZerosOrOnes(digit: nat) { digit == 0 || digit == 0x7F }

  // What the 32-bit reader takes of the numbers from 2^63 on: bit 31 is set, and each group of seven
  // bits above bit 34 repeats one bit.
  lemma TopRead(n: nat, tail: seq<byte>)
    requires 0x8000_0000_0000_0000 <= n < 0x1_0000_0000_0000_0000
    ensures Decode32(Encode(n) + tail) ==
      if n / 0x8000_0000 % 2 == 1
        && ZerosOrOnes(n / 0x8_0000_0000 % 0x80) && ZerosOrOnes(n / 0x400_0000_0000 % 0x80)
        && ZerosOrOnes(n / 0x2_0000_0000_0000 % 0x80) && ZerosOrOnes(n / 0x100_0000_0000_0000 % 0x80)
      then Got(n % 0x1_0000_0000, tail) else Bad
  {
    hide Decode32, Value, Encode, ZerosOrOnes;
    EncodeIsMinimal(n);
    TopDigits(n);
    Decode32OfTerminated(Encode(n), tail);
  }

  lemma TopDigits(n: nat)
    requires 0x8000_0000_0000_0000 <= n < 0x1_0000_0000_0000_0000
    ensures Fits32(Encode(n)) <==>
      && n / 0x8000_0000 % 2 == 1
      && ZerosOrOnes(n / 0x8_0000_0000 % 0x80) && ZerosOrOnes(n / 0x400_0000_0000 % 0x80)
      && ZerosOrOnes(n / 0x2_0000_0000_0000 % 0x80) && ZerosOrOnes(n / 0x100_0000_0000_0000 % 0x80)
  {
    hide Encode, Fits32, ZerosOrOnes;
    var m, v := n / 0x8_0000_0000, Encode(n);
    FiveBehind(n);
    FiveTopDigits(m);
    TopGroups(n);
    SignBit(n);
    assert 0x1000_0000 <= m < 0x2000_0000;
    var w := v[5..];
    assert v[5] == w[0] && v[6] == w[1] && v[7] == w[2] && v[8] == w[3] && v[9] == w[4];
    TenDigitsFit(v);
  }

  lemma TopGroups(n: nat)
    ensures n / 0x8_0000_0000 / 0x80 == n / 0x400_0000_0000
    ensures n / 0x8_0000_0000 / 0x4000 == n / 0x2_0000_0000_0000
    ensures n / 0x8_0000_0000 / 0x20_0000 == n / 0x100_0000_0000_0000
  {
  }

  // Bit 31 is the fourth bit of the fifth digit.
  lemma SignBit(n: nat)
    ensures (n / 0x1000_0000 % 0x80 + 0x80) / 8 % 2 == n / 0x8000_0000 % 2
  {
    FourthBit(n / 0x1000_0000);
    assert n / 0x1000_0000 / 8 == n / 0x8000_0000;
  }

  lemma FourthBit(k: nat)
    ensures (k % 0x80 + 0x80) / 8 % 2 == k / 8 % 2
  {
    assert k == k / 0x80 * 0x80 + k % 0x80;
  }

  lemma TenDigitsFit(v: seq<byte>)
    requires |v| == 10 && v[5] >= 0x80 && v[6] >= 0x80 && v[7] >= 0x80 && v[8] >= 0x80 && v[9] == 1
    ensures Fits32(v) <==>
      && v[4] / 8 % 2 == 1
      && ZerosOrOnes(v[5] % 0x80) && ZerosOrOnes(v[6] % 0x80) && ZerosOrOnes(v[7] % 0x80) && ZerosOrOnes(v[8] % 0x80)
  {
  }

  lemma FiveTopDigits(m: nat)
    requires 0x1000_0000 <= m < 0x2000_0000
    ensures Encode(m)
         == [m % 0x80 + 0x80, m / 0x80 % 0x80 + 0x80, m / 0x4000 % 0x80 + 0x80, m / 0x20_0000 % 0x80 + 0x80, 1]
  {
    var m1, m2, m3, m4 := m / 128, m / 128 / 128, m / 128 / 128 / 128, m / 128 / 128 / 128 / 128;
    assert Encode(m) == [m % 128 + 128] + Encode(m1);
    assert Encode(m1) == [m1 % 128 + 128] + Encode(m2);
    assert Encode(m2) == [m2 % 128 + 128] + Encode(m3);
    assert Encode(m3) == [m3 % 128 + 128] + Encode(m4);
    assert m2 == m / 0x4000 && m3 == m / 0x20_0000 && m4 == 1;
  }

  // In particular it takes the ten bytes of a negative number of 32 bits, as its two's complement.
  lemma NegativeRead(n: int, tail: seq<byte>)
    requires -0x8000_0000 <= n < 0
    ensures Decode32(Encode(0x1_0000_0000_0000_0000 + n) + tail) == Got(0x1_0000_0000 + n, tail)
  {
    hide Decode32, Encode;
    var w := 0x1_0000_0000_0000_0000 + n;
    TopRead(w, tail);
    assert w / 0x8_0000_0000 == 0x1FFF_FFFF && w / 0x400_0000_0000 == 0x3F_FFFF && w / 0x2_0000_0000_0000 == 0x7FFF;
    assert w / 0x100_0000_0000_0000 == 0xFF && w / 0x8000_0000 == 0x1_FFFF_FFFF;
  }
}
