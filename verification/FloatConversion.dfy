// Floats written as doubles and doubles read as floats, on the bits of the machine words.
module FloatConversion {
  import opened Bytes

  const INFINITY: nat := 0x7F80_0000
  const DOUBLE_INFINITY: nat := 0x7FF0_0000_0000_0000

  // One unit in the last place of a float with this exponent field, in units of the smallest double.
  ghost function Ulp(e: nat): (u: nat)
    ensures u > 0
  {
    Pow2((if e == 0 then 1 else e) + 924)
  }

  // The magnitude of a float with these 31 bits, in units of the smallest double. Infinity counts as
  // the power of two behind the largest float.
  ghost function FloatMagnitude(k: nat): nat {
    var e, m := k / 0x80_0000, k % 0x80_0000;
    (if e == 0 then m else m + 0x80_0000) * Ulp(e)
  }

  // The magnitude of a double with these 63 bits, in the same units.
  ghost function DoubleMagnitude(d: nat): nat {
    var e, m := d / 0x10_0000_0000_0000, d % 0x10_0000_0000_0000;
    if e == 0 then m else (m + 0x10_0000_0000_0000) * Pow2(e - 1)
  }

  // k is the float nearest to x, and of two that are equally near the one with the larger magnitude
  // (roundTiesToAway, section 4.3.1 of IEEE 754-2008).
  ghost predicate RoundsTo(x: nat, k: nat) {
    && k <= INFINITY
    && (k > 0 ==> FloatMagnitude(k - 1) + FloatMagnitude(k) <= 2 * x)
    && (k < INFINITY ==> 2 * x < FloatMagnitude(k) + FloatMagnitude(k + 1))
  }

  lemma PowerDoubles(n: nat)
    ensures Pow2(n + 1) == 2 * Pow2(n)
  {
  }

  lemma UlpIs(e: nat, n: nat)
    requires n == (if e == 0 then 1 else e) + 924
    ensures Ulp(e) == Pow2(n)
  {
    hide Pow2;
  }

  lemma UlpDoubles(e: nat)
    ensures Ulp(e + 1) == if e == 0 then Ulp(e) else 2 * Ulp(e)
  {
    hide Pow2;
    if e > 0 {
      PowerDoubles(e + 924);
    }
  }

  // 1.0 is the same number in both formats, which fixes the units of one against the other.
  lemma OneIsOne()
    ensures FloatMagnitude(0x3F80_0000) == DoubleMagnitude(0x3FF0_0000_0000_0000) > 0
  {
    hide Pow2;
    UlpIs(127, 1051);
    Pow2Sum(23, 1051);
    Pow2Sum(52, 1022);
    SmallPowers();
  }

  lemma SmallPowers()
    ensures Pow2(23) == 0x80_0000 && Pow2(52) == 0x10_0000_0000_0000
  {
    assert Pow2(3) == 8 && Pow2(4) == 16 && Pow2(8) == 256;
    hide Pow2;
    Pow2Sum(8, 8);
    Pow2Sum(4, 3);
    Pow2Sum(16, 7);
    Pow2Sum(16, 16);
    Pow2Sum(16, 4);
    Pow2Sum(32, 20);
  }

  // Between neighbours lies one unit in the last place.
  lemma FloatStep(k: nat)
    ensures FloatMagnitude(k + 1) == FloatMagnitude(k) + Ulp(k / 0x80_0000)
  {
    hide Ulp;
    var e, m := k / 0x80_0000, k % 0x80_0000;
    UlpDoubles(e);
    if m == 0x7F_FFFF {
      assert (k + 1) / 0x80_0000 == e + 1 && (k + 1) % 0x80_0000 == 0;
    } else {
      assert (k + 1) / 0x80_0000 == e && (k + 1) % 0x80_0000 == m + 1;
      var u := Ulp(e);
      hide FloatMagnitude;
      assert (m + 1) * u == m * u + u && (m + 1 + 0x80_0000) * u == (m + 0x80_0000) * u + u;
    }
  }

  lemma {:induction false} FloatsIncrease(a: nat, b: nat)
    requires a < b
    ensures FloatMagnitude(a) < FloatMagnitude(b)
  {
    hide FloatMagnitude;
    FloatStep(b - 1);
    if a < b - 1 {
      FloatsIncrease(a, b - 1);
    }
  }

  // There is only one float that a magnitude rounds to.
  lemma RoundingIsUnique(x: nat, j: nat, k: nat)
    requires RoundsTo(x, j) && RoundsTo(x, k)
    ensures j == k
  {
    hide FloatMagnitude;
    if j < k {
      NoOverlap(x, j, k);
    } else if k < j {
      NoOverlap(x, k, j);
    }
  }

  lemma NoOverlap(x: nat, j: nat, k: nat)
    requires j < k && RoundsTo(x, j)
    ensures !RoundsTo(x, k)
  {
    hide FloatMagnitude;
    if j < k - 1 {
      FloatsIncrease(j, k - 1);
      FloatsIncrease(j + 1, k);
    }
  }

  // A float rounds to itself.
  lemma FloatIsExact(k: nat)
    requires k <= INFINITY
    ensures RoundsTo(FloatMagnitude(k), k)
  {
    hide FloatMagnitude;
    if k > 0 {
      FloatsIncrease(k - 1, k);
    }
    FloatsIncrease(k, k + 1);
  }

  // --- pb_encode_float_as_double

  // The loop that normalises a denormalised mantissa: shifted by n bits, one of them before the loop.
  method Normalise(m: nat) returns (mantissa: nat, exponent: int, ghost n: nat)
    requires 0 < m < 0x80_0000
    ensures 1 <= n <= 23 && exponent == -126 - n
    ensures mantissa < 0x80_0000 && mantissa + 0x80_0000 == m * Pow2(n)
  {
    exponent := -127;
    n := 1;
    mantissa := m * 2;
    while mantissa < 0x80_0000
      invariant n >= 1 && exponent == -126 - n && mantissa == m * Pow2(n) && 2 * m <= mantissa < 0x100_0000
      decreases 0x80_0000 - mantissa
    {
      assert m * Pow2(n + 1) == 2 * (m * Pow2(n));
      mantissa := mantissa * 2;
      exponent := exponent - 1;
      n := n + 1;
    }
    ShiftBound(m, n);
    mantissa := mantissa - 0x80_0000;
  }

  lemma {:induction false} PowersGrow(a: nat, b: nat)
    requires a <= b
    ensures Pow2(a) <= Pow2(b)
  {
    if a < b {
      PowersGrow(a, b - 1);
    }
  }

  lemma ShiftBound(m: nat, n: nat)
    requires 0 < m && m * Pow2(n) < 0x100_0000
    ensures n <= 23
  {
    if n >= 24 {
      LongShift(m, n);
    }
  }

  lemma LongShift(m: nat, n: nat)
    requires 0 < m && n >= 24
    ensures m * Pow2(n) >= 0x100_0000
  {
    assert Pow2(8) == 256;
    hide Pow2;
    Pow2Sum(8, 8);
    Pow2Sum(8, 16);
    PowersGrow(24, n);
    assert m * Pow2(n) >= Pow2(n);
  }

  // --- The words and their fields

  lemma FloatFields(bits: uint32)
    ensures var sign, e, m := bits / 0x8000_0000, bits / 0x80_0000 % 0x100, bits % 0x80_0000;
      bits % 0x8000_0000 == e * 0x80_0000 + m && bits == sign * 0x8000_0000 + bits % 0x8000_0000
  {
  }

  lemma DoubleFields(value: uint64)
    ensures var d := value % 0x8000_0000_0000_0000;
      && value == value / 0x8000_0000_0000_0000 * 0x8000_0000_0000_0000 + d
      && value / 0x10_0000_0000_0000 % 0x800 == d / 0x10_0000_0000_0000
      && value / 0x1000_0000 % 0x100_0000 == d % 0x10_0000_0000_0000 / 0x1000_0000
  {
    var top := value / 0x1000_0000;
    assert top == value / 0x10_0000_0000_0000 * 0x100_0000 + top % 0x100_0000;
  }

  lemma FloatParts(e: nat, m: nat)
    requires m < 0x80_0000
    ensures FloatMagnitude(e * 0x80_0000 + m) == (if e == 0 then m else m + 0x80_0000) * Ulp(e)
  {
    hide Ulp;
    assert (e * 0x80_0000 + m) / 0x80_0000 == e && (e * 0x80_0000 + m) % 0x80_0000 == m;
  }

  lemma DoubleParts(e: nat, m: nat)
    requires m < 0x10_0000_0000_0000
    ensures DoubleMagnitude(e * 0x10_0000_0000_0000 + m)
         == if e == 0 then m else (m + 0x10_0000_0000_0000) * Pow2(e - 1)
  {
    hide Pow2;
    assert (e * 0x10_0000_0000_0000 + m) / 0x10_0000_0000_0000 == e;
    assert (e * 0x10_0000_0000_0000 + m) % 0x10_0000_0000_0000 == m;
  }

  lemma JoinDouble(mantissa: nat, e: nat, sign: nat)
    requires mantissa < 0x80_0000 && e < 0x800 && sign < 2
    ensures var d := mantissa * 0x2000_0000 + e * 0x10_0000_0000_0000;
      && d < 0x8000_0000_0000_0000
      && (d + sign * 0x8000_0000_0000_0000) / 0x8000_0000_0000_0000 == sign
      && (d + sign * 0x8000_0000_0000_0000) % 0x8000_0000_0000_0000 == d
  {
  }

  lemma TwoTo29()
    ensures Pow2(29) == 0x2000_0000
  {
    assert Pow2(10) == 0x400;
    Pow2Sum(10, 10);
    assert Pow2(9) == 0x200;
    Pow2Sum(20, 9);
  }

  lemma NormalWidens(e: nat, m: nat)
    requires 0 < e < 255 && m < 0x80_0000
    ensures DoubleMagnitude(m * 0x2000_0000 + (e + 896) * 0x10_0000_0000_0000) == FloatMagnitude(e * 0x80_0000 + m)
  {
    hide Pow2, Ulp, FloatMagnitude, DoubleMagnitude;
    FloatParts(e, m);
    DoubleParts(e + 896, m * 0x2000_0000);
    TwoTo29();
    Pow2Sum(29, e + 895);
    UlpIs(e, e + 924);
    Regroup(m, Pow2(e + 895));
  }

  lemma Regroup(m: nat, w: nat)
    ensures (m * 0x2000_0000 + 0x10_0000_0000_0000) * w == (m + 0x80_0000) * (0x2000_0000 * w)
  {
  }

  lemma DenormalWidens(m: nat, mantissa: nat, n: nat)
    requires 0 < m < 0x80_0000 && 1 <= n <= 23
    requires mantissa < 0x80_0000 && mantissa + 0x80_0000 == m * Pow2(n)
    ensures DoubleMagnitude(mantissa * 0x2000_0000 + (897 - n) * 0x10_0000_0000_0000) == FloatMagnitude(m)
  {
    hide Pow2, Ulp, FloatMagnitude, DoubleMagnitude;
    FloatParts(0, m);
    DoubleParts(897 - n, mantissa * 0x2000_0000);
    TwoTo29();
    Pow2Sum(29, 896 - n);
    Pow2Sum(n, 925 - n);
    UlpIs(0, 925);
    Regroup(mantissa, Pow2(896 - n));
    Associates(m, Pow2(n), Pow2(925 - n));
  }

  lemma Associates(a: nat, b: nat, c: nat)
    ensures (a * b) * c == a * (b * c)
  {
  }

  // Every float is a double: the sign and the magnitude are kept. Infinity and the NaNs keep their
  // mantissa.
  method FloatAsDouble(bits: uint32) returns (value: uint64)
    ensures value / 0x8000_0000_0000_0000 == bits / 0x8000_0000
    ensures var k, d := bits % 0x8000_0000, value % 0x8000_0000_0000_0000;
      if k < INFINITY then DoubleMagnitude(d) == FloatMagnitude(k)
      else d == DOUBLE_INFINITY + (k - INFINITY) * 0x2000_0000
  {
    hide Pow2, Ulp, FloatMagnitude, DoubleMagnitude;
    FloatFields(bits);
    FloatParts(0, 0);
    DoubleParts(0, 0);
    var sign := bits / 0x8000_0000;
    var exponent: int := bits / 0x80_0000 % 0x100 - 127;
    var mantissa: nat := bits % 0x80_0000;
    if exponent == 128 {
      exponent := 1024;
    } else if exponent == -127 {
      if mantissa == 0 {
        exponent := -1023;
      } else {
        ghost var m := mantissa;
        ghost var n;
        mantissa, exponent, n := Normalise(mantissa);
        DenormalWidens(m, mantissa, n);
      }
    } else {
      NormalWidens(exponent + 127, mantissa);
    }
    JoinDouble(mantissa, exponent + 1023, sign);
    value := mantissa * 0x2000_0000 + (exponent + 1023) * 0x10_0000_0000_0000 + sign * 0x8000_0000_0000_0000;
  }

  // --- pb_decode_double_as_float

  // Half up on the highest 24 bits is rounding the whole mantissa to 23: in units of w.
  lemma HalfUp(high: nat, shift: nat, r: nat, w: nat)
    requires shift > 0 && w > 0
    requires r == (high / shift + 1) / 2
    ensures (high + 1) * w <= (2 * r + 1) * (shift * w)
    ensures r > 0 ==> (2 * r - 1) * (shift * w) <= high * w
  {
    var q := high / shift;
    assert q <= 2 * r;
    assert high + 1 <= (2 * r + 1) * shift by {
      assert high < (q + 1) * shift;
      Monotone(q + 1, 2 * r + 1, shift);
    }
    Monotone(high + 1, (2 * r + 1) * shift, w);
    Associates(2 * r + 1, shift, w);
    if r > 0 {
      assert 2 * r - 1 <= q && q * shift <= high;
      Monotone(2 * r - 1, q, shift);
      Monotone((2 * r - 1) * shift, high, w);
      Associates(2 * r - 1, shift, w);
    }
  }

  lemma Monotone(a: nat, b: nat, c: nat)
    requires a <= b
    ensures a * c <= b * c
  {
  }

  // With one unit in the last place on either side.
  lemma NearestFrom(x: nat, k: nat, half: nat, r: nat)
    requires half > 0 && k <= INFINITY && FloatMagnitude(k) == r * (2 * half)
    requires FloatMagnitude(k + 1) >= FloatMagnitude(k) + 2 * half
    requires k > 0 ==> FloatMagnitude(k - 1) + 2 * half <= FloatMagnitude(k) || FloatMagnitude(k) <= x
    requires x < (2 * r + 1) * half && (r > 0 ==> (2 * r - 1) * half <= x)
    ensures RoundsTo(x, k)
  {
    hide FloatMagnitude;
    assert (2 * r + 1) * half == r * (2 * half) + half;
    if r > 0 {
      assert (2 * r - 1) * half == r * (2 * half) - half;
    }
    if k > 0 {
      FloatsIncrease(k - 1, k);
    }
  }

  // How far the mantissa of a double with this exponent field is shifted: not at all in the range of
  // the normal floats, which starts at 897.
  function Shift(e: nat): nat {
    if e < 897 then 897 - e else 0
  }

  function Quotient(a: nat, b: nat): nat
    requires b > 0
  {
    a / b
  }

  function ShiftRight(a: nat, n: nat): nat {
    Quotient(a, Pow2(n))
  }

  // The highest bits of the mantissa with the hidden one, shifted and rounded half up.
  function Rounded(e: nat, m: nat): nat {
    (ShiftRight(0x100_0000 + m / 0x1000_0000, Shift(e)) + 1) / 2
  }

  lemma ShiftHalves(a: nat, n: nat)
    requires n > 0
    ensures ShiftRight(a, n) <= a / 2
  {
    PowersGrow(1, n);
    assert Pow2(1) == 2;
    hide Pow2;
    Shrinks(a, Pow2(n));
  }

  lemma ShiftNothing(a: nat, e: nat)
    requires e >= 897
    ensures Pow2(Shift(e)) == 1 && ShiftRight(a, Shift(e)) == a
  {
  }

  lemma RoundedBounds(e: nat, m: nat)
    requires 873 <= e && m < 0x10_0000_0000_0000
    ensures if e >= 897 then 0x80_0000 <= Rounded(e, m) <= 0x100_0000 else Rounded(e, m) <= 0x80_0000
  {
    hide ShiftRight;
    var high := 0x100_0000 + m / 0x1000_0000;
    if e < 897 {
      ShiftHalves(high, Shift(e));
    } else {
      ShiftNothing(high, e);
    }
  }

  lemma Shrinks(a: nat, b: nat)
    requires b >= 2
    ensures a / b <= a / 2
  {
    var q := a / b;
    assert q * b <= a;
    Monotone(2, b, q);
  }

  // The float that the fields of the decoder make up.
  function FloatOf(e: nat, r: nat): nat {
    (if e >= 897 then (e - 897) * 0x80_0000 else 0) + r
  }

  lemma RoundedMagnitude(e: nat, r: nat)
    requires if e >= 897 then 0x80_0000 <= r <= 0x100_0000 else r <= 0x80_0000
    ensures FloatMagnitude(FloatOf(e, r)) == r * Pow2(e + 28 + Shift(e))
  {
    hide Pow2, Ulp, FloatMagnitude;
    if e < 897 {
      UlpIs(0, e + 28 + Shift(e));
      UlpIs(1, e + 28 + Shift(e));
      if r == 0x80_0000 {
        FloatParts(1, 0);
      } else {
        FloatParts(0, r);
      }
    } else if r == 0x100_0000 {
      FloatParts(e - 895, 0);
      UlpIs(e - 895, e + 29);
      PowerDoubles(e + 28);
    } else {
      FloatParts(e - 896, r - 0x80_0000);
      UlpIs(e - 896, e + 28);
    }
  }

  lemma UnitsAround(e: nat, r: nat)
    requires if e >= 897 then 0x80_0000 <= r <= 0x100_0000 else r <= 0x80_0000
    ensures var k, ulp := FloatOf(e, r), Pow2(e + 28 + Shift(e));
      && FloatMagnitude(k + 1) >= FloatMagnitude(k) + ulp
      && (k > 0 && (e >= 897 ==> r > 0x80_0000) ==> FloatMagnitude(k - 1) + ulp == FloatMagnitude(k))
  {
    hide Pow2, Ulp, FloatMagnitude;
    var k, n := FloatOf(e, r), e + 28 + Shift(e);
    FloatStep(k);
    var above := k / 0x80_0000;
    UlpIs(above, (if above == 0 then 1 else above) + 924);
    PowersGrow(n, (if above == 0 then 1 else above) + 924);
    if k > 0 && (e >= 897 ==> r > 0x80_0000) {
      FloatStep(k - 1);
      assert (k - 1) / 0x80_0000 == if e < 897 then 0 else e - 896;
      UlpIs((k - 1) / 0x80_0000, n);
    }
  }

  // In the range of the floats, denormalised ones included, the decoder rounds right.
  lemma InRangeRounds(e: nat, m: nat)
    requires 873 <= e <= 1150 && m < 0x10_0000_0000_0000
    ensures RoundsTo(DoubleMagnitude(e * 0x10_0000_0000_0000 + m), FloatOf(e, Rounded(e, m)))
  {
    hide Pow2, Ulp, FloatMagnitude, DoubleMagnitude;
    var x := DoubleMagnitude(e * 0x10_0000_0000_0000 + m);
    var high, shift := 0x100_0000 + m / 0x1000_0000, Pow2(Shift(e));
    var r, w := Rounded(e, m), 0x1000_0000 * Pow2(e - 1);
    var half := shift * w;
    DoubleParts(e, m);
    RoundedBounds(e, m);
    RoundedMagnitude(e, r);
    UnitsAround(e, r);
    UlpIsTwoHalves(e);
    HalfUp(high, shift, r, w);
    Between(m, high, Pow2(e - 1));
    if e >= 897 && r == 0x80_0000 {
      Monotone(0x10_0000_0000_0000, m + 0x10_0000_0000_0000, Pow2(e - 1));
      ShiftNothing(high, e);
    }
    NearestFrom(x, FloatOf(e, r), half, r);
  }

  lemma Between(m: nat, high: nat, w: nat)
    requires high == 0x100_0000 + m / 0x1000_0000 && w > 0
    ensures high * (0x1000_0000 * w) <= (m + 0x10_0000_0000_0000) * w < (high + 1) * (0x1000_0000 * w)
  {
    Associates(high, 0x1000_0000, w);
    Associates(high + 1, 0x1000_0000, w);
    Monotone(high * 0x1000_0000, m + 0x10_0000_0000_0000, w);
    Monotone(m + 0x10_0000_0000_0000 + 1, (high + 1) * 0x1000_0000, w);
  }

  lemma UlpIsTwoHalves(e: nat)
    requires e >= 1
    ensures Pow2(e + 28 + Shift(e)) == 2 * (Pow2(Shift(e)) * (0x1000_0000 * Pow2(e - 1)))
  {
    hide Pow2;
    TwoTo29();
    Pow2Sum(29, e - 1);
    Pow2Sum(e + 28, Shift(e));
    var a, b := Pow2(Shift(e)), Pow2(e - 1);
    assert (0x2000_0000 * b) * a == 2 * (a * (0x1000_0000 * b));
  }

  lemma TooSmallRounds(e: nat, m: nat)
    requires e < 873 && m < 0x10_0000_0000_0000
    ensures RoundsTo(DoubleMagnitude(e * 0x10_0000_0000_0000 + m), 0)
  {
    hide Pow2, Ulp, FloatMagnitude, DoubleMagnitude;
    DoubleParts(e, m);
    FloatParts(0, 0);
    FloatParts(0, 1);
    BelowHalf(e, m);
    PowerDoubles(924);
    UlpIs(0, 925);
  }

  lemma BelowHalf(e: nat, m: nat)
    requires e < 873 && m < 0x10_0000_0000_0000
    ensures (if e == 0 then m else (m + 0x10_0000_0000_0000) * Pow2(e - 1)) < Pow2(924)
  {
    hide Pow2;
    TwoTo53();
    PowersGrow(53, 924);
    if e > 0 {
      Pow2Sum(53, e - 1);
      PowersGrow(53 + (e - 1), 924);
      Monotone(m + 0x10_0000_0000_0000 + 1, 0x20_0000_0000_0000, Pow2(e - 1));
    }
  }

  lemma TwoTo53()
    ensures Pow2(53) == 0x20_0000_0000_0000
  {
    TwoTo29();
    assert Pow2(12) == 0x1000;
    hide Pow2;
    Pow2Sum(12, 12);
    Pow2Sum(24, 29);
  }

  lemma TooLargeRounds(e: nat, m: nat)
    requires 1150 < e && m < 0x10_0000_0000_0000
    ensures RoundsTo(DoubleMagnitude(e * 0x10_0000_0000_0000 + m), INFINITY)
  {
    hide Pow2, Ulp, FloatMagnitude, DoubleMagnitude;
    NotBelowFloat(e - 896, m);
    if e > 1151 {
      FloatsIncrease(INFINITY, (e - 896) * 0x80_0000);
    }
    FloatsIncrease(INFINITY - 1, INFINITY);
  }

  // A double is not below the power of two with its exponent.
  lemma NotBelowFloat(e: nat, m: nat)
    requires e > 0 && m < 0x10_0000_0000_0000
    ensures DoubleMagnitude((e + 896) * 0x10_0000_0000_0000 + m) >= FloatMagnitude(e * 0x80_0000)
  {
    hide Pow2, Ulp, FloatMagnitude, DoubleMagnitude;
    FloatParts(e, 0);
    DoubleParts(e + 896, m);
    TwoTo29();
    Pow2Sum(29, e + 895);
    UlpIs(e, e + 924);
    Regroup(0, Pow2(e + 895));
    Monotone(0x10_0000_0000_0000, m + 0x10_0000_0000_0000, Pow2(e + 895));
  }

  // The decoder keeps the sign and rounds to nearest, ties away from zero. A NaN remains one unless
  // the 24 bits that are looked at are all zeros, when it becomes infinity, or all ones, when the
  // carry runs through the exponent into the sign and it becomes negative zero.
  method DoubleAsFloat(value: uint64) returns (bits: uint32)
    ensures var d, k := value % 0x8000_0000_0000_0000, bits % 0x8000_0000;
      if d <= DOUBLE_INFINITY then
        bits / 0x8000_0000 == value / 0x8000_0000_0000_0000 && RoundsTo(DoubleMagnitude(d), k)
      else
        var high := d % 0x10_0000_0000_0000 / 0x1000_0000;
        if high == 0xFF_FFFF then bits == 0x8000_0000
        else bits / 0x8000_0000 == value / 0x8000_0000_0000_0000 && k == INFINITY + (high + 1) / 2
  {
    ghost var d := value % 0x8000_0000_0000_0000;
    ghost var e, m := d / 0x10_0000_0000_0000, d % 0x10_0000_0000_0000;
    DoubleFields(value);
    DecoderRounds(e, m);
    hide *;
    var sign := value / 0x8000_0000_0000_0000;
    var exponent, mantissa := InRange(value / 0x10_0000_0000_0000 % 0x800, value / 0x1000_0000 % 0x100_0000);
    bits := RoundOff(mantissa, exponent, sign);
  }

  // What the fields become when the double is brought into the range of the floats.
  ghost function Selected(e: nat, high: nat): (int, nat) {
    if e == 2047 then (128, high)
    else if e > 1150 then (128, 0)
    else if e < 873 then (-127, 0)
    else if e < 897 then (-127, ShiftRight(0x100_0000 + high, 897 - e))
    else (e - 1023, high)
  }

  method InRange(field: nat, high: nat) returns (exponent: int, mantissa: nat)
    requires field < 0x800 && high < 0x100_0000
    ensures (exponent, mantissa) == Selected(field, high)
  {
    hide ShiftRight;
    exponent, mantissa := field - 1023, high;
    if exponent == 1024 {
      exponent := 128;
    } else if exponent > 127 {
      exponent := 128;
      mantissa := 0;
    } else if exponent < -150 {
      exponent := -127;
      mantissa := 0;
    } else if exponent < -126 {
      mantissa := mantissa + 0x100_0000;
      mantissa := ShiftRight(mantissa, -126 - exponent);
      exponent := -127;
    }
  }

  lemma DecoderRounds(e: nat, m: nat)
    requires e < 0x800 && m < 0x10_0000_0000_0000
    ensures var d, (exponent, mantissa) := e * 0x10_0000_0000_0000 + m, Selected(e, m / 0x1000_0000);
      var r := (mantissa + 1) / 2;
      && -127 <= exponent <= 128 && mantissa < 0x100_0000
      && if d <= DOUBLE_INFINITY then
           (exponent == 128 ==> r < 0x80_0000) && RoundsTo(DoubleMagnitude(d), (exponent + 127) * 0x80_0000 + r)
         else
           exponent == 128 && mantissa == m / 0x1000_0000 && INFINITY == 255 * 0x80_0000
  {
    hide RoundsTo, DoubleMagnitude, ShiftRight;
    if e > 1150 {
      TooLargeRounds(e, m);
    } else if e < 873 {
      TooSmallRounds(e, m);
    } else {
      InRangeRounds(e, m);
      RoundedBounds(e, m);
      if e >= 897 {
        ShiftNothing(0x100_0000 + m / 0x1000_0000, e);
      } else {
        ShiftHalves(0x100_0000 + m / 0x1000_0000, 897 - e);
      }
    }
  }

  // The end of the decoder: the carry of the mantissa runs into the exponent.
  method RoundOff(mantissa24: nat, exponentIn: int, sign: nat) returns (bits: uint32)
    requires mantissa24 < 0x100_0000 && -127 <= exponentIn <= 128 && sign < 2
    ensures var r := (mantissa24 + 1) / 2;
      if exponentIn == 128 && r == 0x80_0000 then bits == 0x8000_0000
      else bits / 0x8000_0000 == sign && bits % 0x8000_0000 == (exponentIn + 127) * 0x80_0000 + r
  {
    var mantissa, exponent := (mantissa24 + 1) / 2, exponentIn;
    if mantissa >= 0x80_0000 {
      exponent := exponent + 1;
      mantissa := mantissa % 0x80_0000;
      mantissa := mantissa / 2;
    }
    bits := Combine(mantissa, exponent + 127, sign);
  }

  // The fields of a float side by side; an exponent of 256 covers the place of the sign.
  function Combine(mantissa: nat, exponent: nat, sign: nat): (bits: uint32)
    requires mantissa < 0x80_0000 && exponent <= 256 && sign < 2 && (exponent == 256 ==> mantissa == 0)
    ensures exponent < 256 ==> bits / 0x8000_0000 == sign && bits % 0x8000_0000 == exponent * 0x80_0000 + mantissa
    ensures exponent == 256 ==> bits == 0x8000_0000
  {
    if exponent == 256 then 0x8000_0000 else mantissa + exponent * 0x80_0000 + sign * 0x8000_0000
  }

  // Every float comes back, bit for bit, denormalised ones, infinities and NaNs included.
  method ThereAndBack(bits: uint32) returns (back: uint32)
    ensures back == bits
  {
    hide RoundsTo, FloatMagnitude, DoubleMagnitude;
    var value := FloatAsDouble(bits);
    back := DoubleAsFloat(value);
    SameMagnitude(bits % 0x8000_0000, value % 0x8000_0000_0000_0000, back % 0x8000_0000);
    hide *;
    SameWord(bits, back);
  }

  lemma SameWord(a: uint32, b: uint32)
    requires a / 0x8000_0000 == b / 0x8000_0000 && a % 0x8000_0000 == b % 0x8000_0000
    ensures a == b
  {
  }

  // What FloatAsDouble makes of a magnitude, DoubleAsFloat takes back.
  lemma SameMagnitude(k: nat, d: nat, back: nat)
    requires k < 0x8000_0000
    requires
      if k < INFINITY then DoubleMagnitude(d) == FloatMagnitude(k)
      else d == DOUBLE_INFINITY + (k - INFINITY) * 0x2000_0000
    ensures d > DOUBLE_INFINITY ==>
      d % 0x10_0000_0000_0000 / 0x1000_0000 == 2 * (k - INFINITY) < 0xFF_FFFF && k > INFINITY
    ensures (if d <= DOUBLE_INFINITY then RoundsTo(DoubleMagnitude(d), back)
             else back == INFINITY + (d % 0x10_0000_0000_0000 / 0x1000_0000 + 1) / 2)
      ==> back == k
  {
    hide RoundsTo, FloatMagnitude, DoubleMagnitude;
    if k < INFINITY {
      FiniteIsBelow(d, k);
      FloatIsExact(k);
    } else if k == INFINITY {
      TooLargeRounds(2047, 0);
    }
    if d <= DOUBLE_INFINITY && RoundsTo(DoubleMagnitude(d), back) {
      RoundingIsUnique(DoubleMagnitude(d), k, back);
    }
  }

  // The double of a finite float is finite.
  lemma FiniteIsBelow(d: nat, k: nat)
    requires k < INFINITY && DoubleMagnitude(d) == FloatMagnitude(k)
    ensures d <= DOUBLE_INFINITY
  {
    hide FloatMagnitude, DoubleMagnitude, RoundsTo;
    var e, m := d / 0x10_0000_0000_0000, d % 0x10_0000_0000_0000;
    if e > 1150 {
      assert d == e * 0x10_0000_0000_0000 + m;
      TooLargeRounds(e, m);
      FloatIsExact(k);
      RoundingIsUnique(FloatMagnitude(k), k, INFINITY);
    }
  }
}
