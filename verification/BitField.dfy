// Bit fields in unsigned words, with | and shifts as arithmetic.
module BitField {
  import opened Bytes

  const ALL_BITS := 0xFFFF_FFFF

  predicate Bit(w: nat, k: nat) {
    if k == 0 then w % 2 == 1 else Bit(w / 2, k - 1)
  }

  function Or(a: nat, b: nat): nat {
    if a == 0 && b == 0 then 0
    else (if a % 2 == 1 || b % 2 == 1 then 1 else 0) + 2 * Or(a / 2, b / 2)
  }

  lemma {:induction false} BitOfZero(k: nat)
    ensures !Bit(0, k)
  {
    if k > 0 {
      BitOfZero(k - 1);
    }
  }

  lemma {:induction false} BitOr(a: nat, b: nat, k: nat)
    ensures Bit(Or(a, b), k) <==> Bit(a, k) || Bit(b, k)
  {
    if a == 0 && b == 0 {
      BitOfZero(k);
    } else {
      OrStep(a, b);
      BitStep(a, k);
      BitStep(b, k);
      BitStep(Or(a, b), k);
      hide Or, Bit;
      if k > 0 {
        BitOr(a / 2, b / 2, k - 1);
      }
    }
  }

  lemma BitStep(w: nat, k: nat)
    ensures Bit(w, k) <==> if k == 0 then w % 2 == 1 else Bit(w / 2, k - 1)
  {
  }

  lemma OrStep(a: nat, b: nat)
    requires a != 0 || b != 0
    ensures Or(a, b) % 2 == 1 <==> a % 2 == 1 || b % 2 == 1
    ensures Or(a, b) / 2 == Or(a / 2, b / 2)
  {
    var low := if a % 2 == 1 || b % 2 == 1 then 1 else 0;
    var high := Or(a / 2, b / 2);
    assert Or(a, b) == low + 2 * high;
    hide Or;
  }

  lemma {:induction false} BitOfPow2(n: nat, k: nat)
    ensures Bit(Pow2(n), k) <==> k == n
  {
    if n == 0 {
      if k > 0 {
        BitOfZero(k - 1);
      }
    } else if k > 0 {
      BitOfPow2(n - 1, k - 1);
    }
  }

  // The set bits are exactly the n lowest ones.
  ghost predicate LowOnly(w: nat, n: nat) {
    forall k: nat :: Bit(w, k) == (k < n)
  }

  lemma {:induction false} LowOnes(w: nat, n: nat)
    ensures LowOnly(w, n) <==> w == Pow2(n) - 1
  {
    if LowOnly(w, n) {
      LowOnesOnly(w, n);
    }
    if w == Pow2(n) - 1 {
      forall k: nat
        ensures Bit(w, k) == (k < n)
      {
        LowOnesBits(n, k);
      }
    }
  }

  lemma {:induction false} LowOnesBits(n: nat, k: nat)
    ensures Bit(Pow2(n) - 1, k) <==> k < n
  {
    if n == 0 {
      BitOfZero(k);
    } else if k > 0 {
      LowOnesBits(n - 1, k - 1);
      assert (Pow2(n) - 1) / 2 == Pow2(n - 1) - 1;
    }
  }

  lemma {:induction false} LowOnesOnly(w: nat, n: nat)
    requires LowOnly(w, n)
    ensures w == Pow2(n) - 1
    decreases w + n
  {
    assert Bit(w, 0) == (0 < n);
    if n == 0 {
      NoBits(w);
    } else {
      forall k: nat
        ensures Bit(w / 2, k) == (k < n - 1)
      {
        assert Bit(w, k + 1) == (k + 1 < n);
      }
      LowOnesOnly(w / 2, n - 1);
    }
  }

  lemma {:induction false} NoBits(w: nat)
    requires forall k: nat :: !Bit(w, k)
    ensures w == 0
  {
    assert !Bit(w, 0);
    if w > 0 {
      forall k: nat
        ensures !Bit(w / 2, k)
      {
        assert !Bit(w, k + 1);
      }
      NoBits(w / 2);
    }
  }

  // allbits >> (32 - n) keeps n ones.
  lemma ShiftedOnes(n: nat)
    requires 0 < n < 32
    ensures ALL_BITS / Pow2(32 - n) == Pow2(n) - 1
  {
    hide Pow2;
    Pow2Sum(n, 32 - n);
    Pow2Is32();
    var p, q := Pow2(n), Pow2(32 - n);
    assert p * q == ALL_BITS + 1;
    assert ALL_BITS == (p - 1) * q + (q - 1);
    DivideExactly(p - 1, q);
  }

  lemma DivideExactly(a: nat, q: nat)
    requires q > 0
    ensures (a * q + (q - 1)) / q == a
  {
    var w := a * q + (q - 1);
    var d := w / q - a;
    assert q * d == (q - 1) - w % q;
    if d >= 1 {
      AtLeast(q, d);
    } else if d <= -1 {
      AtLeast(q, -d);
    }
  }

  lemma Pow2Is32()
    ensures Pow2(32) == ALL_BITS + 1
  {
    assert Pow2(8) == 256;
    Pow2Sum(8, 8);
    Pow2Sum(16, 16);
  }
}
