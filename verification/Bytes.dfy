// Machine integers, byte strings, the result types and the few facts that several modules share.
module Bytes {
  const TWO_31 := 0x8000_0000
  const TWO_32 := 0x1_0000_0000
  const TWO_63 := 0x8000_0000_0000_0000
  const TWO_64 := 0x1_0000_0000_0000_0000

  type byte = x: int | 0 <= x < 0x100
  type uint32 = x: int | 0 <= x < TWO_32
  type uint64 = x: int | 0 <= x < TWO_64
  type int64 = x: int | -TWO_63 <= x < TWO_63

  datatype Option<+T> = None | Some(value: T)

  // What a reader makes of the bytes in front of it: nothing, or a value and the bytes it left.
  datatype Parse<+T> = Bad | Got(value: T, rest: seq<byte>)

  // An unsigned word of the given width read as two's complement.
  function Signed(n: int, bits: int): int
    requires bits == TWO_32 || bits == TWO_64 || bits == 0x1_0000 || bits == 0x100
  {
    var w := n % bits;
    if w < bits / 2 then w else w - bits
  }

  // Shifting left by n is multiplying by Pow2(n).
  function Pow2(n: nat): (p: nat)
    ensures p > 0
  {
    if n == 0 then 1 else 2 * Pow2(n - 1)
  }

  lemma {:induction false} Pow2Sum(a: nat, b: nat)
    ensures Pow2(a + b) == Pow2(a) * Pow2(b)
  {
    if a > 0 {
      Pow2Sum(a - 1, b);
      assert Pow2(a + b) == 2 * (Pow2(a - 1) * Pow2(b));
    }
  }

  lemma AtLeast(q: int, d: int)
    requires q >= 0 && d >= 1
    ensures q * d >= q && q * -d <= -q
  {
  }

  // A sequence with one element taken out.
  function Without<T>(s: seq<T>, i: nat): seq<T>
    requires i < |s|
  {
    s[..i] + s[i + 1..]
  }
}
