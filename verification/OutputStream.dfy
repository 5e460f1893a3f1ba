// The encoder's output stream: a caller's buffer with a size limit, or a stream that only counts.
module OutputStream {
  import opened Bytes
  import Varint

  // What a stream has taken so far. A writing stream began at index start of its buffer; out is
  // the buffer up to the write position, so |out| - start bytes have been written.
  datatype Sink =
    | Sizing(written: nat)
    | Writing(start: nat, maxSize: nat, out: seq<byte>)

  // One write, or a series of them: ok says whether the bytes w existed and there was room for
  // them. After a failure the bytes already in the buffer before it are still there.
  ghost predicate After(s: Sink, ok: bool, w: Option<seq<byte>>, t: Sink) {
    match s
    case Sizing(n) =>
      && t.Sizing?
      && (ok <==> w.Some?)
      && (ok ==> t.written == n + |w.value|)
    case Writing(start, maxSize, out) =>
      && t.Writing? && t.start == start && t.maxSize == maxSize
      && out <= t.out
      && (ok <==> w.Some? && |out| - start + |w.value| <= maxSize)
      && (ok ==> t.out == out + w.value)
  }

  function Cat(a: Option<seq<byte>>, b: Option<seq<byte>>): Option<seq<byte>> {
    if a.None? || b.None? then None else Some(a.value + b.value)
  }

  lemma AfterNothing(s: Sink)
    requires s.Writing? ==> |s.out| <= s.start + s.maxSize
    ensures After(s, true, Some([]), s)
  {
    if s.Writing? {
      assert s.out + [] == s.out;
    }
  }

  // Writes in a row are one write of the concatenation.
  lemma AfterBoth(s: Sink, a: Option<seq<byte>>, t: Sink, ok: bool, b: Option<seq<byte>>, u: Sink)
    requires After(s, true, a, t) && After(t, ok, b, u)
    ensures After(s, ok, Cat(a, b), u)
  {
    if ok && s.Writing? {
      assert s.out + a.value + b.value == s.out + (a.value + b.value);
    }
  }

  // A failed write fails everything it is the beginning of.
  lemma AfterFailure(s: Sink, a: Option<seq<byte>>, t: Sink, b: Option<seq<byte>>)
    requires After(s, false, a, t)
    ensures After(s, false, Cat(a, b), t)
  {
  }

  // A series of writes grows by one more; when that one fails, whatever was to follow it fails too.
  lemma AfterStep(
    s: Sink, done: seq<byte>, t: Sink, ok: bool, w: Option<seq<byte>>, u: Sink, rest: Option<seq<byte>>)
    requires After(s, true, Some(done), t) && After(t, ok, w, u)
    ensures ok ==> w.Some? && After(s, true, Some(done + w.value), u)
    ensures ok ==> Cat(Some(done), Cat(w, rest)) == Cat(Some(done + w.value), rest)
    ensures !ok ==> After(s, false, Cat(Some(done), Cat(w, rest)), u)
  {
    AfterBoth(s, Some(done), t, ok, w, u);
    if ok && rest.Some? {
      assert done + (w.value + rest.value) == done + w.value + rest.value;
    }
  }

  // Little-endian bytes of a word.
  function LittleEndian(n: nat, k: nat): (bs: seq<byte>)
    ensures |bs| == k
  {
    if k == 0 then [] else [n % 256] + LittleEndian(n / 256, k - 1)
  }

  class OStream {
    const sizing: bool
    const buf: array<byte>
    const maxSize: nat
    var pos: nat
    var bytesWritten: nat

    ghost predicate Valid()
      reads this
    {
      !sizing ==> bytesWritten <= maxSize && bytesWritten <= pos && pos - bytesWritten + maxSize <= buf.Length
    }

    ghost function State(): Sink
      requires Valid()
      reads this, buf
    {
      if sizing then Sizing(bytesWritten) else Writing(pos - bytesWritten, maxSize, buf[..pos])
    }

    // A window of size bytes of the given buffer, starting at start.
    constructor FromBuffer(buf: array<byte>, start: nat, size: nat)
      requires start + size <= buf.Length
      ensures Valid() && !sizing && this.buf == buf
      ensures State() == Writing(start, size, buf[..start])
    {
      this.sizing, this.buf, this.maxSize := false, buf, size;
      this.pos, this.bytesWritten := start, 0;
    }

    constructor Sizer()
      ensures Valid() && sizing && fresh(buf)
      ensures State() == Sizing(0)
    {
      sizing, buf, maxSize := true, new byte[0], 0;
      pos, bytesWritten := 0, 0;
    }

    method BufWrite(data: seq<byte>)
      requires pos + |data| <= buf.Length
      modifies this`pos, buf
      ensures pos == old(pos) + |data|
      ensures buf[..pos] == old(buf[..pos]) + data
    {
      var dest := pos;
      pos := dest + |data|;
      var i := 0;
      while i < |data|
        invariant i <= |data| && pos == dest + |data|
        invariant buf[..dest + i] == old(buf[..pos]) + data[..i]
      {
        buf[dest + i] := data[i];
        i := i + 1;
        assert buf[..dest + i] == buf[..dest + i - 1] + [data[i - 1]];
      }
    }

    method Write(data: seq<byte>) returns (ok: bool)
      requires Valid()
      modifies this, buf
      ensures Valid() && After(old(State()), ok, Some(data), State())
    {
      if |data| > 0 && !sizing {
        if bytesWritten + |data| > maxSize {
          return false;
        }
        BufWrite(data);
      }
      bytesWritten := bytesWritten + |data|;
      ok := true;
      assert data == [] && !sizing ==> old(buf[..pos]) + data == old(buf[..pos]);
    }

    // A write without data, which only a sizing stream can take.
    method WriteCount(count: nat)
      requires Valid() && sizing
      modifies this
      ensures Valid() && State() == Sizing(old(bytesWritten) + count)
    {
      bytesWritten := bytesWritten + count;
    }

    // Emits high * 2^32 + low without 64-bit shifts.
    method EncodeVarint32(low: uint32, high: uint32) returns (ok: bool)
      requires Valid()
      modifies this, buf
      ensures Valid() && After(old(State()), ok, Some(Varint.Encode(high * TWO_32 + low)), State())
    {
      var buffer := new byte[10];
      var i := SplitDigits(low, high, buffer);
      ok := Write(buffer[..i]);
    }

    method EncodeVarint(value: uint64) returns (ok: bool)
      requires Valid()
      modifies this, buf
      ensures Valid() && After(old(State()), ok, Some(Varint.Encode(value)), State())
    {
      if value <= 0x7F {
        ok := Write([value]);
      } else {
        ok := EncodeVarint32(value % TWO_32, value / TWO_32);
      }
    }

    // The length of something, converted to the 64-bit argument of the varint writer.
    method EncodeSize(size: nat) returns (ok: bool)
      requires Valid()
      modifies this, buf
      ensures Valid() && After(old(State()), ok, Some(SizePrefix(size)), State())
    {
      ok := EncodeVarint(size % TWO_64);
    }

    method EncodeSVarint(value: int64) returns (ok: bool)
      requires Valid()
      modifies this, buf
      ensures Valid() && After(old(State()), ok, Some(Varint.Encode(Varint.ZigZag(value))), State())
    {
      var zigzagged: uint64;
      if value < 0 {
        zigzagged := TWO_64 - 1 - (2 * value) % TWO_64;
      } else {
        zigzagged := (2 * value) % TWO_64;
      }
      ok := EncodeVarint(zigzagged);
    }

    method EncodeFixed32(val: uint32) returns (ok: bool)
      requires Valid()
      modifies this, buf
      ensures Valid() && After(old(State()), ok, Some(LittleEndian(val, 4)), State())
    {
      var bytes := [val % 0x100, val / 0x100 % 0x100, val / 0x1_0000 % 0x100, val / 0x100_0000 % 0x100];
      FixedBytes32(val);
      ok := Write(bytes);
    }

    method EncodeFixed64(val: uint64) returns (ok: bool)
      requires Valid()
      modifies this, buf
      ensures Valid() && After(old(State()), ok, Some(LittleEndian(val, 8)), State())
    {
      var bytes := [
        val % 0x100, val / 0x100 % 0x100, val / 0x1_0000 % 0x100, val / 0x100_0000 % 0x100,
        val / 0x1_0000_0000 % 0x100, val / 0x100_0000_0000 % 0x100,
        val / 0x1_0000_0000_0000 % 0x100, val / 0x100_0000_0000_0000 % 0x100];
      FixedBytes64(val);
      ok := Write(bytes);
    }

    method EncodeString(data: seq<byte>) returns (ok: bool)
      requires Valid()
      modifies this, buf
      ensures Valid() && After(old(State()), ok, Some(SizePrefix(|data|) + data), State())
    {
      ok := EncodeSize(|data|);
      if !ok {
        AfterFailure(old(State()), Some(SizePrefix(|data|)), State(), Some(data));
        return;
      }
      label L:
      ok := Write(data);
      AfterBoth(old(State()), Some(SizePrefix(|data|)), old@L(State()), ok, Some(data), State());
    }
  }

  // Four digits from the low word, then one digit that joins the two words, then the rest of the
  // high word.
  method SplitDigits(low: uint32, high: uint32, buffer: array<byte>) returns (i: nat)
    requires buffer.Length == 10
    modifies buffer
    ensures i <= 10 && buffer[..i] == Varint.Encode(high * TWO_32 + low)
  {
    hide Varint.Encode, Remaining;
    ghost var all := Varint.Encode(high * TWO_32 + low);
    var lo: nat := low;
    i := 0;
    var b: byte := lo % 0x80;
    lo := lo / 0x80;
    LowWordStart(low, high);
    assert buffer[..0] == [];
    while i < 4 && (lo != 0 || high != 0)
      invariant 0 <= i <= 4 && b < 0x80 && LowBound(i, b, lo)
      invariant all == buffer[..i] + Varint.Encode(Remaining(i, b, lo, high))
    {
      DigitStep(i, b, lo, high);
      buffer[i] := b + 0x80;  // bit 7 of b is clear
      i := i + 1;
      assert buffer[..i] == buffer[..i - 1] + [b + 0x80];
      b := lo % 0x80;
      lo := lo / 0x80;
    }
    LowWordDone(i, b, lo, high);
    if high != 0 {
      i := HighDigits(b + high % 8 * 0x10, high / 8, buffer);  // b is below 16 here
    } else {
      buffer[i] := b;
      i := i + 1;
      assert buffer[..i] == buffer[..i - 1] + [b];
    }
  }

  method HighDigits(first: byte, high: nat, buffer: array<byte>) returns (i: nat)
    requires buffer.Length == 10 && first < 0x80 && high < 0x2000_0000
    modifies buffer
    ensures i <= 10 && buffer[..i] == old(buffer[..4]) + Varint.Encode(first + 0x80 * high)
  {
    hide Varint.Encode;
    ghost var all := buffer[..4] + Varint.Encode(first + 0x80 * high);
    var b: byte, hi: nat := first, high;
    i := 4;
    while hi != 0
      invariant 4 <= i <= 9 && b < 0x80 && HighBound(i, hi)
      invariant all == buffer[..i] + Varint.Encode(b + 0x80 * hi)
    {
      EncodeStep(b, hi);
      buffer[i] := b + 0x80;
      i := i + 1;
      assert buffer[..i] == buffer[..i - 1] + [b + 0x80];
      b := hi % 0x80;
      hi := hi / 0x80;
    }
    EncodeLast(b);
    buffer[i] := b;
    i := i + 1;
    assert buffer[..i] == buffer[..i - 1] + [b];
  }

  // The length prefix of a string, a packed array or a submessage of the given size.
  function SizePrefix(size: nat): seq<byte> {
    Varint.Encode(size % TWO_64)
  }

  // What is still to be written once i digits of the low word are out.
  ghost function Remaining(i: nat, b: nat, lo: nat, hi: nat): nat
    requires i <= 4
  {
    b + 0x80 * lo +
    if i == 0 then hi * TWO_32
    else if i == 1 then hi * 0x200_0000
    else if i == 2 then hi * 0x4_0000
    else if i == 3 then hi * 0x800
    else hi * 0x10
  }

  ghost predicate LowBound(i: nat, b: nat, lo: nat) {
    || (i == 0 && lo < 0x200_0000)
    || (i == 1 && lo < 0x4_0000)
    || (i == 2 && lo < 0x800)
    || (i == 3 && lo < 0x10)
    || (i == 4 && lo == 0 && b < 0x10)
  }

  ghost predicate HighBound(i: nat, hi: nat) {
    || (i == 4 && hi < 0x2000_0000)
    || (i == 5 && hi < 0x40_0000)
    || (i == 6 && hi < 0x8000)
    || (i == 7 && hi < 0x100)
    || (i == 8 && hi < 2)
    || (i == 9 && hi == 0)
  }

  lemma EncodeLast(b: byte)
    requires b < 0x80
    ensures Varint.Encode(b) == [b]
  {
  }

  lemma EncodeStep(b: nat, rest: nat)
    requires b < 0x80 && rest > 0
    ensures Varint.Encode(b + 0x80 * rest) == [b + 0x80] + Varint.Encode(rest)
  {
    var n := b + 0x80 * rest;
    assert n / 128 == rest && n % 128 == b;
  }

  lemma LowWordStart(low: uint32, high: nat)
    ensures LowBound(0, low % 0x80, low / 0x80)
    ensures Remaining(0, low % 0x80, low / 0x80, high) == high * TWO_32 + low
  {
  }

  lemma LowWordDone(i: nat, b: nat, lo: nat, hi: nat)
    requires LowBound(i, b, lo) && (i == 4 || (lo == 0 && hi == 0)) && b < 0x80
    ensures hi == 0 ==> Remaining(i, b, lo, hi) == b && Varint.Encode(b) == [b]
    ensures hi != 0 ==> i == 4 && b + hi % 8 * 0x10 < 0x80
    ensures hi != 0 ==> Remaining(i, b, lo, hi) == (b + hi % 8 * 0x10) + 0x80 * (hi / 8)
  {
  }

  lemma DigitStep(i: nat, b: nat, lo: nat, hi: nat)
    requires b < 0x80 && i < 4 && (lo != 0 || hi != 0) && LowBound(i, b, lo)
    ensures LowBound(i + 1, lo % 0x80, lo / 0x80)
    ensures Varint.Encode(Remaining(i, b, lo, hi))
         == [b + 0x80] + Varint.Encode(Remaining(i + 1, lo % 0x80, lo / 0x80, hi))
  {
    EncodeStep(b, Remaining(i + 1, lo % 0x80, lo / 0x80, hi));
  }

  lemma FourBytes(n: nat, k: nat)
    ensures LittleEndian(n, k + 4)
         == [n % 0x100, n / 0x100 % 0x100, n / 0x1_0000 % 0x100, n / 0x100_0000 % 0x100]
          + LittleEndian(n / TWO_32, k)
  {
    var a, b, c := n / 256, n / 256 / 256, n / 256 / 256 / 256;
    assert LittleEndian(n, k + 4) == [n % 256] + LittleEndian(a, k + 3);
    assert LittleEndian(a, k + 3) == [a % 256] + LittleEndian(b, k + 2);
    assert LittleEndian(b, k + 2) == [b % 256] + LittleEndian(c, k + 1);
    assert LittleEndian(c, k + 1) == [c % 256] + LittleEndian(c / 256, k);
    assert b == n / 0x1_0000 && c == n / 0x100_0000 && c / 256 == n / TWO_32;
  }

  lemma FixedBytes32(val: uint32)
    ensures LittleEndian(val, 4)
         == [val % 0x100, val / 0x100 % 0x100, val / 0x1_0000 % 0x100, val / 0x100_0000 % 0x100]
  {
    FourBytes(val, 0);
  }

  lemma FixedBytes64(val: uint64)
    ensures LittleEndian(val, 8) == [
      val % 0x100, val / 0x100 % 0x100, val / 0x1_0000 % 0x100, val / 0x100_0000 % 0x100,
      val / 0x1_0000_0000 % 0x100, val / 0x100_0000_0000 % 0x100,
      val / 0x1_0000_0000_0000 % 0x100, val / 0x100_0000_0000_0000 % 0x100]
  {
    var high := val / TWO_32;
    FourBytes(val, 4);
    FixedBytes32(high);
    assert high / 0x100 == val / 0x100_0000_0000;
    assert high / 0x1_0000 == val / 0x1_0000_0000_0000;
    assert high / 0x100_0000 == val / 0x100_0000_0000_0000;
  }
}
