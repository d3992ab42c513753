/** network/io_buffer.h, read_bits: a bit range of the buffer as a number. */
module BitFields {
  import opened Integers
  import opened IoBuffer

  function BitAt(s: seq<u8>, k: nat): (b: nat)
    requires k < 8 * |s|
  {
    s[k / 8] / Pow2(7 - k % 8) % 2
  }

  // The bits [lo, hi) read one by one, first bit most significant.
  function BitsOf(s: seq<u8>, lo: nat, hi: nat): nat
    requires lo <= hi <= 8 * |s|
    decreases hi - lo
  {
    if lo == hi then 0 else 2 * BitsOf(s, lo, hi - 1) + BitAt(s, hi - 1)
  }

  // `1 << k` is computed on a 32-bit int and then converted to a T of `width` bits:
  // bit 31 is the sign, which a wider T extends.
  function IntShift(k: nat, width: nat): nat
    requires k < 32
  {
    if k == 31 && width == 64 then SIGN_EXTENDED else Pow2(k)
  }

  const SIGN_EXTENDED: nat := 0xFFFF_FFFF_8000_0000
  const EXTENSION: nat := 0xFFFF_FFFF_0000_0000

  // read_bits<T, lo, hi> for a T of `width` bits: the range must fit in T, the bit index too, and no int be shifted
  // further than it is wide. The result is the bits of the range, except when 32 bits that start with a 1
  // are read into 64: then the sign is extended.
  method ReadBits(buf: Span, lo: nat, hi: nat, width: nat) returns (result: nat)
    requires buf.Valid() && lo <= hi <= 8 * buf.Size()
    requires width == 8 || width == 16 || width == 32 || width == 64
    requires hi - lo <= width && hi - lo <= 32 && hi < Pow2(width)
    ensures var bits := BitsOf(buf.Bytes(), lo, hi);
            bits < Pow2(hi - lo) &&
            result == (if width == 64 && hi - lo == 32 && BitAt(buf.Bytes(), lo) == 1 then bits + EXTENSION else bits)
  {
    hide BitsOf, BitAt, Pow2;
    ghost var s := buf.Bytes();
    NoBits(s, lo, hi);
    result := 0;
    for global := lo to hi
      invariant result == BitsOf(s, lo, global) * Pow2(hi - global) + Extension(s, lo, global, hi, width)
    {
      var byteValue := buf.data[buf.lo + global / 8];
      assert byteValue == s[global / 8];
      var bit := byteValue / Pow2(7 - global % 8) % 2;
      assert bit == BitAt(s, global) by { BitAtIs(s, global); }
      hide IntShift, Extension;
      ExtendedBit(s, lo, global, hi, width);
      result := (result + bit * IntShift(hi - global - 1, width)) % Pow2(width);
    }
    BitsBound(s, lo, hi);
  }

  lemma BitAtIs(s: seq<u8>, k: nat)
    requires k < 8 * |s|
    ensures BitAt(s, k) == s[k / 8] / Pow2(7 - k % 8) % 2
  {
  }

  // What the sign extension has added once bits [lo, k) are read.
  function Extension(s: seq<u8>, lo: nat, k: nat, hi: nat, width: nat): nat
    requires lo <= k <= hi <= 8 * |s|
  {
    if width == 64 && hi - lo == 32 && k > lo && BitAt(s, lo) == 1 then EXTENSION else 0
  }

  // Reading bit k adds its place value, and the extension if it is the sign; nothing overflows T.
  lemma ExtendedBit(s: seq<u8>, lo: nat, k: nat, hi: nat, width: nat)
    requires lo <= k < hi <= 8 * |s| && hi - lo <= width && hi - lo <= 32
    requires width == 8 || width == 16 || width == 32 || width == 64
    ensures (BitsOf(s, lo, k) * Pow2(hi - k) + Extension(s, lo, k, hi, width) +
             BitAt(s, k) * IntShift(hi - k - 1, width)) % Pow2(width)
         == BitsOf(s, lo, k + 1) * Pow2(hi - k - 1) + Extension(s, lo, k + 1, hi, width)
  {
    hide BitsOf, BitAt, Pow2, IntShift;
    var place := BitsOf(s, lo, k + 1) * Pow2(hi - k - 1);
    OneMoreBit(s, lo, k, hi);
    PlaceBound(s, lo, k + 1, hi);
    BitIsBinary(s, k);
    Widths(width, hi - lo);
    ExtensionStep(s, lo, k, hi, width);
    SmallRemainder(place + Extension(s, lo, k + 1, hi, width), Pow2(width));
  }

  lemma SmallRemainder(v: nat, d: nat)
    requires v < d
    ensures v % d == v
  {
  }

  lemma ExtensionStep(s: seq<u8>, lo: nat, k: nat, hi: nat, width: nat)
    requires lo <= k < hi <= 8 * |s| && hi - lo <= 32 && BitAt(s, k) <= 1
    ensures BitAt(s, k) * IntShift(hi - k - 1, width)
         == BitAt(s, k) * Pow2(hi - k - 1) + Extension(s, lo, k + 1, hi, width) - Extension(s, lo, k, hi, width)
  {
    hide BitAt, Pow2;
    Scale(IntShift(hi - k - 1, width), BitAt(s, k));
    Scale(Pow2(hi - k - 1), BitAt(s, k));
    Pow2Double(32);
    Pow2Values();
  }

  lemma BitIsBinary(s: seq<u8>, k: nat)
    requires k < 8 * |s|
    ensures BitAt(s, k) <= 1
  {
  }

  lemma Widths(width: nat, n: nat)
    requires width == 8 || width == 16 || width == 32 || width == 64
    requires n <= width && n <= 32
    ensures Pow2(n) <= Pow2(width) && Pow2(n) <= 0x1_0000_0000
    ensures width == 64 ==> Pow2(width) == 0x1_0000_0000_0000_0000
  {
    hide Pow2;
    Pow2Values();
    Pow2Monotone(n, width);
    Pow2Monotone(n, 32);
    Pow2Add(32, 32);
  }

  // The bits read so far, in their final place, stay below the value of the whole range.
  lemma PlaceBound(s: seq<u8>, lo: nat, k: nat, hi: nat)
    requires lo <= k <= hi <= 8 * |s|
    ensures BitsOf(s, lo, k) * Pow2(hi - k) < Pow2(hi - lo)
  {
    hide BitsOf, Pow2;
    BitsBound(s, lo, k);
    Pow2Add(k - lo, hi - k);
    MulGap(Pow2(hi - k), BitsOf(s, lo, k), Pow2(k - lo));
  }

  lemma NoBits(s: seq<u8>, lo: nat, hi: nat)
    requires lo <= hi <= 8 * |s|
    ensures BitsOf(s, lo, lo) * Pow2(hi - lo) == 0
    ensures BitsOf(s, lo, hi) * Pow2(0) == BitsOf(s, lo, hi)
  {
  }

  lemma OneMoreBit(s: seq<u8>, lo: nat, k: nat, hi: nat)
    requires lo <= k < hi <= 8 * |s|
    ensures BitsOf(s, lo, k + 1) * Pow2(hi - k - 1) == BitsOf(s, lo, k) * Pow2(hi - k) + BitAt(s, k) * Pow2(hi - k - 1)
  {
    BitStep(BitsOf(s, lo, k), BitAt(s, k), hi - k - 1);
  }

  lemma BitStep(v: nat, bit: nat, k: nat)
    ensures v * Pow2(k + 1) + bit * Pow2(k) == (2 * v + bit) * Pow2(k)
  {
    Twice(v, Pow2(k));
    Distribute(Pow2(k), 2 * v, bit);
    Associate(Pow2(k), 2, v);
  }

  lemma {:induction false} BitsBound(s: seq<u8>, lo: nat, hi: nat)
    requires lo <= hi <= 8 * |s|
    ensures BitsOf(s, lo, hi) < Pow2(hi - lo)
    decreases hi - lo
  {
    hide BitAt;
    if lo < hi {
      BitsBound(s, lo, hi - 1);
      BitIsBinary(s, hi - 1);
    }
  }

  // Adjacent ranges concatenate.
  lemma {:induction false} BitsConcatenate(s: seq<u8>, lo: nat, mid: nat, hi: nat)
    requires lo <= mid <= hi <= 8 * |s|
    ensures BitsOf(s, lo, hi) == BitsOf(s, lo, mid) * Pow2(hi - mid) + BitsOf(s, mid, hi)
    decreases hi - mid
  {
    hide BitAt;
    if mid < hi {
      BitsConcatenate(s, lo, mid, hi - 1);
      Twice(BitsOf(s, lo, mid), Pow2(hi - 1 - mid));
    }
  }

  lemma {:induction false} BitsOfPrefix(s: seq<u8>, n: nat, lo: nat, hi: nat)
    requires n <= |s| && lo <= hi <= 8 * n
    ensures BitsOf(s, lo, hi) == BitsOf(s[..n], lo, hi)
    decreases hi - lo
  {
    if lo < hi {
      BitsOfPrefix(s, n, lo, hi - 1);
      assert s[..n][(hi - 1) / 8] == s[(hi - 1) / 8];
    }
  }

  lemma Halve(x: nat, p: nat)
    requires p > 0
    ensures 2 * (x / (2 * p)) + x / p % 2 == x / p
  {
    DivByTwice(x, p);
  }

  lemma {:induction false} BitsOfByte(s: seq<u8>, m: nat, j: nat)
    requires m < |s| && j <= 8
    ensures BitsOf(s, 8 * m, 8 * m + j) == s[m] / Pow2(8 - j)
  {
    hide BitAt, Pow2;
    if j == 0 {
      Pow2Values();
    } else {
      BitsOfByte(s, m, j - 1);
      ByteBit(s, m, j);
    }
  }

  // One bit further into a byte.
  lemma ByteBit(s: seq<u8>, m: nat, j: nat)
    requires m < |s| && 0 < j <= 8
    ensures s[m] / Pow2(8 - j) == 2 * (s[m] / Pow2(9 - j)) + BitAt(s, 8 * m + j - 1)
  {
    assert (8 * m + j - 1) / 8 == m && (8 * m + j - 1) % 8 == j - 1;
    hide Pow2;
    Pow2Double(9 - j);
    Halve(s[m], Pow2(8 - j));
  }

  // All the bits are the big-endian value.
  lemma {:induction false} AllBits(s: seq<u8>)
    ensures BitsOf(s, 0, 8 * |s|) == BigEndian(s)
  {
    if s != [] {
      var n := |s| - 1;
      BitsConcatenate(s, 0, 8 * n, 8 * |s|);
      BitsOfPrefix(s, n, 0, 8 * n);
      AllBits(s[..n]);
      BitsOfByte(s, n, 8);
      Pow2Values();
      DivUnique(s[n], 1, s[n], 0);
    }
  }

  // The loop is shift and mask: the value of the buffer, divided down to bit hi, modulo the width of the range.
  lemma BitsAreShiftAndMask(s: seq<u8>, lo: nat, hi: nat)
    requires lo <= hi <= 8 * |s|
    ensures BitsOf(s, lo, hi) == BigEndian(s) / Pow2(8 * |s| - hi) % Pow2(hi - lo)
  {
    hide BitsOf, BigEndian, Pow2;
    var n := 8 * |s|;
    AllBits(s);
    BitsConcatenate(s, 0, hi, n);
    BitsBound(s, hi, n);
    DivUnique(BigEndian(s), Pow2(n - hi), BitsOf(s, 0, hi), BitsOf(s, hi, n));
    BitsConcatenate(s, 0, lo, hi);
    BitsBound(s, lo, hi);
    DivUnique(BitsOf(s, 0, hi), Pow2(hi - lo), BitsOf(s, 0, lo), BitsOf(s, lo, hi));
  }

  // On whole bytes it agrees with read_unsigned.
  lemma ByteAlignedBits(s: seq<u8>, from: nat, to: nat)
    requires from <= to <= |s|
    ensures BitsOf(s, 8 * from, 8 * to) == BigEndian(s[from..to])
  {
    AllBits(s[from..to]);
    BitsShifted(s, from, to, 8 * (to - from));
  }

  lemma {:induction false} BitsShifted(s: seq<u8>, from: nat, to: nat, k: nat)
    requires from <= to <= |s| && k <= 8 * (to - from)
    ensures BitsOf(s, 8 * from, 8 * from + k) == BitsOf(s[from..to], 0, k)
  {
    hide BigEndian, Pow2;
    if k > 0 {
      BitsShifted(s, from, to, k - 1);
      assert (8 * from + k - 1) / 8 == from + (k - 1) / 8 && (8 * from + k - 1) % 8 == (k - 1) % 8;
    }
  }
}
