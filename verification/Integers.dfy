/** Fixed-width unsigned integers and the few bit operations the protocol uses on them. */
module Integers {

  type u8 = x: int | 0 <= x < 0x100
  type u16 = x: int | 0 <= x < 0x1_0000
  type u32 = x: int | 0 <= x < 0x1_0000_0000

  const WRAP32: nat := 0x1_0000_0000

  datatype Option<+T> = None | Some(value: T)

  function Pow2(k: nat): (p: nat)
    ensures p >= 1
  {
    if k == 0 then 1 else 2 * Pow2(k - 1)
  }

  lemma Pow2Values()
    ensures Pow2(8) == 0x100
    ensures Pow2(16) == 0x1_0000
    ensures Pow2(32) == 0x1_0000_0000
  {
    assert Pow2(4) == 16;
    assert Pow2(8) == 256;
    assert Pow2(12) == 0x1000;
    assert Pow2(16) == 0x1_0000;
    assert Pow2(20) == 0x10_0000;
    assert Pow2(24) == 0x100_0000;
    assert Pow2(28) == 0x1000_0000;
  }

  lemma {:induction false} Pow2Add(a: nat, b: nat)
    ensures Pow2(a + b) == Pow2(a) * Pow2(b)
  {
    if a > 0 {
      Pow2Add(a - 1, b);
      assert Pow2(a + b) == 2 * (Pow2(a - 1) * Pow2(b));
    }
  }

  lemma {:induction false} Pow2Monotone(a: nat, b: nat)
    requires a <= b
    ensures Pow2(a) <= Pow2(b)
    decreases b
  {
    if a < b { Pow2Monotone(a, b - 1); }
  }

  // `x++` on a u32.
  function Inc32(x: u32): u32 {
    (x + 1) % WRAP32
  }

  // ---- Products and quotients ----

  lemma Distribute(a: int, b: int, c: int)
    ensures a * (b + c) == a * b + a * c
  {
  }

  lemma Associate(a: int, b: int, c: int)
    ensures a * (b * c) == a * b * c
  {
  }

  lemma MulGap(d: nat, x: nat, y: nat)
    requires x < y
    ensures d * x + d <= d * y
  {
    Distribute(d, x + 1, y - x - 1);
    Distribute(d, x, 1);
    MulNonNegative(d, y - x - 1);
  }

  lemma Horner(b: int, x: int, p: int)
    ensures (0x100 * b + x) * p == b * (0x100 * p) + x * p
  {
    Distribute(p, 0x100 * b, x);
    Associate(p, 0x100, b);
    Associate(b, 0x100, p);
  }

  lemma MulNonNegative(a: nat, b: nat)
    ensures a * b >= 0
  {
  }

  lemma DivUnique(v: nat, d: nat, q: nat, r: nat)
    requires d > 0 && r < d && v == d * q + r
    ensures v / d == q && v % d == r
  {
    var q', r' := v / d, v % d;
    assert v == d * q' + r';
    if q > q' {
      MulGap(d, q', q);
    } else if q < q' {
      MulGap(d, q, q');
    }
  }

  lemma DivTwo(v: nat, b: nat)
    requires b > 0
    ensures (v / 2) / b == v / (2 * b)
  {
    var q := v / 2;
    assert q == b * (q / b) + q % b;
    Associate(2, b, q / b);
    DivUnique(v, 2 * b, q / b, 2 * (q % b) + v % 2);
  }

  lemma DivByTwice(v: nat, b: nat)
    requires b > 0
    ensures v / (2 * b) == (v / b) / 2
  {
    var q := v / b;
    assert v == b * q + v % b;
    var h := q / 2;
    Distribute(b, 2 * h, q % 2);
    Twice(b, h);
    Associate(2, b, h);
    Scale(b, q % 2);
    DivUnique(v, 2 * b, h, b * (q % 2) + v % b);
  }

  lemma Twice(a: nat, b: nat)
    ensures a * (2 * b) == 2 * (a * b)
  {
  }

  // Multiplying by a bit.
  lemma Scale(b: nat, bit: nat)
    requires bit <= 1
    ensures bit * b == b * bit == if bit == 1 then b else 0
  {
  }

  lemma DivDiv(v: nat, b: nat)
    requires b > 0
    ensures (v / 0x100) / b == v / (0x100 * b)
  {
    var q := v / 0x100;
    var q2, r2 := q / b, q % b;
    assert q == b * q2 + r2;
    Associate(0x100, b, q2);
    DivUnique(v, 0x100 * b, q2, 0x100 * r2 + v % 0x100);
  }

  // ---- Bits of a mask ----

  // `(1 << k) & m` is non-zero.
  predicate Bit(m: nat, k: nat) {
    if k == 0 then m % 2 == 1 else Bit(m / 2, k - 1)
  }

  // Testing a bit is shifting it down.
  lemma {:induction false} BitIsShift(m: nat, k: nat)
    ensures Bit(m, k) <==> m / Pow2(k) % 2 == 1
  {
    if k > 0 {
      BitIsShift(m / 2, k - 1);
      DivTwo(m, Pow2(k - 1));
    }
  }

  // `m | (1 << k)`.
  function SetBit(m: nat, k: nat): nat {
    if Bit(m, k) then m else m + Pow2(k)
  }

  // The position of the highest set bit.
  function TopBit(m: nat): nat
    requires m > 0
  {
    if m == 1 then 0 else 1 + TopBit(m / 2)
  }

  // Below the lowest bit a mask is halved, and so is the bit set in it.
  lemma SetBitHalves(m: nat, k: nat)
    requires k > 0
    ensures SetBit(m, k) / 2 == SetBit(m / 2, k - 1) && SetBit(m, k) % 2 == m % 2
  {
    assert Pow2(k) == 2 * Pow2(k - 1);
  }

  // Setting a bit sets that bit and no other.
  lemma {:induction false} SetBitSets(m: nat, k: nat, j: nat)
    ensures Bit(SetBit(m, k), j) <==> j == k || Bit(m, j)
    decreases k
  {
    if k == 0 {
      SetLowest(m);
    } else {
      hide SetBit, Pow2;
      SetBitHalves(m, k);
      if j > 0 { SetBitSets(m / 2, k - 1, j - 1); }
    }
  }

  lemma SetLowest(m: nat)
    ensures SetBit(m, 0) / 2 == m / 2 && SetBit(m, 0) % 2 == 1
  {
    hide Pow2;
    assert Pow2(0) == 1 by { Pow2One(); }
  }

  lemma Pow2One()
    ensures Pow2(0) == 1
  {
  }

  lemma {:induction false} SetBitBound(m: nat, k: nat, n: nat)
    requires k < n && m < Pow2(n)
    ensures SetBit(m, k) < Pow2(n)
    decreases n
  {
    hide SetBit, Pow2;
    Pow2Double(n);
    HalfBelow(m, Pow2(n - 1));
    HalfBelow(SetBit(m, k), Pow2(n - 1));
    if k == 0 {
      SetLowest(m);
    } else {
      SetBitHalves(m, k);
      SetBitBound(m / 2, k - 1, n - 1);
    }
  }

  lemma Pow2Double(n: nat)
    requires n > 0
    ensures Pow2(n) == 2 * Pow2(n - 1)
  {
  }

  lemma HalfBelow(x: nat, p: nat)
    ensures x / 2 < p <==> x < 2 * p
  {
  }

  // A set bit is worth its power of two, so a u32 has no set bit at or above 32.
  lemma {:induction false} BitBound(m: nat, k: nat)
    requires Bit(m, k)
    ensures Pow2(k) <= m
  {
    if k > 0 { BitBound(m / 2, k - 1); }
  }

  lemma {:induction false} TopBitIsHighest(m: nat, j: nat)
    requires m > 0
    ensures Bit(m, TopBit(m))
    ensures Pow2(TopBit(m)) <= m < 2 * Pow2(TopBit(m))
    ensures j > TopBit(m) ==> !Bit(m, j)
    decreases m
  {
    if m > 1 {
      TopBitIsHighest(m / 2, if j > 0 then j - 1 else 0);
    } else if j > 0 && Bit(m, j) {
      BitBound(m, j);
    }
  }

  lemma TopBitBound(m: u32)
    requires m > 0
    ensures TopBit(m) < 32
  {
    TopBitIsHighest(m, 0);
    Pow2Values();
    if TopBit(m) >= 32 { Pow2Monotone(32, TopBit(m)); }
  }

  // ---- Strictly increasing sequences ----

  predicate Increasing(s: seq<int>) {
    forall i, j :: 0 <= i < j < |s| ==> s[i] < s[j]
  }
}
