/**
 Bits of an unsigned 64-bit word (kernel/include/structs/bitmap.h), by halving, and the
 lowest-set-bit search of kernel/fba/alloc.c in its multiply-and-look-up form.
 */
module Bits {
  import opened Machine

  /** `w & (1 << i)` is nonzero. */
  predicate Bit(w: nat, i: nat) {
    if i == 0 then w % 2 == 1 else Bit(w / 2, i - 1)
  }

  /** `w | (1 << i)`. */
  function SetBit(w: nat, i: nat): nat {
    if Bit(w, i) then w else w + Pow2(i)
  }

  /** `w & ~(1 << i)`. */
  function ClearBit(w: nat, i: nat): nat {
    if Bit(w, i) then (BitBound(w, i); w - Pow2(i)) else w
  }

  lemma {:induction false} BitBound(w: nat, i: nat)
    requires Bit(w, i)
    ensures Pow2(i) <= w
  {
    if i > 0 { BitBound(w / 2, i - 1); }
  }

  lemma {:induction false} Pow2Add(a: nat, b: nat)
    ensures Pow2(a + b) == Pow2(a) * Pow2(b)
  {
    if a > 0 { Pow2Add(a - 1, b); }
  }

  lemma Pow2Is32()
    ensures Pow2(32) == TWO_32
  {
    assert Pow2(4) == 16;
    Pow2Add(4, 4);
    Pow2Add(8, 8);
    Pow2Add(16, 16);
  }

  lemma Pow2Is64()
    ensures Pow2(64) == TWO_64
  {
    Pow2Is32();
    Pow2Add(32, 32);
  }

  lemma {:induction false} AddPowerBits(w: nat, i: nat, j: nat)
    requires !Bit(w, i)
    ensures Bit(w + Pow2(i), j) <==> j == i || Bit(w, j)
  {
    if i > 0 {
      assert (w + Pow2(i)) / 2 == w / 2 + Pow2(i - 1);
      if j > 0 { AddPowerBits(w / 2, i - 1, j - 1); }
    } else if j > 0 {
      assert (w + 1) / 2 == w / 2;
    }
  }

  lemma {:induction false} SubPowerBits(w: nat, i: nat, j: nat)
    requires Bit(w, i) && Pow2(i) <= w
    ensures Bit(w - Pow2(i), j) <==> j != i && Bit(w, j)
  {
    if i > 0 {
      BitBound(w / 2, i - 1);
      assert (w - Pow2(i)) / 2 == w / 2 - Pow2(i - 1);
      if j > 0 { SubPowerBits(w / 2, i - 1, j - 1); }
    } else if j > 0 {
      assert (w - 1) / 2 == w / 2;
    }
  }

  lemma {:induction false} AddPowerBound(w: nat, i: nat, m: nat)
    requires !Bit(w, i) && i < m && w < Pow2(m)
    ensures w + Pow2(i) < Pow2(m)
  {
    var half, p := w / 2, Pow2(m - 1);
    assert Pow2(m) == 2 * p;
    if i > 0 {
      AddPowerBound(half, i - 1, m - 1);
      assert Pow2(i) == 2 * Pow2(i - 1);
      DoubleBound(w, Pow2(i - 1), p);
    }
  }

  lemma DoubleBound(w: nat, q: nat, p: nat)
    requires w / 2 + q < p
    ensures w + 2 * q < 2 * p
  {
  }

  /** Setting or clearing a bit of a 64-bit word changes that bit and no other, and stays in range. */
  lemma UpdateBit(w: u64, i: nat, j: nat)
    requires i < 64
    ensures SetBit(w, i) < TWO_64 && 0 <= ClearBit(w, i) < TWO_64
    ensures Bit(SetBit(w, i), j) <==> j == i || Bit(w, j)
    ensures Bit(ClearBit(w, i), j) <==> j != i && Bit(w, j)
  {
    if Bit(w, i) {
      BitBound(w, i);
      SubPowerBits(w, i, j);
    } else {
      Pow2Is64();
      AddPowerBound(w, i, 64);
      AddPowerBits(w, i, j);
    }
  }

  lemma {:induction false} ZeroBits(i: nat)
    ensures !Bit(0, i)
  {
    if i > 0 { ZeroBits(i - 1); }
  }

  lemma {:induction false} OnesBits(m: nat, i: nat)
    requires i < m
    ensures Bit(Pow2(m) - 1, i)
  {
    if i > 0 {
      assert (Pow2(m) - 1) / 2 == Pow2(m - 1) - 1;
      OnesBits(m - 1, i - 1);
    }
  }

  /** A word of `m` bits other than all ones has a clear bit; `Complement` is `~w`. */
  function Complement(w: nat, m: nat): nat
    requires w < Pow2(m)
  {
    Pow2(m) - 1 - w
  }

  lemma {:induction false} ComplementBits(w: nat, m: nat, i: nat)
    requires w < Pow2(m) && i < m
    ensures Bit(Complement(w, m), i) <==> !Bit(w, i)
  {
    if i > 0 {
      assert Complement(w, m) / 2 == Complement(w / 2, m - 1);
      ComplementBits(w / 2, m - 1, i - 1);
    }
  }

  // ---------------------------------------------------------------------------------------
  // The lowest set bit
  // ---------------------------------------------------------------------------------------

  /** Bitwise and. */
  function And(a: nat, b: nat): nat {
    if a == 0 || b == 0 then 0 else 2 * And(a / 2, b / 2) + (a % 2) * (b % 2)
  }

  /** `i` is the lowest set bit of `w`. */
  ghost predicate LowestSet(w: nat, i: nat) {
    Bit(w, i) && forall j :: 0 <= j < i ==> !Bit(w, j)
  }

  lemma {:induction false} LowestExists(w: nat, m: nat) returns (i: nat)
    requires 0 < w < Pow2(m)
    ensures i < m && LowestSet(w, i)
  {
    if w % 2 == 1 {
      i := 0;
    } else {
      var h := LowestExists(w / 2, m - 1);
      i := h + 1;
      forall j | 0 <= j < i ensures !Bit(w, j) { if j > 0 { assert !Bit(w / 2, j - 1); } }
    }
  }

  lemma {:induction false} AndComplement(h: nat, m: nat)
    requires h < Pow2(m)
    ensures And(h, Complement(h, m)) == 0
  {
    if m > 0 && h > 0 && Complement(h, m) > 0 {
      assert Complement(h, m) / 2 == Complement(h / 2, m - 1);
      AndComplement(h / 2, m - 1);
    }
  }

  /** `v & -v`, with the minus taken in `m` bits, is the power of two of the lowest set bit. */
  lemma {:induction false} IsolateLowest(v: nat, m: nat, i: nat)
    requires 0 < v < Pow2(m) && LowestSet(v, i)
    ensures i < m && And(v, Pow2(m) - v) == Pow2(i)
  {
    var h := v / 2;
    if v % 2 == 1 {
      assert Bit(v, 0);
      assert i == 0;
      assert (Pow2(m) - v) / 2 == Complement(h, m - 1);
      AndComplement(h, m - 1);
    } else {
      assert !Bit(v, 0);
      forall j | 0 <= j < i - 1 ensures !Bit(h, j) { assert !Bit(v, j + 1); }
      assert (Pow2(m) - v) / 2 == Pow2(m - 1) - h;
      IsolateLowest(h, m - 1, i - 1);
    }
  }

  /** `1 << k`. */
  function OneHot(k: nat): bv64 {
    if k == 0 then 1 else OneHot(k - 1) << 1
  }

  /** Exactly one bit of `x` is set. */
  predicate Single(x: bv64) {
    x != 0 && x & (x - 1) == 0
  }

  lemma {:induction false} ZeroStaysZero(k: nat, m: nat)
    requires k <= m && OneHot(k) == 0
    ensures OneHot(m) == 0
    decreases m - k
  {
    if k < m {
      assert OneHot(k + 1) == 0;
      ZeroStaysZero(k + 1, m);
    }
  }

  lemma TopBit()
    ensures OneHot(63) == 0x8000_0000_0000_0000
  {
    assert OneHot(7) == 0x80;
    assert OneHot(15) == 0x8000;
    assert OneHot(23) == 0x800000;
    assert OneHot(31) == 0x80000000;
    assert OneHot(39) == 0x8000000000;
    assert OneHot(47) == 0x800000000000;
    assert OneHot(55) == 0x80000000000000;
  }

  lemma {:induction false} OneHotSingle(k: nat)
    requires k < 64
    ensures Single(OneHot(k))
  {
    if k > 0 {
      OneHotSingle(k - 1);
      TopBit();
      if OneHot(k) == 0 { ZeroStaysZero(k, 63); }
      DoubleSingle(OneHot(k - 1));
    }
  }

  lemma DoubleSingle(x: bv64)
    requires Single(x) && x << 1 != 0
    ensures Single(x << 1) && x < x << 1 && x & (x << 1) == 0
  {
  }

  /** The 64-bit register that holds the number `x`. */
  function Register(x: nat): bv64 {
    if x == 0 then 0 else (Register(x / 2) << 1) | (if x % 2 == 1 then 1 else 0)
  }

  lemma {:induction false} RegisterOfPower(k: nat)
    ensures Register(Pow2(k)) == OneHot(k)
  {
    if k > 0 { RegisterOfPower(k - 1); }
  }

  function Pick(i: bv64, a: nat, b: nat, c: nat, d: nat, e: nat, f: nat, g: nat, h: nat): nat {
    if i < 4 then (if i == 0 then a else if i == 1 then b else if i == 2 then c else d)
    else (if i == 4 then e else if i == 5 then f else if i == 6 then g else h)
  }

  /** The lookup table of first_set_bit_64, eight entries to a row. */
  function Table(i: bv64): nat {
    var (r, c) := (i >> 3, i & 7);
    if r == 0 then Pick(c, 0, 1, 48, 2, 57, 49, 28, 3) else
    if r == 1 then Pick(c, 61, 58, 50, 42, 38, 29, 17, 4) else
    if r == 2 then Pick(c, 62, 55, 59, 36, 53, 51, 43, 22) else
    if r == 3 then Pick(c, 45, 39, 33, 30, 24, 18, 12, 5) else
    if r == 4 then Pick(c, 63, 47, 56, 27, 60, 41, 37, 16) else
    if r == 5 then Pick(c, 54, 35, 52, 21, 44, 32, 23, 11) else
    if r == 6 then Pick(c, 46, 26, 40, 15, 34, 20, 31, 10) else
    Pick(c, 25, 14, 19, 9, 13, 8, 7, 6)
  }

  /** The table entry selected by multiplying a single-bit word with the De Bruijn constant. */
  function TableLookup(x: bv64): nat {
    Table((x * 0x03f7_9d71_b4cb_0a89) >> 58)
  }

  /** first_set_bit_64. */
  function FirstSetBit(v: u64): nat
    requires v > 0
  {
    TableLookup(Register(And(v, TWO_64 - v)))
  }

  /** With `x` the power of two of bit `k`, the table finds every single-bit word up to bit `k`. */
  predicate TableRight(k: nat, x: bv64) {
    TableLookup(x) == k && (k == 0 || TableRight(k - 1, x >> 1))
  }

  lemma TableRight15()
    ensures TableRight(15, 0x8000)
  {
    assert TableRight(0, 0x1);
    assert TableRight(1, 0x2);
    assert TableRight(2, 0x4);
    assert TableRight(3, 0x8);
    assert TableRight(4, 0x10);
    assert TableRight(5, 0x20);
    assert TableRight(6, 0x40);
    assert TableRight(7, 0x80);
    assert TableRight(8, 0x100);
    assert TableRight(9, 0x200);
    assert TableRight(10, 0x400);
    assert TableRight(11, 0x800);
    assert TableRight(12, 0x1000);
    assert TableRight(13, 0x2000);
    assert TableRight(14, 0x4000);
  }

  lemma TableRight31()
    ensures TableRight(31, 0x80000000)
  {
    TableRight15();
    assert TableRight(16, 0x10000);
    assert TableRight(17, 0x20000);
    assert TableRight(18, 0x40000);
    assert TableRight(19, 0x80000);
    assert TableRight(20, 0x100000);
    assert TableRight(21, 0x200000);
    assert TableRight(22, 0x400000);
    assert TableRight(23, 0x800000);
    assert TableRight(24, 0x1000000);
    assert TableRight(25, 0x2000000);
    assert TableRight(26, 0x4000000);
    assert TableRight(27, 0x8000000);
    assert TableRight(28, 0x10000000);
    assert TableRight(29, 0x20000000);
    assert TableRight(30, 0x40000000);
  }

  lemma TableRight47()
    ensures TableRight(47, 0x800000000000)
  {
    TableRight31();
    assert TableRight(32, 0x100000000);
    assert TableRight(33, 0x200000000);
    assert TableRight(34, 0x400000000);
    assert TableRight(35, 0x800000000);
    assert TableRight(36, 0x1000000000);
    assert TableRight(37, 0x2000000000);
    assert TableRight(38, 0x4000000000);
    assert TableRight(39, 0x8000000000);
    assert TableRight(40, 0x10000000000);
    assert TableRight(41, 0x20000000000);
    assert TableRight(42, 0x40000000000);
    assert TableRight(43, 0x80000000000);
    assert TableRight(44, 0x100000000000);
    assert TableRight(45, 0x200000000000);
    assert TableRight(46, 0x400000000000);
  }

  lemma TableRight63()
    ensures TableRight(63, 0x8000000000000000)
  {
    TableRight47();
    assert TableRight(48, 0x1000000000000);
    assert TableRight(49, 0x2000000000000);
    assert TableRight(50, 0x4000000000000);
    assert TableRight(51, 0x8000000000000);
    assert TableRight(52, 0x10000000000000);
    assert TableRight(53, 0x20000000000000);
    assert TableRight(54, 0x40000000000000);
    assert TableRight(55, 0x80000000000000);
    assert TableRight(56, 0x100000000000000);
    assert TableRight(57, 0x200000000000000);
    assert TableRight(58, 0x400000000000000);
    assert TableRight(59, 0x800000000000000);
    assert TableRight(60, 0x1000000000000000);
    assert TableRight(61, 0x2000000000000000);
    assert TableRight(62, 0x4000000000000000);
  }

  lemma HalveDouble(x: bv64)
    requires Single(x) && x << 1 != 0
    ensures (x << 1) >> 1 == x
  {
  }

  lemma {:induction false} TableRightBelow(k: nat, m: nat)
    requires k <= m < 64 && TableRight(m, OneHot(m))
    ensures TableLookup(OneHot(k)) == k
  {
    if k < m {
      OneHotSingle(m - 1);
      OneHotSingle(m);
      HalveDouble(OneHot(m - 1));
      TableRightBelow(k, m - 1);
    }
  }

  lemma TableHits(i: nat)
    requires i < 64
    ensures TableLookup(OneHot(i)) == i
  {
    TopBit();
    TableRight63();
    TableRightBelow(i, 63);
  }

  lemma PowerLookup(i: nat)
    requires i < 64
    ensures TableLookup(Register(Pow2(i))) == i
  {
    RegisterOfPower(i);
    TableHits(i);
  }

  lemma LookupOfLowest(v: u64, i: nat)
    requires v > 0 && i < 64 && And(v, TWO_64 - v) == Pow2(i)
    ensures FirstSetBit(v) == i
  {
    PowerLookup(i);
  }

  /** The multiply-and-look-up form finds the lowest set bit of every nonzero word. */
  lemma FirstSetBitIsLowest(v: u64)
    requires v > 0
    ensures FirstSetBit(v) < 64 && LowestSet(v, FirstSetBit(v))
  {
    Pow2Is64();
    var i := LowestExists(v, 64);
    IsolateLowest(v, 64, i);
    LookupOfLowest(v, i);
  }
}
