/**
 The hash of the capability map, the finalizer of MurmurHash3 in kernel/capabilities/map.c. It is one to
 one on 64-bit words, so that every slot of every table is the home of some key.
 */
module CapabilityHash {
  import opened Machine
  import opened Bits
  import opened CapabilityMaps

  /** `a ^ b`. */
  function Xor(a: nat, b: nat): nat {
    if a == 0 && b == 0 then 0 else 2 * Xor(a / 2, b / 2) + if a % 2 == b % 2 then 0 else 1
  }

  /** `x >> n`. */
  function ShiftRight(x: nat, n: nat): nat {
    if n == 0 then x else ShiftRight(x / 2, n - 1)
  }

  lemma {:induction false} XorTwice(a: nat, b: nat)
    ensures Xor(Xor(a, b), b) == a
  {
    if a != 0 || b != 0 {
      XorTwice(a / 2, b / 2);
      XorParts(a, b);
      XorParts(Xor(a, b), b);
      SameHalves(Xor(Xor(a, b), b), a);
    }
  }

  lemma SameHalves(x: nat, y: nat)
    requires x / 2 == y / 2 && x % 2 == y % 2
    ensures x == y
  {
  }

  lemma {:induction false} XorParts(a: nat, b: nat)
    ensures Xor(a, b) / 2 == Xor(a / 2, b / 2) && Xor(a, b) % 2 == if a % 2 == b % 2 then 0 else 1
  {
  }

  lemma {:induction false} XorZero(a: nat)
    ensures Xor(a, 0) == a
  {
    if a != 0 { XorZero(a / 2); }
  }

  lemma {:induction false} XorBound(a: nat, b: nat, n: nat)
    requires a < Pow2(n) && b < Pow2(n)
    ensures Xor(a, b) < Pow2(n)
  {
    if n > 0 { XorBound(a / 2, b / 2, n - 1); }
  }

  lemma {:induction false} ShiftXor(a: nat, b: nat, n: nat)
    ensures ShiftRight(Xor(a, b), n) == Xor(ShiftRight(a, n), ShiftRight(b, n))
  {
    if n > 0 {
      XorParts(a, b);
      ShiftXor(a / 2, b / 2, n - 1);
    }
  }

  lemma {:induction false} ShiftTwice(x: nat, m: nat, n: nat)
    ensures ShiftRight(ShiftRight(x, m), n) == ShiftRight(x, m + n)
  {
    if m > 0 { ShiftTwice(x / 2, m - 1, n); }
  }

  lemma {:induction false} ShiftSmall(x: nat, n: nat, k: nat)
    requires x < Pow2(n) && n <= k
    ensures ShiftRight(x, k) == 0
  {
    if k > 0 { ShiftSmall(x / 2, if n == 0 then 0 else n - 1, k - 1); }
  }

  lemma {:induction false} ShiftLess(x: nat, n: nat)
    ensures ShiftRight(x, n) <= x
  {
    if n > 0 { ShiftLess(x / 2, n - 1); }
  }

  const HALF: nat := 33

  lemma FoldBound(x: u64)
    ensures Xor(x, ShiftRight(x, HALF)) < TWO_64
  {
    Pow2Is64();
    ShiftLess(x, HALF);
    XorBound(x, ShiftRight(x, HALF), 64);
  }

  /** `x ^= x >> 33`. */
  function Fold(x: u64): u64 {
    FoldBound(x);
    Xor(x, ShiftRight(x, HALF))
  }

  /** Folding is its own inverse, because 66 bits shift out the whole word. */
  lemma FoldTwice(x: u64)
    ensures Fold(Fold(x)) == x
  {
    var h := ShiftRight(x, HALF);
    ShiftXor(x, h, HALF);
    ShiftTwice(x, HALF, HALF);
    Pow2Is64();
    ShiftSmall(x, 64, HALF + HALF);
    XorZero(h);
    XorTwice(x, h);
  }

  lemma {:induction false} XorBits(a: nat, b: nat, i: nat)
    ensures Bit(Xor(a, b), i) <==> Bit(a, i) != Bit(b, i)
  {
    XorParts(a, b);
    if i > 0 { XorBits(a / 2, b / 2, i - 1); }
  }

  lemma {:induction false} ShiftBits(x: nat, n: nat, i: nat)
    ensures Bit(ShiftRight(x, n), i) <==> Bit(x, n + i)
  {
    if n > 0 { ShiftBits(x / 2, n - 1, i); }
  }

  /** Bit by bit: every bit is flipped by the one 33 places up. */
  lemma FoldBits(x: u64, i: nat)
    ensures Bit(Fold(x), i) <==> Bit(x, i) != Bit(x, 33 + i)
  {
    XorBits(x, ShiftRight(x, HALF), i);
    ShiftBits(x, HALF, i);
  }

  const M1: nat := 0xff51_afd7_ed55_8ccd
  const M2: nat := 0xc4ce_b9fe_1a85_ec53
  const INVERSE1: nat := 0x4f74_430c_22a5_4005
  const INVERSE2: nat := 0x9cb4_b2f8_1293_37db

  /** `x *= m`. */
  function Times(x: u64, m: nat): u64 {
    (x * m) % TWO_64
  }

  /** Multiplying by `m` and then by its inverse modulo 2^64. */
  lemma TimesBack(x: u64, m: nat, n: nat, k: nat)
    requires m * n == k * TWO_64 + 1
    ensures Times(Times(x, m), n) == x
  {
    var q, r := (x * m) / TWO_64, Times(x, m);
    assert x * m == TWO_64 * q + r;
    calc {
      r * n;
      (x * m - TWO_64 * q) * n;
      x * (m * n) - TWO_64 * (q * n);
      x * (k * TWO_64 + 1) - TWO_64 * (q * n);
      TWO_64 * (x * k - q * n) + x;
    }
    WholeTurns(r * n, x * k - q * n, x);
  }

  lemma WholeTurns(y: nat, t: int, x: u64)
    requires y == TWO_64 * t + x
    ensures y % TWO_64 == x
  {
  }

  /** hash_u64. */
  function Hash64(x: u64): u64 {
    Fold(Times(Fold(Times(Fold(x), M1)), M2))
  }

  /** The key with hash `y`. */
  function Unhash(y: u64): u64 {
    Fold(Times(Fold(Times(Fold(y), INVERSE2)), INVERSE1))
  }

  /** Every word is the hash of exactly one key. */
  lemma HashOneToOne(x: u64, y: u64)
    ensures Hash64(x) == y <==> x == Unhash(y)
  {
    HashOfUnhash(y);
    UnhashOfHash(x);
  }

  lemma HashOfUnhash(y: u64)
    ensures Hash64(Unhash(y)) == y
  {
    var a := Times(Fold(y), INVERSE2);
    var b := Times(Fold(a), INVERSE1);
    FoldTwice(b);
    TimesBack(Fold(a), INVERSE1, M1, 0x4f3e_2925_cb7c_5b4e);
    FoldTwice(a);
    TimesBack(Fold(y), INVERSE2, M2, 0x7878_e448_12b2_d581);
    FoldTwice(y);
  }

  lemma UnhashOfHash(x: u64)
    ensures Unhash(Hash64(x)) == x
  {
    var a := Times(Fold(x), M1);
    var b := Times(Fold(a), M2);
    FoldTwice(b);
    TimesBack(Fold(a), M2, INVERSE2, 0x7878_e448_12b2_d581);
    FoldTwice(a);
    TimesBack(Fold(x), M1, INVERSE1, 0x4f3e_2925_cb7c_5b4e);
    FoldTwice(x);
  }

  /** A key for every slot of a table with `n` slots. */
  function Keys(n: nat): (ks: seq<u64>)
    requires n <= TWO_64
    ensures |ks| == n && forall i :: 0 <= i < n ==> ks[i] == Unhash(i)
  {
    seq(n, i requires 0 <= i < n => Unhash(i))
  }

  /** The home slots of these keys are all different, one for every slot. */
  lemma KeysSpread(n: nat, i: nat)
    requires i < n <= TWO_64
    ensures Hash64(Keys(n)[i]) % n == i
  {
    HashOfUnhash(i);
    ModSmall(i, n);
  }

  /** In a table without vacant slots no walk for a missing key ends. */
  lemma EndlessWalks(hash: Hash, t: seq<Slot>)
    requires Probed(hash, t) && Contents(t) == map[] && Vacancies(t) == 0
    ensures forall key: u64, pos: nat :: !FirstStop(hash, t, key, pos)
  {
    forall key: u64, pos: nat ensures !FirstStop(hash, t, key, pos) {
      WalkStopsExactly(hash, t, key);
    }
  }

  /** hash_u64 as the map's hash function. */
  function KeyHash(key: u64): nat {
    Hash64(key)
  }

  /**
   A new map wears out under its own hash: after 64 insertions, each followed by the deletion of the same
   key, it is empty, no slot is vacant and a lookup of any key would never end.
   */
  method NewMapWearsOut() returns (c: CapabilityMap)
    ensures c.Valid() && c.Abs() == map[] && c.hash == KeyHash
    ensures forall key: u64, pos: nat :: !FirstStop(c.hash, c.entries[..], key, pos)
  {
    c := new CapabilityMap(KeyHash);
    assert forall p :: 0 <= p < INITIAL_CAPACITY ==> c.entries[p] == c.entries[..][p];
    var keys := Keys(INITIAL_CAPACITY);
    SpreadKeys(c.hash, keys);
    WearOut(c, keys);
    EndlessWalks(c.hash, c.entries[..]);
  }

  lemma SpreadKeys(hash: Hash, keys: seq<u64>)
    requires hash == KeyHash && 0 < |keys| <= TWO_64 && keys == Keys(|keys|)
    ensures forall i :: 0 <= i < |keys| ==> hash(keys[i]) % |keys| == i
  {
    forall i | 0 <= i < |keys| ensures hash(keys[i]) % |keys| == i { KeysSpread(|keys|, i); }
  }
}
