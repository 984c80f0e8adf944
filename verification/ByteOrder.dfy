/** Bytes, little-endian fields, and the slicing facts that layouts made of them need. */
module ByteOrder {
  import opened Machine

  type byte = x: int | 0 <= x < 256

  /** Widths of uint32_t and uint64_t fields. */
  const INT: nat := 4
  const LONG: nat := 8

  function Encode(x: nat, n: nat): (b: seq<byte>)
    ensures |b| == n
  {
    if n == 0 then [] else [x % 256] + Encode(x / 256, n - 1)
  }

  function Decode(b: seq<byte>): nat {
    if b == [] then 0 else b[0] + 256 * Decode(b[1..])
  }

  function Limit(n: nat): nat {
    if n == 0 then 1 else 256 * Limit(n - 1)
  }

  lemma {:induction false} DecodeEncode(x: nat, n: nat)
    requires x < Limit(n)
    ensures Decode(Encode(x, n)) == x
  {
    if n > 0 { DecodeEncode(x / 256, n - 1); }
  }

  lemma {:induction false} EncodeDecode(b: seq<byte>)
    ensures Encode(Decode(b), |b|) == b
  {
    if b != [] {
      EncodeDecode(b[1..]);
      LowByte(b[0], Decode(b[1..]));
      assert b == [b[0]] + b[1..];
    }
  }

  lemma LowByte(low: byte, high: nat)
    ensures (low + 256 * high) % 256 == low && (low + 256 * high) / 256 == high
  {
  }

  lemma DivideTwice(x: nat, l: nat)
    requires l > 0
    ensures x / 256 / l == x / (256 * l)
  {
    var q, s := x / 256, x % 256;
    var p, t := q / l, q % l;
    assert q == l * p + t;
    assert x == 256 * l * p + (256 * t + s);
    DivModUnique(x, 256 * l, p, 256 * t + s);
  }

  /** Byte `i` of a field counts 256 to the power of `i`. */
  lemma {:induction false} LittleEndian(x: nat, n: nat, i: nat)
    requires i < n
    ensures Limit(i) > 0 && Encode(x, n)[i] == x / Limit(i) % 256
  {
    if i > 0 {
      LittleEndian(x / 256, n - 1, i - 1);
      DivideTwice(x, Limit(i - 1));
    }
  }

  lemma {:induction false} Limits()
    ensures Limit(INT) == TWO_32 && Limit(LONG) == TWO_64
  {
    assert Limit(1) == 256 && Limit(2) == 0x1_0000 && Limit(3) == 0x100_0000 && Limit(4) == TWO_32;
    assert Limit(5) == 0x100_0000_0000 && Limit(6) == 0x1_0000_0000_0000 && Limit(7) == 0x100_0000_0000_0000;
  }

  lemma {:induction false} SliceLeft<T>(a: seq<T>, b: seq<T>, lo: nat, hi: nat)
    requires lo <= hi <= |a|
    ensures (a + b)[lo..hi] == a[lo..hi]
  {
  }

  lemma {:induction false} SliceRight<T>(a: seq<T>, b: seq<T>, lo: nat, hi: nat)
    requires |a| <= lo <= hi <= |a| + |b|
    ensures (a + b)[lo..hi] == b[lo - |a|..hi - |a|]
  {
  }

  lemma {:induction false} Behind<T>(front: seq<T>, back: seq<T>, p: nat, part: seq<T>)
    requires p + |part| <= |back| && back[p..p + |part|] == part
    ensures (front + back)[|front| + p..|front| + p + |part|] == part
  {
    SliceRight(front, back, |front| + p, |front| + p + |part|);
  }

  function Zeros(n: nat): (b: seq<byte>)
    ensures |b| == n && forall i :: 0 <= i < n ==> b[i] == 0
  {
    seq(n, _ => 0)
  }

  lemma {:induction false} SubSlice<T>(s: seq<T>, lo: nat, hi: nat, a: nat, b: nat)
    requires lo <= hi <= |s| && a <= b <= hi - lo
    ensures s[lo..hi][a..b] == s[lo + a..lo + b]
  {
    forall k | 0 <= k < b - a ensures s[lo..hi][a..b][k] == s[lo + a..lo + b][k] {
      assert s[lo..hi][a + k] == s[lo + a + k];
    }
  }
}
