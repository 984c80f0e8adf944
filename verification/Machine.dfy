/** Machine-level constants and integer ranges shared by every component. */
module Machine {

  const TWO_64: int := 0x1_0000_0000_0000_0000
  const TWO_32: int := 0x1_0000_0000

  /** Physical and virtual page size of the kernel. */
  const PAGE_SIZE: nat := 4096

  /** An unsigned 64-bit word; pointers are words, with 0 for NULL. */
  type u64 = x: int | 0 <= x < TWO_64

  datatype Option<T> = None | Some(value: T) {
    function UnwrapOr(default: T): T { if Some? then value else default }
  }

  function Pow2(n: nat): (p: nat)
    ensures p > 0
  {
    if n == 0 then 1 else 2 * Pow2(n - 1)
  }

  /** Nothing occurs twice. */
  ghost predicate Distinct<T>(q: seq<T>) {
    forall i, j :: 0 <= i < j < |q| ==> q[i] != q[j]
  }

  lemma Assoc<T>(a: seq<T>, b: seq<T>, c: seq<T>)
    ensures a + b + c == a + (b + c)
  {
  }

  // ---------------------------------------------------------------------------------------
  // Division by a variable
  // ---------------------------------------------------------------------------------------

  lemma MulMono(a: nat, x: int, y: int)
    requires x <= y
    ensures a * x <= a * y
  {
  }

  lemma SmallMultiple(a: int, d: int)
    requires a > 0 && -a < a * d < a
    ensures d == 0
  {
    if d >= 1 { MulMono(a, 1, d); }
    if d <= -1 { MulMono(a, d, -1); }
  }

  lemma DivModUnique(x: nat, a: nat, q: nat, r: nat)
    requires a > 0 && x == a * q + r && r < a
    ensures x / a == q && x % a == r
  {
    var q', r' := x / a, x % a;
    assert x == a * q' + r';
    assert a * (q' - q) == r - r';
    SmallMultiple(a, q' - q);
  }

  lemma AddMultiple(x: nat, k: nat, a: nat)
    requires a > 0
    ensures (x + a * k) % a == x % a && (x + a * k) / a == x / a + k
  {
    var q, r := x / a, x % a;
    assert x + a * k == a * (q + k) + r;
    DivModUnique(x + a * k, a, q + k, r);
  }

  // ---------------------------------------------------------------------------------------
  // Rings of slots
  // ---------------------------------------------------------------------------------------

  /** Length of the clockwise walk from slot `h` to slot `q` on a ring of `cap` slots. */
  function Off(h: nat, q: nat, cap: nat): (d: nat)
    requires h < cap && q < cap
  {
    if h <= q then q - h else q - h + cap
  }

  lemma ModSmall(x: nat, c: nat)
    requires x < c
    ensures x % c == x
  {
  }

  lemma ModOnce(x: nat, c: nat)
    requires c <= x < 2 * c
    ensures x % c == x - c
  {
    assert x / c == 1;
  }

  /** Taking `i` steps from `h` with the C expression `(h + i) % cap` lands at offset `i`. */
  lemma RingStep(h: nat, i: nat, cap: nat)
    requires h < cap && i < cap
    ensures 0 <= (h + i) % cap < cap
    ensures (h + i) % cap == if h + i < cap then h + i else h + i - cap
    ensures Off(h, (h + i) % cap, cap) == i
  {
    if h + i < cap {
      ModSmall(h + i, cap);
    } else {
      ModOnce(h + i, cap);
    }
  }
}
