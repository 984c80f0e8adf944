/**
 The reference-count map of kernel/structs/ref_count_map.c: a chained hash table from physical
 addresses to 32-bit counts. Its bucket array is spread over a linked list of 4 KiB blocks of 512
 pointers each, newest block first, and is rebuilt on twice the blocks when three quarters full.
 */
module RefCounts {
  import opened Machine

  /** An entry of a chain. */
  datatype Cell = Cell(addr: u64, count: nat)

  type Chain = seq<Cell>

  const GOLDEN_RATIO: nat := 0x9E3779B97F4A7C15

  /** hash_address: the high half of a 64-bit product. */
  function Spread(addr: u64): nat {
    addr * GOLDEN_RATIO % TWO_64 / TWO_32
  }

  function Bucket(addr: u64, size: nat): (i: nat)
    requires size > 0
    ensures i < size
  {
    Spread(addr) % size
  }

  // ---------------------------------------------------------------------------------------
  // Chains
  // ---------------------------------------------------------------------------------------

  /** The position of `addr` in a chain, or its length. */
  function Find(c: Chain, addr: u64): (k: nat)
    ensures k <= |c| && (k < |c| ==> c[k].addr == addr)
    ensures forall j :: 0 <= j < k ==> c[j].addr != addr
  {
    if c == [] || c[0].addr == addr then 0 else 1 + Find(c[1..], addr)
  }

  /** The count a chain has for `addr`; 0 if it has none. */
  function Count(c: Chain, addr: u64): nat {
    var k := Find(c, addr);
    if k < |c| then c[k].count else 0
  }

  /** Chain `i` of a table of `size` buckets: its own addresses only, each once, counts positive and 32-bit. */
  ghost predicate ChainSound(c: Chain, i: nat, size: nat)
    requires size > 0
  {
    && (forall k :: 0 <= k < |c| ==> Bucket(c[k].addr, size) == i && 0 < c[k].count < TWO_32)
    && forall j, k :: 0 <= j < k < |c| ==> c[j].addr != c[k].addr
  }

  lemma FindUnique(c: Chain, k: nat, addr: u64)
    requires k < |c| && c[k].addr == addr && forall i, j :: 0 <= i < j < |c| ==> c[i].addr != c[j].addr
    ensures Find(c, addr) == k
  {
    var f := Find(c, addr);
    assert f <= k;
  }

  lemma FindNone(c: Chain, addr: u64)
    requires forall k :: 0 <= k < |c| ==> c[k].addr != addr
    ensures Find(c, addr) == |c|
  {
  }

  // ---------------------------------------------------------------------------------------
  // Tables
  // ---------------------------------------------------------------------------------------

  ghost predicate Table(b: seq<Chain>) {
    |b| > 0 && forall i :: 0 <= i < |b| ==> ChainSound(b[i], i, |b|)
  }

  /** The count of `addr`, as a walk of its bucket's chain finds it. */
  function CountOf(b: seq<Chain>, addr: u64): nat
    requires |b| > 0
  {
    Count(b[Bucket(addr, |b|)], addr)
  }

  function Cells(b: seq<Chain>): nat {
    if b == [] then 0 else Cells(b[..|b| - 1]) + |b[|b| - 1]|
  }

  lemma {:induction false} CellsUpdate(b: seq<Chain>, i: nat, c: Chain)
    requires i < |b|
    ensures Cells(b[i := c]) == Cells(b) + |c| - |b[i]|
  {
    var r, b' := b[..|b| - 1], b[i := c];
    if i < |r| {
      assert b'[..|b'| - 1] == r[i := c];
      CellsUpdate(r, i, c);
    } else {
      assert b'[..|b'| - 1] == r;
    }
  }

  /** Replacing one chain changes only the counts of the addresses it is for. */
  lemma ReplaceChain(b: seq<Chain>, i: nat, c: Chain)
    requires Table(b) && i < |b| && ChainSound(c, i, |b|)
    ensures Table(b[i := c])
    ensures forall a :: CountOf(b[i := c], a) == if Bucket(a, |b|) == i then Count(c, a) else CountOf(b, a)
  {
    var b' := b[i := c];
    forall j | 0 <= j < |b'| ensures ChainSound(b'[j], j, |b'|) { assert ChainSound(b[j], j, |b|); }
  }

  /** A new entry at the head of a chain. */
  lemma PushCount(c: Chain, cell: Cell, i: nat, size: nat)
    requires size > 0 && ChainSound(c, i, size) && Find(c, cell.addr) == |c|
    requires Bucket(cell.addr, size) == i && 0 < cell.count < TWO_32
    ensures ChainSound([cell] + c, i, size)
    ensures forall a :: Count([cell] + c, a) == if a == cell.addr then cell.count else Count(c, a)
  {
    var d := [cell] + c;
    assert d[1..] == c;
  }

  /** The count at position `k` changes. */
  lemma SetCount(c: Chain, k: nat, count: nat, i: nat, size: nat)
    requires size > 0 && ChainSound(c, i, size) && k < |c| && 0 < count < TWO_32
    ensures var d := c[k := Cell(c[k].addr, count)];
      ChainSound(d, i, size) && forall a :: Count(d, a) == if a == c[k].addr then count else Count(c, a)
  {
    var d := c[k := Cell(c[k].addr, count)];
    forall a ensures Find(d, a) == Find(c, a) { SameFind(c, d, a); }
    FindUnique(c, k, c[k].addr);
  }

  lemma {:induction false} SameFind(c: Chain, d: Chain, a: u64)
    requires |c| == |d| && forall j :: 0 <= j < |c| ==> c[j].addr == d[j].addr
    ensures Find(c, a) == Find(d, a)
  {
    if c != [] { SameFind(c[1..], d[1..], a); }
  }

  /** The entry at position `k` is unlinked. */
  lemma DropCount(c: Chain, k: nat, i: nat, size: nat)
    requires size > 0 && ChainSound(c, i, size) && k < |c|
    ensures var d := c[..k] + c[k + 1..];
      ChainSound(d, i, size) && forall a :: Count(d, a) == if a == c[k].addr then 0 else Count(c, a)
  {
    var d := c[..k] + c[k + 1..];
    forall a ensures Count(d, a) == if a == c[k].addr then 0 else Count(c, a) {
      var f := Find(c, a);
      if a == c[k].addr {
        FindNone(d, a);
      } else if f < |c| {
        assert f != k;
        var g := if f < k then f else f - 1;
        assert d[g] == c[f];
        FindUnique(d, g, a);
      } else {
        FindNone(d, a);
      }
    }
  }

  /** A count of 0 in a sound chain means that there is no entry. */
  lemma NoEntry(c: Chain, addr: u64, i: nat, size: nat)
    requires size > 0 && ChainSound(c, i, size)
    ensures Find(c, addr) == |c| <==> Count(c, addr) == 0
  {
  }

  /** `b'` has count `v` for `addr` and agrees with `b` on every other address. */
  ghost predicate Changed(b: seq<Chain>, addr: u64, v: nat, b': seq<Chain>) {
    |b| > 0 && |b'| > 0 && forall a :: CountOf(b', a) == if a == addr then v else CountOf(b, a)
  }

  ghost predicate SameCounts(b: seq<Chain>, b': seq<Chain>) {
    |b| > 0 && |b'| > 0 && forall a :: CountOf(b', a) == CountOf(b, a)
  }

  // ---------------------------------------------------------------------------------------
  // Relinking into a larger table
  // ---------------------------------------------------------------------------------------

  /** The count of `a` that has not been moved yet: in chain `i` from entry `j` on, or in a later chain. */
  function Pending(b: seq<Chain>, i: nat, j: nat, a: u64): nat
    requires |b| > 0 && (i < |b| ==> j <= |b[i]|)
  {
    var k := Bucket(a, |b|);
    if k < i then 0 else if k == i then Count(b[i][j..], a) else CountOf(b, a)
  }

  function Done(b: seq<Chain>, i: nat, j: nat): nat
    requires i <= |b|
  {
    Cells(b[..i]) + j
  }

  /** Every address has its count either in the new table or still pending, and no entry is lost. */
  ghost predicate Moving(b: seq<Chain>, i: nat, j: nat, nb: seq<Chain>) {
    && Table(b) && Table(nb) && i <= |b| && (i < |b| ==> j <= |b[i]|)
    && (forall a :: CountOf(nb, a) + Pending(b, i, j, a) == CountOf(b, a))
    && Cells(nb) == Done(b, i, j)
  }

  lemma RestCount(c: Chain, j: nat, i: nat, size: nat)
    requires size > 0 && ChainSound(c, i, size) && j < |c|
    ensures forall a :: Count(c[j + 1..], a) == if a == c[j].addr then 0 else Count(c[j..], a)
    ensures Count(c[j..], c[j].addr) == Count(c, c[j].addr) == c[j].count
  {
    var rest := c[j..];
    assert ChainSound(rest, i, size);
    DropCount(rest, 0, i, size);
    assert rest[..0] + rest[0 + 1..] == c[j + 1..];
    FindUnique(rest, 0, c[j].addr);
    FindUnique(c, j, c[j].addr);
  }

  /** A new entry at the head of its bucket's chain. */
  lemma PushInto(b: seq<Chain>, cell: Cell)
    requires Table(b) && CountOf(b, cell.addr) == 0 && 0 < cell.count < TWO_32
    ensures var b' := PushAt(b, cell);
      Table(b') && Changed(b, cell.addr, cell.count, b') && Cells(b') == Cells(b) + 1
  {
    var n := Bucket(cell.addr, |b|);
    assert ChainSound(b[n], n, |b|);
    NoEntry(b[n], cell.addr, n, |b|);
    PushCount(b[n], cell, n, |b|);
    ReplaceChain(b, n, [cell] + b[n]);
    CellsUpdate(b, n, [cell] + b[n]);
  }

  /** Moving entry `j` of chain `i` to the head of its bucket in the new table. */
  lemma MoveOne(b: seq<Chain>, i: nat, j: nat, nb: seq<Chain>)
    requires Moving(b, i, j, nb) && i < |b| && j < |b[i]|
    ensures Moving(b, i, j + 1, PushAt(nb, b[i][j]))
  {
    var cell := b[i][j];
    assert ChainSound(b[i], i, |b|);
    RestCount(b[i], j, i, |b|);
    assert CountOf(nb, cell.addr) + Pending(b, i, j, cell.addr) == CountOf(b, cell.addr);
    PushInto(nb, cell);
    forall a ensures CountOf(PushAt(nb, cell), a) + Pending(b, i, j + 1, a) == CountOf(b, a) {
      assert CountOf(nb, a) + Pending(b, i, j, a) == CountOf(b, a);
    }
  }

  /** A finished chain makes way for the next one. */
  lemma MoveNext(b: seq<Chain>, i: nat, nb: seq<Chain>)
    requires i < |b| && Moving(b, i, |b[i]|, nb)
    ensures Moving(b, i + 1, 0, nb)
  {
    assert b[..i + 1][..i] == b[..i];
    assert i + 1 < |b| ==> b[i + 1][0..] == b[i + 1];
    forall a ensures CountOf(nb, a) + Pending(b, i + 1, 0, a) == CountOf(b, a) {
      assert CountOf(nb, a) + Pending(b, i, |b[i]|, a) == CountOf(b, a);
    }
  }

  lemma MoveStarts(b: seq<Chain>, nb: seq<Chain>)
    requires Table(b) && |nb| > 0 && forall i :: 0 <= i < |nb| ==> nb[i] == []
    ensures Moving(b, 0, 0, nb)
  {
    assert b[0][0..] == b[0];
    NoCells(nb);
  }

  lemma {:induction false} NoCells(nb: seq<Chain>)
    requires forall i :: 0 <= i < |nb| ==> nb[i] == []
    ensures Cells(nb) == 0
  {
    if nb != [] { NoCells(nb[..|nb| - 1]); }
  }

  lemma MoveEnds(b: seq<Chain>, nb: seq<Chain>)
    requires Moving(b, |b|, 0, nb)
    ensures Table(nb) && SameCounts(b, nb) && Cells(nb) == Cells(b)
  {
    assert b[..|b|] == b;
    forall a ensures CountOf(nb, a) == CountOf(b, a) {
      assert CountOf(nb, a) + Pending(b, |b|, 0, a) == CountOf(b, a);
    }
  }

  // ---------------------------------------------------------------------------------------
  // Counting up and down
  // ---------------------------------------------------------------------------------------

  /** A 32-bit count goes up or down by one. */
  function Inc32(n: nat): nat { if n + 1 == TWO_32 then 0 else n + 1 }
  function Dec32(n: nat): nat { if n == 0 then TWO_32 - 1 else n - 1 }

  predicate HasEntry(b: seq<Chain>, addr: u64)
    requires |b| > 0
  {
    var c := b[Bucket(addr, |b|)];
    Find(c, addr) < |c|
  }

  /** The table with another count in the entry of `addr`. */
  function SetAt(b: seq<Chain>, addr: u64, count: nat): seq<Chain>
    requires |b| > 0 && HasEntry(b, addr)
  {
    var n := Bucket(addr, |b|);
    b[n := b[n][Find(b[n], addr) := Cell(addr, count)]]
  }

  /** The table with the entry of `addr` unlinked. */
  function DropAt(b: seq<Chain>, addr: u64): seq<Chain>
    requires |b| > 0 && HasEntry(b, addr)
  {
    var n := Bucket(addr, |b|);
    var k := Find(b[n], addr);
    b[n := b[n][..k] + b[n][k + 1..]]
  }

  function PushAt(b: seq<Chain>, cell: Cell): seq<Chain>
    requires |b| > 0
  {
    var n := Bucket(cell.addr, |b|);
    b[n := [cell] + b[n]]
  }

  /** In a sound table an address has an entry exactly when its count is positive. */
  lemma EntryExactly(b: seq<Chain>, addr: u64)
    requires Table(b)
    ensures HasEntry(b, addr) <==> CountOf(b, addr) > 0
    ensures CountOf(b, addr) < TWO_32
  {
    var n := Bucket(addr, |b|);
    assert ChainSound(b[n], n, |b|);
  }

  /** A stored count is replaced; the table stays sound exactly when the new count is positive. */
  lemma Recount(b: seq<Chain>, addr: u64, count: nat)
    requires Table(b) && HasEntry(b, addr) && count < TWO_32
    ensures Cells(SetAt(b, addr, count)) == Cells(b) && (Table(SetAt(b, addr, count)) <==> count > 0)
    ensures count > 0 ==> Changed(b, addr, count, SetAt(b, addr, count))
  {
    var n := Bucket(addr, |b|);
    var k := Find(b[n], addr);
    var c := b[n][k := Cell(addr, count)];
    assert ChainSound(b[n], n, |b|);
    CellsUpdate(b, n, c);
    if count > 0 {
      SetCount(b[n], k, count, n, |b|);
      ReplaceChain(b, n, c);
    } else {
      assert c[k].count == 0 && b[n := c][n] == c;
      assert !ChainSound(c, n, |b|);
    }
  }

  /** The last reference goes: the entry is unlinked. */
  lemma Forget(b: seq<Chain>, addr: u64)
    requires Table(b) && HasEntry(b, addr)
    ensures Table(DropAt(b, addr)) && Cells(DropAt(b, addr)) == Cells(b) - 1 && Changed(b, addr, 0, DropAt(b, addr))
  {
    var n := Bucket(addr, |b|);
    var k := Find(b[n], addr);
    var c := b[n][..k] + b[n][k + 1..];
    assert ChainSound(b[n], n, |b|);
    DropCount(b[n], k, n, |b|);
    ReplaceChain(b, n, c);
    CellsUpdate(b, n, c);
  }

  datatype Op = Up(addr: u64) | Down(addr: u64)

  /** How far the successful calls of a run have moved the count of `a`. */
  function Net(ops: seq<Op>, replies: seq<nat>, a: u64): int
    requires |ops| == |replies|
    decreases |ops|
  {
    if ops == [] then 0
    else
      var last := |ops| - 1;
      Net(ops[..last], replies[..last], a)
      + if ops[last].addr != a || replies[last] == 0 then 0 else if ops[last].Up? then 1 else -1
  }

  lemma NetSnoc(ops: seq<Op>, replies: seq<nat>, op: Op, r: nat, a: u64)
    requires |ops| == |replies|
    ensures Net(ops + [op], replies + [r], a) ==
      Net(ops, replies, a) + if op.addr != a || r == 0 then 0 else if op.Up? then 1 else -1
  {
    assert (ops + [op])[..|ops|] == ops && (replies + [r])[..|ops|] == replies;
  }
}
