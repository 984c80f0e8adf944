/**
 The virtual address allocator of kernel/vmm/vmalloc_linkedlist.c on values: a list of free ranges
 in address order, best-fit allocation, and freeing with coalescing on both sides. `RangeLists`
 runs it on linked nodes drawn from a finite pool.
 */
module VirtualRanges {
  import opened Machine

  datatype Block = Block(start: nat, size: nat) {
    function End(): nat { start + size }
  }

  /** Free ranges are nonempty, page-sized, below 2^64, in address order, and never touch. */
  ghost predicate Neat(f: seq<Block>) {
    && (forall i :: 0 <= i < |f| ==> Whole(f[i]))
    && (forall i, j :: 0 <= i < j < |f| ==> f[i].End() < f[j].start)
  }

  /** A multiple of the 4 KiB page size. */
  predicate Paged(x: int) {
    x % PAGE_SIZE == 0
  }

  predicate Whole(b: Block) {
    b.size > 0 && b.start > 0 && Paged(b.start) && Paged(b.size) && b.End() < TWO_64
  }

  /** Address `x` is free. */
  ghost predicate IsFree(f: seq<Block>, x: int) {
    exists i :: 0 <= i < |f| && f[i].start <= x < f[i].End()
  }

  ghost predicate RunFree(f: seq<Block>, a: int, size: nat) {
    forall x :: a <= x < a + size ==> IsFree(f, x)
  }

  // ---------------------------------------------------------------------------------------
  // Allocation
  // ---------------------------------------------------------------------------------------

  /** Range `i` is the first of the smallest ranges that can hold `size`; |f| means there is none. */
  ghost predicate BestFit(f: seq<Block>, size: nat, i: nat) {
    && i <= |f|
    && (i < |f| ==> f[i].size >= size)
    && (forall j :: 0 <= j < |f| && f[j].size >= size ==> i < |f| && f[i].size <= f[j].size)
    && (forall j :: 0 <= j < i < |f| && f[j].size >= size ==> f[i].size < f[j].size)
  }

  /** No other sufficient range is smaller than `b`, or as small and lower. */
  ghost predicate Smallest(f: seq<Block>, size: nat, b: Block) {
    && b in f && b.size >= size
    && forall c :: c in f && c.size >= size ==> b.size < c.size || (b.size == c.size && b.start <= c.start)
  }

  /** The best fit is the lowest of the smallest sufficient ranges. */
  lemma BestIsSmallest(f: seq<Block>, size: nat, i: nat)
    requires Neat(f) && BestFit(f, size, i) && i < |f|
    ensures Smallest(f, size, f[i])
  {
    forall c | c in f && c.size >= size
      ensures f[i].size < c.size || (f[i].size == c.size && f[i].start <= c.start)
    {
      var j :| 0 <= j < |f| && f[j] == c;
      assert i < j ==> f[i].End() < f[j].start;
    }
  }

  function Drop<T>(f: seq<T>, i: nat): (g: seq<T>)
    requires i < |f|
    ensures |g| == |f| - 1
    ensures forall k {:trigger g[k]} :: 0 <= k < i ==> g[k] == f[k]
    ensures forall k {:trigger g[k]} :: i <= k < |g| ==> g[k] == f[k + 1]
  {
    f[..i] + f[i + 1..]
  }

  function Put<T>(f: seq<T>, i: nat, b: T): (g: seq<T>)
    requires i <= |f|
    ensures |g| == |f| + 1 && g[i] == b
    ensures forall k {:trigger g[k]} :: 0 <= k < i ==> g[k] == f[k]
    ensures forall k {:trigger g[k]} :: i < k < |g| ==> g[k] == f[k - 1]
  {
    f[..i] + [b] + f[i..]
  }

  lemma DropPut<T>(f: seq<T>, i: nat, b: T)
    requires i <= |f|
    ensures Drop(Put(f, i, b), i) == f
  {
  }

  /** The list after `size` bytes are cut off the front of range `i`. */
  function Cut(f: seq<Block>, i: nat, size: nat): seq<Block>
    requires i < |f| && size <= f[i].size
  {
    if f[i].size == size then Drop(f, i)
    else f[i := Block(f[i].start + size, f[i].size - size)]
  }

  lemma RunInsideOne(f: seq<Block>, a: int, size: nat) returns (i: nat)
    requires Neat(f) && size > 0 && RunFree(f, a, size)
    ensures i < |f| && f[i].start <= a && a + size <= f[i].End()
  {
    assert IsFree(f, a);
    i :| 0 <= i < |f| && f[i].start <= a < f[i].End();
    assert f[i].End() < a + size ==> IsFree(f, f[i].End());
  }

  /** Allocation fails exactly when no contiguous free run of that size exists anywhere. */
  lemma FailsExactly(f: seq<Block>, size: nat, i: nat)
    requires Neat(f) && size > 0 && BestFit(f, size, i)
    ensures i == |f| <==> forall a: int :: !RunFree(f, a, size)
  {
    if i < |f| {
      forall x | f[i].start <= x < f[i].start + size ensures IsFree(f, x) {}
      assert RunFree(f, f[i].start, size);
    }
    forall a: int | RunFree(f, a, size) ensures i < |f| {
      var j := RunInsideOne(f, a, size);
    }
  }

  lemma DropKeepsNeat(f: seq<Block>, i: nat)
    requires Neat(f) && i < |f|
    ensures Neat(Drop(f, i))
  {
  }

  /** No other range meets range `i`. */
  ghost predicate Alone(f: seq<Block>, i: nat)
    requires i < |f|
  {
    forall k :: 0 <= k < |f| && k != i ==> f[k].End() <= f[i].start || f[i].End() <= f[k].start
  }

  lemma DropRemoves(f: seq<Block>, i: nat, x: int)
    requires i < |f| && Alone(f, i)
    ensures IsFree(Drop(f, i), x) <==> IsFree(f, x) && !(f[i].start <= x < f[i].End())
  {
    if IsFree(f, x) && !(f[i].start <= x < f[i].End()) {
      var k :| 0 <= k < |f| && f[k].start <= x < f[k].End();
      FreeAfterDrop(f, i, k, x);
    }
    if IsFree(Drop(f, i), x) {
      var k :| 0 <= k < |f| - 1 && Drop(f, i)[k].start <= x < Drop(f, i)[k].End();
      FreeBeforeDrop(f, i, k, x);
    }
  }

  lemma FreeAfterDrop(f: seq<Block>, i: nat, k: nat, x: int)
    requires i < |f| && k < |f| && k != i && f[k].start <= x < f[k].End()
    ensures IsFree(Drop(f, i), x)
  {
    var j := if k < i then k else k - 1;
    assert Drop(f, i)[j] == f[k];
  }

  lemma FreeBeforeDrop(f: seq<Block>, i: nat, k: nat, x: int)
    requires i < |f| && k < |f| - 1 && Alone(f, i) && Drop(f, i)[k].start <= x < Drop(f, i)[k].End()
    ensures IsFree(f, x) && !(f[i].start <= x < f[i].End())
  {
    var j := if k < i then k else k + 1;
    assert f[j] == Drop(f, i)[k];
  }

  lemma TrimKeepsNeat(f: seq<Block>, i: nat, b: Block)
    requires Neat(f) && i < |f| && Whole(b) && f[i].start <= b.start && b.End() <= f[i].End()
    ensures Neat(f[i := b])
  {
  }

  lemma TrimRemoves(f: seq<Block>, i: nat, b: Block, x: int)
    requires Neat(f) && i < |f| && f[i].start <= b.start && b.End() == f[i].End()
    ensures IsFree(f[i := b], x) <==> IsFree(f, x) && !(f[i].start <= x < b.start)
  {
    var g := f[i := b];
    if IsFree(f, x) {
      var k :| 0 <= k < |f| && f[k].start <= x < f[k].End();
      assert k != i ==> g[k] == f[k];
      assert g[i] == b;
    }
    if IsFree(g, x) {
      var k :| 0 <= k < |g| && g[k].start <= x < g[k].End();
      assert f[k].start <= x < f[k].End();
    }
  }

  /** Cutting keeps the list neat and takes exactly the cut addresses out of the free set. */
  lemma CutRemoves(f: seq<Block>, i: nat, size: nat, x: int)
    requires Neat(f) && i < |f| && 0 < size <= f[i].size && Paged(size)
    ensures Neat(Cut(f, i, size))
    ensures IsFree(Cut(f, i, size), x) <==> IsFree(f, x) && !(f[i].start <= x < f[i].start + size)
  {
    if f[i].size == size {
      DropKeepsNeat(f, i);
      assert Alone(f, i);
      DropRemoves(f, i, x);
    } else {
      var b := Block(f[i].start + size, f[i].size - size);
      TrimKeepsNeat(f, i, b);
      TrimRemoves(f, i, b, x);
    }
  }

  // ---------------------------------------------------------------------------------------
  // Freeing
  // ---------------------------------------------------------------------------------------

  /** Where a range starting at `a` goes: after the ranges that start before it. */
  ghost predicate InsertionPoint(f: seq<Block>, a: nat, i: nat) {
    && i <= |f|
    && (forall j :: 0 <= j < i ==> f[j].start < a)
    && (forall j :: i <= j < |f| ==> f[j].start >= a)
  }

  /** Range `k` takes over the range after it. */
  function Absorb(g: seq<Block>, k: nat): (h: seq<Block>)
    requires k + 1 < |g|
    ensures |h| == |g| - 1 && h[k] == Block(g[k].start, g[k].size + g[k + 1].size)
    ensures forall j {:trigger h[j]} :: 0 <= j < k ==> h[j] == g[j]
    ensures forall j {:trigger h[j]} :: k < j < |h| ==> h[j] == g[j + 1]
  {
    g[..k] + [Block(g[k].start, g[k].size + g[k + 1].size)] + g[k + 2..]
  }

  /** The range `p` with `size` bytes more, in 64-bit arithmetic. */
  function Grown(p: Block, size: nat): Block {
    Block(p.start, (p.size + size) % TWO_64)
  }

  lemma GrownFits(p: Block, size: nat)
    requires p.size + size < TWO_64
    ensures Grown(p, size) == Block(p.start, p.size + size)
  {
  }

  /** Puts `b` in at `i`, as part of the range before it if they touch. */
  function PutOrGrow(f: seq<Block>, i: nat, b: Block): seq<Block>
    requires i <= |f|
  {
    if Grows(f, i, b) then f[i - 1 := Grown(f[i - 1], b.size)] else Put(f, i, b)
  }

  /** The range before position `i` ends where `b` starts. */
  predicate Grows(f: seq<Block>, i: nat, b: Block)
    requires i <= |f|
  {
    i > 0 && f[i - 1].End() == b.start
  }

  function AbsorbTouching(g: seq<Block>, k: nat): seq<Block> {
    if k + 1 < |g| && g[k].End() == g[k + 1].start then Absorb(g, k) else g
  }

  /** The list after range `b` is put in at `i` and merged with a touching neighbour on either side. */
  function Merge(f: seq<Block>, i: nat, b: Block): seq<Block>
    requires i <= |f|
  {
    AbsorbTouching(PutOrGrow(f, i, b), if Grows(f, i, b) then i - 1 else i)
  }

  /** How many neighbours the block touches: every one of them costs the list a range. */
  function Touching(f: seq<Block>, i: nat, b: Block): nat
    requires i <= |f|
  {
    (if Grows(f, i, b) then 1 else 0) + (if i < |f| && b.End() == f[i].start then 1 else 0)
  }

  /** The range before `b` takes it over, and its size overflows 64 bits. */
  predicate Overflows(f: seq<Block>, i: nat, b: Block)
    requires i <= |f|
  {
    Grows(f, i, b) && f[i - 1].size + b.size >= TWO_64
  }

  lemma MergeLength(f: seq<Block>, i: nat, b: Block)
    requires i <= |f| && !Overflows(f, i, b)
    ensures |Merge(f, i, b)| == |f| + 1 - Touching(f, i, b)
  {
    if Grows(f, i, b) { GrownFits(f[i - 1], b.size); }
  }

  /** No free range meets [b.start, b.End()). */
  ghost predicate Clear(f: seq<Block>, b: Block) {
    forall j :: 0 <= j < |f| ==> f[j].End() <= b.start || b.End() <= f[j].start
  }

  /** Neat, except that range `k` may touch the one after it. */
  ghost predicate NeatBut(g: seq<Block>, k: nat) {
    && (forall i :: 0 <= i < |g| ==> Whole(g[i]))
    && (forall i, j :: 0 <= i < j < |g| ==>
         g[i].End() < g[j].start || (i == k && j == k + 1 && g[i].End() == g[j].start))
  }

  lemma PutNeat(f: seq<Block>, i: nat, b: Block)
    requires Neat(f) && Whole(b) && Clear(f, b) && InsertionPoint(f, b.start, i)
    requires !Grows(f, i, b)
    ensures NeatBut(Put(f, i, b), i)
  {
    var g := Put(f, i, b);
    forall k, l | 0 <= k < l < |g|
      ensures g[k].End() < g[l].start || (k == i && l == i + 1 && g[k].End() == g[l].start)
    {
      if k != i && l != i {
        assert f[if k < i then k else k - 1].End() < f[if l < i then l else l - 1].start;
      } else if l == i {
        assert k < i - 1 ==> f[k].End() < f[i - 1].start;
      } else {
        assert l > i + 1 ==> f[i].End() < f[l - 1].start;
      }
    }
  }

  lemma GrowNeat(f: seq<Block>, i: nat, b: Block)
    requires Neat(f) && Whole(b) && Clear(f, b) && InsertionPoint(f, b.start, i)
    requires Grows(f, i, b)
    ensures NeatBut(f[i - 1 := Grown(f[i - 1], b.size)], i - 1)
  {
    GrownFits(f[i - 1], b.size);
    var g := f[i - 1 := Grown(f[i - 1], b.size)];
    assert Whole(f[i - 1]) && g[i - 1].End() == b.End();
    forall k, l | 0 <= k < l < |g|
      ensures g[k].End() < g[l].start || (k == i - 1 && l == i && g[k].End() == g[l].start)
    {
      if k == i - 1 { EndsBefore(f, i, b, l); }
    }
  }

  /** A block ends before the ranges behind it, and may touch only the next one. */
  lemma EndsBefore(f: seq<Block>, i: nat, b: Block, l: nat)
    requires Neat(f) && Clear(f, b) && InsertionPoint(f, b.start, i) && i <= l < |f|
    ensures b.End() < f[l].start || (l == i && b.End() == f[l].start)
  {
    assert Whole(f[i]);
    assert i < l ==> f[i].End() < f[l].start;
  }

  lemma AbsorbNeat(g: seq<Block>, k: nat)
    requires NeatBut(g, k) && k < |g|
    ensures Neat(AbsorbTouching(g, k))
  {
    var h := AbsorbTouching(g, k);
    if k + 1 < |g| && g[k].End() == g[k + 1].start {
      forall i, j | 0 <= i < j < |h| ensures h[i].End() < h[j].start { AbsorbedApart(g, k, i, j); }
    }
  }

  lemma AbsorbedApart(g: seq<Block>, k: nat, i: nat, j: nat)
    requires NeatBut(g, k) && k + 1 < |g| && g[k].End() == g[k + 1].start && i < j < |g| - 1
    ensures Absorb(g, k)[i].End() < Absorb(g, k)[j].start
  {
    var i', j' := if i < k then i else i + 1, if j <= k then j else j + 1;
    assert g[i'].End() < g[j'].start;
  }

  lemma PutAdds(f: seq<Block>, i: nat, b: Block, x: int)
    requires i <= |f|
    ensures IsFree(Put(f, i, b), x) <==> IsFree(f, x) || b.start <= x < b.End()
  {
    var g := Put(f, i, b);
    if IsFree(f, x) {
      var k :| 0 <= k < |f| && f[k].start <= x < f[k].End();
      assert g[if k < i then k else k + 1] == f[k];
    }
    if IsFree(g, x) {
      var k :| 0 <= k < |g| && g[k].start <= x < g[k].End();
      if k != i { assert f[if k < i then k else k - 1] == g[k]; }
    }
  }

  lemma GrowAdds(f: seq<Block>, i: nat, b: Block, x: int)
    requires i <= |f| && Grows(f, i, b) && f[i - 1].size + b.size < TWO_64
    ensures IsFree(f[i - 1 := Grown(f[i - 1], b.size)], x) <==> IsFree(f, x) || b.start <= x < b.End()
  {
    GrownFits(f[i - 1], b.size);
    var g := f[i - 1 := Grown(f[i - 1], b.size)];
    if IsFree(f, x) {
      var k :| 0 <= k < |f| && f[k].start <= x < f[k].End();
      assert g[k].start <= x < g[k].End();
    }
    if b.start <= x < b.End() { assert g[i - 1].start <= x < g[i - 1].End(); }
    if IsFree(g, x) && !(b.start <= x < b.End()) {
      var k :| 0 <= k < |g| && g[k].start <= x < g[k].End();
      assert f[k].start <= x < f[k].End();
    }
  }

  lemma AbsorbSame(g: seq<Block>, k: nat, x: int)
    ensures IsFree(AbsorbTouching(g, k), x) <==> IsFree(g, x)
  {
    var h := AbsorbTouching(g, k);
    if k + 1 < |g| && g[k].End() == g[k + 1].start {
      if IsFree(g, x) {
        var j :| 0 <= j < |g| && g[j].start <= x < g[j].End();
        var j' := if j <= k then j else j - 1;
        assert h[j'].start <= x < h[j'].End();
      }
      if IsFree(h, x) {
        var j :| 0 <= j < |h| && h[j].start <= x < h[j].End();
        var j' := if j < k || (j == k && x < g[k].End()) then j else j + 1;
        assert g[j'].start <= x < g[j'].End();
      }
    }
  }

  lemma MergeNeat(f: seq<Block>, i: nat, b: Block)
    requires Neat(f) && Whole(b) && Clear(f, b) && InsertionPoint(f, b.start, i)
    ensures Neat(Merge(f, i, b))
  {
    if Grows(f, i, b) {
      GrowNeat(f, i, b);
      AbsorbNeat(PutOrGrow(f, i, b), i - 1);
    } else {
      PutNeat(f, i, b);
      AbsorbNeat(PutOrGrow(f, i, b), i);
    }
  }

  /**
   What keeps the list neat: the block is above 0, ends below 2^64, was not free, and does not stay behind
   without a byte; or a size overflows and leaves a part of the range that it overflows in.
   */
  ghost predicate KeepsNeat(f: seq<Block>, i: nat, b: Block)
    requires i <= |f|
  {
    if Overflows(f, i, b) then f[i - 1].size + b.size > TWO_64
    else b.start > 0 && b.End() < TWO_64 && Clear(f, b) && (b.size > 0 || Touching(f, i, b) > 0)
  }

  /** Freeing any 64-bit number of whole pages keeps the list neat if and only if `KeepsNeat` says so. */
  lemma MergeNeatExactly(f: seq<Block>, i: nat, b: Block)
    requires Neat(f) && Paged(b.start) && Paged(b.size) && b.size < TWO_64 && InsertionPoint(f, b.start, i)
    ensures Neat(Merge(f, i, b)) <==> KeepsNeat(f, i, b)
  {
    if Overflows(f, i, b) {
      MergeOverflow(f, i, b);
    } else if b.size == 0 {
      MergeNothing(f, i, b);
    } else if KeepsNeat(f, i, b) {
      MergeNeat(f, i, b);
    } else {
      MergeMessy(f, i, b);
    }
  }

  lemma WholeKeepsNeat(f: seq<Block>, i: nat, b: Block)
    requires Neat(f) && Whole(b) && Clear(f, b) && i <= |f|
    ensures !Overflows(f, i, b) && KeepsNeat(f, i, b)
  {
  }

  /** A size that overflows makes the range before shorter than it was, which touches nothing. */
  lemma MergeOverflow(f: seq<Block>, i: nat, b: Block)
    requires Neat(f) && Paged(b.size) && b.size < TWO_64 && InsertionPoint(f, b.start, i) && Overflows(f, i, b)
    ensures Merge(f, i, b) == f[i - 1 := Block(f[i - 1].start, f[i - 1].size + b.size - TWO_64)]
    ensures Neat(Merge(f, i, b)) <==> f[i - 1].size + b.size > TWO_64
  {
    var p := f[i - 1];
    ModOnce(p.size + b.size, TWO_64);
    var q := Block(p.start, p.size + b.size - TWO_64);
    assert Whole(p) && q.End() < p.End();
    if q.size > 0 {
      TrimKeepsNeat(f, i - 1, q);
    } else {
      assert !Whole(f[i - 1 := q][i - 1]);
    }
  }

  /** An empty block disappears in a touching range, or stays behind. */
  lemma MergeNothing(f: seq<Block>, i: nat, b: Block)
    requires Neat(f) && b.size == 0 && InsertionPoint(f, b.start, i)
    ensures !Overflows(f, i, b) && (Neat(Merge(f, i, b)) <==> KeepsNeat(f, i, b))
  {
    if Touching(f, i, b) > 0 {
      MergeNothingAt(f, i, b);
      NothingIsClear(f, i, b);
    } else {
      assert !Whole(Merge(f, i, b)[i]);
    }
  }

  lemma MergeNothingAt(f: seq<Block>, i: nat, b: Block)
    requires Neat(f) && b.size == 0 && i <= |f| && Touching(f, i, b) > 0
    ensures !Overflows(f, i, b) && Merge(f, i, b) == f
  {
    if Grows(f, i, b) {
      assert Whole(f[i - 1]);
      GrownFits(f[i - 1], 0);
    } else {
      assert Absorb(Put(f, i, b), i) == f;
    }
  }

  lemma NothingIsClear(f: seq<Block>, i: nat, b: Block)
    requires Neat(f) && b.size == 0 && InsertionPoint(f, b.start, i) && Touching(f, i, b) > 0
    ensures b.start > 0 && b.End() < TWO_64 && Clear(f, b)
  {
    var k := if Grows(f, i, b) then i - 1 else i;
    assert Whole(f[k]);
    forall j | 0 <= j < |f| ensures f[j].End() <= b.start || b.End() <= f[j].start {
      assert j < k ==> f[j].End() < f[k].start;
    }
  }

  lemma MergeMessy(f: seq<Block>, i: nat, b: Block)
    requires Neat(f) && 0 < b.size < TWO_64 && InsertionPoint(f, b.start, i) && !Overflows(f, i, b)
    requires b.start == 0 || b.End() >= TWO_64 || !Clear(f, b)
    ensures !Neat(Merge(f, i, b))
  {
    if !Clear(f, b) { MeetsNeighbour(f, i, b); }
    if Grows(f, i, b) { GrownFits(f[i - 1], b.size); }
    var g := Merge(f, i, b);
    if b.start == 0 {
      assert !Whole(g[i]);
    } else if i > 0 && f[i - 1].End() > b.start {
      assert g[i - 1] == f[i - 1] && g[i].start == b.start;
    } else if b.End() >= TWO_64 {
      LastRange(f, i, b);
    } else {
      var k := if Grows(f, i, b) then i - 1 else i;
      assert g[k].End() == b.End() && g[k + 1] == f[i];
    }
  }

  /** A block that ends past 2^64 touches no range after it, and the range it becomes ends there too. */
  lemma LastRange(f: seq<Block>, i: nat, b: Block)
    requires Neat(f) && 0 < b.size < TWO_64 && b.End() >= TWO_64 && InsertionPoint(f, b.start, i)
    requires !Overflows(f, i, b)
    ensures !Neat(Merge(f, i, b))
  {
    if Grows(f, i, b) { GrownFits(f[i - 1], b.size); }
    var g, k := Merge(f, i, b), if Grows(f, i, b) then i - 1 else i;
    assert i < |f| ==> Whole(f[i]);
    assert g[k].End() == b.End() && !Whole(g[k]);
  }

  /** A block that meets the free set meets the range before or after its insertion point. */
  lemma MeetsNeighbour(f: seq<Block>, i: nat, b: Block)
    requires Neat(f) && InsertionPoint(f, b.start, i) && !Clear(f, b)
    ensures (i > 0 && f[i - 1].End() > b.start) || (i < |f| && b.End() > f[i].start)
  {
    var j :| 0 <= j < |f| && !(f[j].End() <= b.start || b.End() <= f[j].start);
    assert i < j ==> f[i].End() < f[j].start;
  }

  /** Freeing a block disjoint from the free set keeps the list neat and adds exactly its addresses. */
  lemma MergeAdds(f: seq<Block>, i: nat, b: Block, x: int)
    requires Neat(f) && Whole(b) && Clear(f, b) && InsertionPoint(f, b.start, i)
    ensures Neat(Merge(f, i, b))
    ensures IsFree(Merge(f, i, b), x) <==> IsFree(f, x) || b.start <= x < b.End()
  {
    MergeNeat(f, i, b);
    if Grows(f, i, b) {
      GrowAdds(f, i, b, x);
      AbsorbSame(PutOrGrow(f, i, b), i - 1, x);
    } else {
      PutAdds(f, i, b, x);
      AbsorbSame(PutOrGrow(f, i, b), i, x);
    }
  }

  // ---------------------------------------------------------------------------------------
  // Round trip and totals
  // ---------------------------------------------------------------------------------------

  /** Freeing the block just cut restores the very same list. */
  lemma CutThenMerge(f: seq<Block>, i: nat, size: nat)
    requires Neat(f) && i < |f| && 0 < size <= f[i].size
    ensures InsertionPoint(Cut(f, i, size), f[i].start, i)
    ensures Merge(Cut(f, i, size), i, Block(f[i].start, size)) == f
  {
    var g, b := Cut(f, i, size), Block(f[i].start, size);
    assert i > 0 ==> g[i - 1] == f[i - 1] && f[i - 1].End() < f[i].start;
    if f[i].size == size {
      assert i < |g| ==> f[i].End() < g[i].start;
      assert Put(Drop(f, i), i, f[i]) == f;
    } else {
      PutBackPart(f, i, size);
    }
  }

  lemma PutBackPart(f: seq<Block>, i: nat, size: nat)
    requires i < |f| && 0 < size < f[i].size
    ensures AbsorbTouching(Put(Cut(f, i, size), i, Block(f[i].start, size)), i) == f
  {
    var h := Put(Cut(f, i, size), i, Block(f[i].start, size));
    assert h[i + 1] == Block(f[i].start + size, f[i].size - size);
    assert Absorb(h, i) == f;
  }

  /** Bytes in the first `n` ranges. */
  function Sum(f: seq<Block>, n: nat): nat
    requires n <= |f|
  {
    if n == 0 then 0 else Sum(f, n - 1) + f[n - 1].size
  }

  function Total(f: seq<Block>): nat {
    Sum(f, |f|)
  }

  lemma {:induction false} SumUpdate(f: seq<Block>, i: nat, b: Block, n: nat)
    requires i < |f| && n <= |f|
    ensures Sum(f[i := b], n) == Sum(f, n) + if i < n then b.size - f[i].size else 0
  {
    if n > 0 { SumUpdate(f, i, b, n - 1); }
  }

  lemma {:induction false} SumPut(f: seq<Block>, i: nat, b: Block, n: nat)
    requires i <= |f| && n <= |f| + 1
    ensures Sum(Put(f, i, b), n) == if n <= i then Sum(f, n) else Sum(f, n - 1) + b.size
  {
    if n > 0 { SumPut(f, i, b, n - 1); }
  }

  lemma TotalPut(f: seq<Block>, i: nat, b: Block)
    requires i <= |f|
    ensures Total(Put(f, i, b)) == Total(f) + b.size
  {
    SumPut(f, i, b, |f| + 1);
  }

  lemma TotalUpdate(f: seq<Block>, i: nat, b: Block)
    requires i < |f|
    ensures Total(f[i := b]) == Total(f) - f[i].size + b.size
  {
    SumUpdate(f, i, b, |f|);
  }

  lemma TotalDrop(f: seq<Block>, i: nat)
    requires i < |f|
    ensures Total(Drop(f, i)) == Total(f) - f[i].size
  {
    assert Put(Drop(f, i), i, f[i]) == f;
    TotalPut(Drop(f, i), i, f[i]);
  }

  /** Free bytes are conserved: an allocation takes exactly `size` of them. */
  lemma CutTotal(f: seq<Block>, i: nat, size: nat)
    requires i < |f| && size <= f[i].size
    ensures Total(Cut(f, i, size)) == Total(f) - size
  {
    if f[i].size == size {
      TotalDrop(f, i);
    } else {
      TotalUpdate(f, i, Block(f[i].start + size, f[i].size - size));
    }
  }

  lemma {:induction false} SumAbsorb(g: seq<Block>, k: nat, n: nat)
    requires k + 1 < |g| && n < |g|
    ensures Sum(Absorb(g, k), n) == if n <= k then Sum(g, n) else Sum(g, n + 1)
  {
    if n > 0 { SumAbsorb(g, k, n - 1); }
  }

  /** Freeing gives back exactly the bytes of the block, whatever it merges with, unless a size overflows. */
  lemma MergeTotal(f: seq<Block>, i: nat, b: Block)
    requires i <= |f|
    ensures Total(Merge(f, i, b)) == Total(f) + b.size <==> !Overflows(f, i, b)
  {
    var grow := Grows(f, i, b);
    var g, k := PutOrGrow(f, i, b), if grow then i - 1 else i;
    if grow {
      TotalUpdate(f, i - 1, Grown(f[i - 1], b.size));
    } else {
      TotalPut(f, i, b);
    }
    if k + 1 < |g| && g[k].End() == g[k + 1].start {
      SumAbsorb(g, k, |g| - 1);
    }
  }

  /** Freeing 2^52 - 1 pages behind a free page: its size overflows to 0, and all bytes are lost. */
  lemma OverflowLosesBytes()
    ensures var f, b := [Block(0x1000, 0x1000)], Block(0x2000, TWO_64 - 0x1000);
      InsertionPoint(f, b.start, 1) && Merge(f, 1, b) == [Block(0x1000, 0)]
  {
    var f, b := [Block(0x1000, 0x1000)], Block(0x2000, TWO_64 - 0x1000);
    assert Grown(f[0], b.size) == Block(0x1000, 0);
  }
}
