/**
 Whole runs of the virtual address allocator: the free list, the blocks its callers hold, and the
 spare nodes, under any interleaving of allocations and of frees of blocks that are held.
 */
module VirtualRuns {
  import opened Machine
  import opened VirtualRanges
  import opened RangeLists

  /** `stuck` is the lock that a failed free never releases. */
  datatype Ledger = Ledger(free: seq<Block>, live: set<Block>, spare: nat, stuck: bool)

  datatype Request =
    | Allocate(pages: nat)
    | Release(block: Block)

  /** Address `x` belongs to a live block. */
  ghost predicate IsLive(live: set<Block>, x: int) {
    exists b :: b in live && b.start <= x < b.End()
  }

  ghost predicate Apart(a: Block, b: Block) {
    a.End() <= b.start || b.End() <= a.start
  }

  /** Free ranges and live blocks together make up exactly `area`, and no two of them meet. */
  ghost predicate Partition(l: Ledger, area: Block) {
    && Neat(l.free)
    && (forall b :: b in l.live ==> Whole(b) && Clear(l.free, b))
    && (forall a, b :: a in l.live && b in l.live && a != b ==> Apart(a, b))
    && (forall x :: area.start <= x < area.End() <==> IsFree(l.free, x) || IsLive(l.live, x))
  }

  /** Nodes in use and spare nodes; every free range holds one. */
  function Nodes(l: Ledger): nat {
    |l.free| + l.spare
  }

  /** Range `i` serves the request; its node becomes spare when nothing of it is left. */
  ghost predicate Granted(l: Ledger, size: nat, i: nat, m: Ledger)
    requires BestFit(l.free, size, i) && i < |l.free|
  {
    && m.free == Cut(l.free, i, size) && m.live == l.live + {Block(l.free[i].start, size)}
    && m.spare == l.spare + (if l.free[i].size == size then 1 else 0) && m.stuck == l.stuck
  }

  /** The block goes back; it takes a spare node, and every merge gives one back. */
  ghost predicate Returned(l: Ledger, b: Block, i: nat, m: Ledger) {
    && InsertionPoint(l.free, b.start, i) && l.spare > 0
    && m.free == Merge(l.free, i, b) && m.live == l.live - {b}
    && m.spare == l.spare - 1 + Touching(l.free, i, b) && m.stuck == l.stuck
  }

  /** One call by a caller that frees only what it holds. */
  ghost predicate Serve(l: Ledger, r: Request, m: Ledger) {
    !l.stuck &&
    match r
    case Allocate(pages) =>
      (pages == 0 && m == l) || (pages > 0 && ((BestFit(l.free, ByteCount(pages), |l.free|) && m == l)
        || exists i :: 0 <= i < |l.free| && BestFit(l.free, ByteCount(pages), i) && Granted(l, ByteCount(pages), i, m)))
    case Release(b) =>
      b in l.live && ((l.spare == 0 && m == l.(stuck := true)) || exists i :: 0 <= i && Returned(l, b, i, m))
  }

  lemma LiveSplit(live: set<Block>, b: Block, x: int)
    ensures IsLive(live + {b}, x) <==> IsLive(live, x) || b.start <= x < b.End()
  {
    if IsLive(live, x) {
      var c :| c in live && c.start <= x < c.End();
      assert c in live + {b};
    }
    if b.start <= x < b.End() { assert b in live + {b}; }
  }

  lemma GrantKeepsPartition(l: Ledger, pages: nat, i: nat, m: Ledger, area: Block)
    requires Partition(l, area) && 0 < pages < 0x10_0000_0000_0000
    requires i < |l.free| && BestFit(l.free, ByteCount(pages), i) && Granted(l, ByteCount(pages), i, m)
    ensures Partition(m, area) && ByteCount(pages) == pages * PAGE_SIZE
  {
    ModSmall(pages * PAGE_SIZE, TWO_64);
    var size := pages * PAGE_SIZE;
    var b := Block(l.free[i].start, size);
    CutRemoves(l.free, i, size, 0);
    assert Whole(l.free[i]);
    forall c | c in m.live ensures Whole(c) && Clear(m.free, c) {
      GrantClear(l.free, i, size, c);
    }
    forall c | c in l.live ensures Apart(c, b) { assert Clear(l.free, c); }
    forall x ensures area.start <= x < area.End() <==> IsFree(m.free, x) || IsLive(m.live, x) {
      CutRemoves(l.free, i, size, x);
      LiveSplit(l.live, b, x);
    }
  }

  lemma GrantClear(f: seq<Block>, i: nat, size: nat, c: Block)
    requires Neat(f) && i < |f| && 0 < size <= f[i].size && (c == Block(f[i].start, size) || Clear(f, c))
    ensures Clear(Cut(f, i, size), c)
  {
    var g := Cut(f, i, size);
    forall j | 0 <= j < |g| ensures g[j].End() <= c.start || c.End() <= g[j].start {
      var k := if f[i].size == size && j >= i then j + 1 else j;
      assert f[k].End() == g[j].End() && f[k].start <= g[j].start;
      assert k < i ==> f[k].End() < f[i].start;
      assert i < k ==> f[i].End() < f[k].start;
    }
  }

  lemma ReleaseKeepsPartition(l: Ledger, b: Block, i: nat, m: Ledger, area: Block)
    requires Partition(l, area) && b in l.live && Returned(l, b, i, m)
    ensures Partition(m, area)
  {
    MergeAdds(l.free, i, b, 0);
    forall c | c in m.live ensures Whole(c) && Clear(m.free, c) {
      assert Apart(b, c);
      MergeClear(l.free, i, b, c);
    }
    forall x ensures area.start <= x < area.End() <==> IsFree(m.free, x) || IsLive(m.live, x) {
      MergeAdds(l.free, i, b, x);
      LiveSplit(m.live, b, x);
      assert m.live + {b} == l.live;
    }
  }

  /** A block that meets neither the free set nor `b` does not meet the merged list. */
  lemma MergeClear(f: seq<Block>, i: nat, b: Block, c: Block)
    requires Neat(f) && Whole(b) && Clear(f, b) && InsertionPoint(f, b.start, i)
    requires Whole(c) && Clear(f, c) && Apart(b, c)
    ensures Clear(Merge(f, i, b), c)
  {
    var g := Merge(f, i, b);
    MergeNeat(f, i, b);
    forall j | 0 <= j < |g| ensures g[j].End() <= c.start || c.End() <= g[j].start {
      assert Whole(g[j]);
      var x := if g[j].start <= c.start then c.start else g[j].start;
      MergeAdds(f, i, b, x);
      assert g[j].start <= x < g[j].End() ==> IsFree(g, x);
    }
  }

  /** A run of calls and the ledgers between them. */
  ghost predicate Serves(ls: seq<Ledger>, rs: seq<Request>) {
    |ls| == |rs| + 1 && forall k {:trigger rs[k]} :: 0 <= k < |rs| ==> Serve(ls[k], rs[k], ls[k + 1])
  }

  predicate Fits(r: Request) {
    r.Allocate? ==> r.pages < 0x10_0000_0000_0000
  }

  lemma ServeKeepsPartition(l: Ledger, r: Request, m: Ledger, area: Block)
    requires Serve(l, r, m) && Partition(l, area) && Fits(r)
    ensures Partition(m, area) && Nodes(m) == Nodes(l)
  {
    match r
    case Allocate(pages) =>
      if m != l {
        var i: nat :| i < |l.free| && BestFit(l.free, ByteCount(pages), i) && Granted(l, ByteCount(pages), i, m);
        GrantKeepsPartition(l, pages, i, m, area);
      }
    case Release(b) =>
      if !m.stuck {
        var i: nat :| Returned(l, b, i, m);
        WholeKeepsNeat(l.free, i, b);
        MergeLength(l.free, i, b);
        ReleaseKeepsPartition(l, b, i, m, area);
      }
  }

  /**
   Over every run, free ranges and live blocks partition the managed area and no node is lost:
   the run starts with the whole area free, as vmm_init leaves it.
   */
  lemma {:induction false} RunKeepsPartition(ls: seq<Ledger>, rs: seq<Request>, area: Block, k: nat)
    requires Serves(ls, rs) && (forall j :: 0 <= j < |rs| ==> Fits(rs[j])) && k < |ls|
    requires Whole(area) && ls[0].free == [area] && ls[0].live == {}
    ensures Partition(ls[k], area) && Nodes(ls[k]) == Nodes(ls[0])
  {
    if k == 0 {
      forall x ensures area.start <= x < area.End() <==> IsFree(ls[0].free, x) {
        assert ls[0].free[0] == area;
      }
    } else {
      RunKeepsPartition(ls, rs, area, k - 1);
      assert Serve(ls[k - 1], rs[k - 1], ls[k - 1 + 1]);
      ServeKeepsPartition(ls[k - 1], rs[k - 1], ls[k], area);
    }
  }

  /** [a, a + size) lies in the area and meets no live block. */
  ghost predicate Unheld(l: Ledger, a: int, size: nat, area: Block) {
    area.start <= a && a + size <= area.End() && forall x :: a <= x < a + size ==> !IsLive(l.live, x)
  }

  /** An allocation in a run fails exactly when no stretch of the area that long is free of live blocks. */
  lemma RefusedExactly(l: Ledger, pages: nat, m: Ledger, area: Block)
    requires pages > 0 && Serve(l, Allocate(pages), m) && Partition(l, area) && Fits(Allocate(pages))
    ensures m.live == l.live <==> forall a: int :: !Unheld(l, a, pages * PAGE_SIZE, area)
  {
    ModSmall(pages * PAGE_SIZE, TWO_64);
    var size := pages * PAGE_SIZE;
    forall a: int ensures RunFree(l.free, a, size) <==> Unheld(l, a, size, area) {
      RunIsUnheld(l, a, size, area);
    }
    if m == l && BestFit(l.free, size, |l.free|) {
      FailsExactly(l.free, size, |l.free|);
      forall a: int ensures !Unheld(l, a, size, area) { assert !RunFree(l.free, a, size); }
    } else {
      var i: nat :| i < |l.free| && BestFit(l.free, size, i) && Granted(l, size, i, m);
      assert RunFree(l.free, l.free[i].start, size);
      var b := Block(l.free[i].start, size);
      assert b in l.live ==> Clear(l.free, b);
      assert b in m.live && b !in l.live;
    }
  }

  lemma RunIsUnheld(l: Ledger, a: int, size: nat, area: Block)
    requires Partition(l, area) && size > 0
    ensures RunFree(l.free, a, size) <==> Unheld(l, a, size, area)
  {
    if RunFree(l.free, a, size) {
      assert IsFree(l.free, a) && IsFree(l.free, a + size - 1);
      forall x | a <= x < a + size ensures !IsLive(l.live, x) {
        assert IsFree(l.free, x);
        forall b | b in l.live ensures !(b.start <= x < b.End()) { assert Clear(l.free, b); }
      }
    }
  }

  // ---------------------------------------------------------------------------------------
  // The linked allocator takes these steps
  // ---------------------------------------------------------------------------------------

  /** What an allocator and its callers' blocks amount to. */
  ghost function LedgerOf(a: RangeAllocator, live: set<Block>): Ledger
    reads a
  {
    Ledger(a.free, live, |a.spare|, a.locked)
  }

  /** One request to the linked allocator, by callers that hold the blocks `live`, is a step of the ledger. */
  method Perform(a: RangeAllocator, r: Request, live: set<Block>) returns (live': set<Block>)
    requires a.Valid() && Fits(r) && (r.Release? ==> r.block in live && Whole(r.block) && Clear(a.free, r.block))
    modifies a, a.nodes
    ensures a.Linked() && Neat(a.free) && Serve(old(LedgerOf(a, live)), r, LedgerOf(a, live'))
  {
    match r
    case Allocate(pages) =>
      live' := PerformAllocate(a, pages, live);
    case Release(b) =>
      live' := PerformRelease(a, b, live);
  }

  /** What becomes of a request: callers free only what they hold, and a held lock stops everything. */
  ghost predicate Responds(l: Ledger, r: Request, m: Ledger) {
    if l.stuck || (r.Release? && r.block !in l.live) then m == l else Serve(l, r, m)
  }

  /** The ledgers `ls` lead from `first` to `last` through the requests `rs`. */
  ghost predicate Leads(first: Ledger, ls: seq<Ledger>, rs: seq<Request>, last: Ledger) {
    && |ls| == |rs| + 1 && ls[0] == first && ls[|rs|] == last
    && forall k {:trigger rs[k]} :: 0 <= k < |rs| ==> Responds(ls[k], rs[k], ls[k + 1])
  }

  lemma LeadsOn(first: Ledger, ls: seq<Ledger>, rs: seq<Request>, last: Ledger, r: Request, next: Ledger)
    requires Leads(first, ls, rs, last) && Responds(last, r, next)
    ensures Leads(first, ls + [next], rs + [r], next)
  {
    var ls', rs' := ls + [next], rs + [r];
    forall k | 0 <= k < |rs'| ensures Responds(ls'[k], rs'[k], ls'[k + 1]) {
      assert k < |rs| ==> rs'[k] == rs[k];
    }
  }

  /** One request by callers that free only what they hold. */
  method Attempt(a: RangeAllocator, r: Request, live: set<Block>, ghost area: Block) returns (live': set<Block>)
    requires a.Linked() && Partition(LedgerOf(a, live), area) && Fits(r)
    modifies a, a.nodes
    ensures a.Linked() && Partition(LedgerOf(a, live'), area)
    ensures Responds(old(LedgerOf(a, live)), r, LedgerOf(a, live'))
    ensures Nodes(LedgerOf(a, live')) == Nodes(old(LedgerOf(a, live)))
  {
    live' := live;
    if !a.locked && (r.Allocate? || r.block in live) {
      ghost var before := LedgerOf(a, live);
      live' := Perform(a, r, live);
      ServeKeepsPartition(before, r, LedgerOf(a, live'), area);
    }
  }

  /**
   Any run of requests to a new linked allocator: every one is answered as the ledger says, a failed free
   leaves it locked for good, at any time free and live blocks partition the area, and the nodes of the
   two lists are those of the beginning.
   */
  method Run(a: RangeAllocator, rs: seq<Request>, ghost area: Block) returns (live: set<Block>, ghost ls: seq<Ledger>)
    requires a.Valid() && Whole(area) && a.free == [area] && forall k :: 0 <= k < |rs| ==> Fits(rs[k])
    modifies a, a.nodes
    ensures a.Linked() && Leads(old(LedgerOf(a, {})), ls, rs, LedgerOf(a, live))
    ensures forall k :: 0 <= k < |ls| ==> Partition(ls[k], area) && Nodes(ls[k]) == Nodes(ls[0])
    ensures |a.list| + |a.spare| == old(|a.list| + |a.spare|)
  {
    live := {};
    ghost var first := LedgerOf(a, live);
    ls := [first];
    RunKeepsPartition(ls, [], area, 0);
    for i := 0 to |rs|
      invariant a.Linked() && Leads(first, ls, rs[..i], LedgerOf(a, live))
      invariant Partition(LedgerOf(a, live), area)
      invariant forall k :: 0 <= k < |ls| ==> Partition(ls[k], area) && Nodes(ls[k]) == Nodes(first)
    {
      ghost var before := LedgerOf(a, live);
      live := Attempt(a, rs[i], live, area);
      LeadsOn(first, ls, rs[..i], before, rs[i], LedgerOf(a, live));
      assert rs[..i + 1] == rs[..i] + [rs[i]];
      ls := ls + [LedgerOf(a, live)];
    }
    assert rs[..|rs|] == rs;
  }

  method PerformAllocate(a: RangeAllocator, pages: nat, live: set<Block>) returns (live': set<Block>)
    requires a.Valid() && pages < 0x10_0000_0000_0000
    modifies a, a.nodes
    ensures a.Valid() && Serve(old(LedgerOf(a, live)), Allocate(pages), LedgerOf(a, live'))
  {
    ModSmall(pages * PAGE_SIZE, TWO_64);
    ghost var l := LedgerOf(a, live);
    var address;
    ghost var i;
    address, i := a.AllocBlock(pages);
    live' := live;
    if pages > 0 && address != 0 {
      live' := live + {Block(address, pages * PAGE_SIZE)};
      assert Granted(l, ByteCount(pages), i, LedgerOf(a, live'));
    }
  }

  method PerformRelease(a: RangeAllocator, b: Block, live: set<Block>) returns (live': set<Block>)
    requires a.Valid() && Whole(b) && b in live && Clear(a.free, b)
    modifies a, a.nodes
    ensures a.Linked() && Neat(a.free) && Serve(old(LedgerOf(a, live)), Release(b), LedgerOf(a, live'))
  {
    ghost var l := LedgerOf(a, live);
    WholePages(b);
    assert b == Block(b.start, b.size);
    var status;
    ghost var i;
    status, i := a.FreeBlock(b.start, b.size / PAGE_SIZE);
    live' := live;
    if status == Success {
      WholeKeepsNeat(l.free, i, b);
      live' := live - {b};
      ReleaseServed(l, b, i, LedgerOf(a, live'));
    }
  }

  lemma WholePages(b: Block)
    requires Whole(b)
    ensures b.size / PAGE_SIZE > 0 && ByteCount(b.size / PAGE_SIZE) == b.size
  {
  }

  lemma ReleaseServed(l: Ledger, b: Block, i: nat, m: Ledger)
    requires !l.stuck && !m.stuck && l.spare > 0 && b in l.live && InsertionPoint(l.free, b.start, i)
    requires m.free == Merge(l.free, i, b) && m.live == l.live - {b} && Nodes(m) == Nodes(l)
    requires !Overflows(l.free, i, b)
    ensures Serve(l, Release(b), m)
  {
    MergeLength(l.free, i, b);
    assert Returned(l, b, i, m);
  }
}
