/**
 The virtual address allocator on linked nodes: one list of free ranges and one pool of unused
 nodes, both threaded through `next`. Every method is proved to do to the represented list of
 ranges what `VirtualRanges` defines, and to keep the number of nodes constant.
 */
module RangeLists {
  import opened Machine
  import opened VirtualRanges

  class Range {
    var start: nat
    var size: nat
    var next: Range?

    constructor ()
      ensures next == null
    {
      start, size, next := 0, 0, null;
    }
  }

  ghost function NodeAt(ns: seq<Range>, i: nat): Range? {
    if i < |ns| then ns[i] else null
  }

  /** `ns` are the nodes reached from `head` through `next`, in order. */
  ghost predicate Chain(head: Range?, ns: seq<Range>)
    reads ns
  {
    && Distinct(ns)
    && head == NodeAt(ns, 0)
    && forall i {:trigger ns[i].next} :: 0 <= i < |ns| ==> ns[i].next == NodeAt(ns, i + 1)
  }

  /** `f` are the ranges stored in the nodes `ns`. */
  ghost predicate Shows(ns: seq<Range>, f: seq<Block>)
    reads ns
  {
    |f| == |ns| && forall i :: 0 <= i < |ns| ==> f[i] == Block(ns[i].start, ns[i].size)
  }

  // ---------------------------------------------------------------------------------------
  // Searching
  // ---------------------------------------------------------------------------------------

  /** Range `i` is the best fit among the first `k`; |f| means there is none so far. */
  ghost predicate BestSoFar(f: seq<Block>, size: nat, k: nat, i: nat) {
    && (i == |f| || i < k)
    && (i < |f| ==> f[i].size >= size)
    && (forall j :: 0 <= j < k <= |f| && f[j].size >= size ==> i < |f| && f[i].size <= f[j].size)
    && (forall j :: 0 <= j < i < |f| && f[j].size >= size ==> f[i].size < f[j].size)
  }

  lemma BestNext(f: seq<Block>, size: nat, k: nat, i: nat)
    requires BestSoFar(f, size, k, i) && k < |f|
    ensures f[k].size >= size && (i < |f| ==> f[k].size < f[i].size) ==> BestSoFar(f, size, k + 1, k)
    ensures !(f[k].size >= size && (i < |f| ==> f[k].size < f[i].size)) ==> BestSoFar(f, size, k + 1, i)
  {
  }

  lemma BestDone(f: seq<Block>, size: nat, k: nat, i: nat)
    requires BestSoFar(f, size, k, i) && k <= |f| && (k == |f| || (i < |f| && f[i].size == size))
    ensures BestFit(f, size, i)
  {
  }

  ghost predicate SizesFit(f: seq<Block>) {
    forall i :: 0 <= i < |f| ==> f[i].size < TWO_64 - 1
  }

  /** The best-fit loop of vmm_alloc_block. */
  method FindBestFit(head: Range?, size: nat, ghost ns: seq<Range>, ghost f: seq<Block>)
    returns (prev: Range?, best: Range?, ghost i: nat)
    requires Chain(head, ns) && Shows(ns, f) && SizesFit(f)
    ensures BestFit(f, size, i) && best == NodeAt(ns, i)
    ensures best != null ==> prev == if i == 0 then null else ns[i - 1]
  {
    ghost var k: nat := 0;
    var curr, before: Range? := head, null;
    prev, best, i := null, null, |ns|;
    var smallest := TWO_64 - 1;
    while curr != null
      invariant k <= |ns| && curr == NodeAt(ns, k) && before == if k == 0 then null else ns[k - 1]
      invariant BestSoFar(f, size, k, i) && best == NodeAt(ns, i)
      invariant best != null ==> prev == if i == 0 then null else ns[i - 1]
      invariant smallest == if i < |ns| then f[i].size else TWO_64 - 1
      decreases |ns| - k
    {
      BestNext(f, size, k, i);
      if curr.size >= size && curr.size < smallest {
        best, prev, smallest, i := curr, before, curr.size, k;
        if curr.size == size {
          BestDone(f, size, k + 1, i);
          return;
        }
      }
      before, curr := curr, curr.next;
      k := k + 1;
    }
    BestDone(f, size, k, i);
  }

  lemma InsertionFound(f: seq<Block>, address: nat, i: nat)
    requires Neat(f) && i <= |f|
    requires forall j :: 0 <= j < i ==> f[j].start < address
    requires i < |f| ==> f[i].start >= address
    ensures InsertionPoint(f, address, i)
  {
    forall j | i <= j < |f| ensures f[j].start >= address { assert i < j ==> f[i].End() < f[j].start; }
  }

  /** The search for the insertion point in vmm_free_block. */
  method FindInsertion(head: Range?, address: nat, ghost ns: seq<Range>) returns (prev: Range?, ghost i: nat)
    requires Chain(head, ns)
    ensures i <= |ns| && prev == if i == 0 then null else ns[i - 1]
    ensures forall j :: 0 <= j < i ==> ns[j].start < address
    ensures i < |ns| ==> ns[i].start >= address
  {
    i := 0;
    prev := null;
    var curr := head;
    while curr != null && curr.start < address
      invariant i <= |ns| && curr == NodeAt(ns, i) && prev == if i == 0 then null else ns[i - 1]
      invariant forall j :: 0 <= j < i ==> ns[j].start < address
      decreases |ns| - i
    {
      prev, curr := curr, curr.next;
      i := i + 1;
    }
  }

  // ---------------------------------------------------------------------------------------
  // The allocator
  // ---------------------------------------------------------------------------------------

  class RangeAllocator {
    var freeRanges: Range?
    var rangePool: Range?
    var locked: bool
    ghost var list: seq<Range>
    ghost var spare: seq<Range>
    ghost var free: seq<Block>
    ghost const nodes: set<Range>

    /** Both lists are well linked, use only the allocator's nodes and share none; `free` is what they hold. */
    ghost predicate Linked()
      reads `freeRanges, `rangePool, `list, `spare, `free, nodes
    {
      && (forall i :: 0 <= i < |list| ==> list[i] in nodes) && (forall i :: 0 <= i < |spare| ==> spare[i] in nodes)
      && Chain(freeRanges, list) && Chain(rangePool, spare) && Shows(list, free)
      && forall i, j :: 0 <= i < |list| && 0 <= j < |spare| ==> list[i] != spare[j]
    }

    ghost predicate Valid()
      reads this, nodes
    {
      Linked() && Neat(free) && !locked
    }

    /** Takes the first node of a pool for one range that covers everything. */
    constructor (head: Range, start: nat, size: nat, ghost ns: seq<Range>)
      requires Chain(head, ns)
      modifies ns
      ensures Linked() && !locked && nodes == (set i | 0 <= i < |ns| :: ns[i])
      ensures free == [Block(start, size)] && list == ns[..1] && spare == ns[1..]
    {
      nodes := set i | 0 <= i < |ns| :: ns[i];
      freeRanges, rangePool, locked := head, head.next, false;
      list, spare, free := ns[..1], ns[1..], [Block(start, size)];
      new;
      head.start, head.size, head.next := start, size, null;
    }

    /** alloc_range: takes a node from the pool. */
    method TakeNode() returns (r: Range?)
      requires Linked()
      modifies `rangePool, `spare
      ensures Linked()
      ensures old(spare) == [] ==> r == null && spare == []
      ensures old(spare) != [] ==> r == old(spare)[0] && spare == old(spare)[1..]
      ensures old(spare) != [] ==> r in nodes && r !in list && r !in spare
    {
      if rangePool == null {
        return null;
      }
      r := rangePool;
      rangePool := rangePool.next;
      spare := spare[1..];
    }

    /** free_range: returns a node to the pool. */
    method GiveNode(r: Range)
      requires Linked() && r in nodes && r !in list && r !in spare
      modifies `rangePool, `spare, nodes`next
      ensures Linked() && spare == [r] + old(spare)
    {
      r.next := rangePool;
      rangePool := r;
      spare := [r] + spare;
    }

    /** Takes node `i` out of the free list; `prev` is the node before it. */
    method Unlink(prev: Range?, node: Range, ghost i: nat)
      requires Linked() && i < |list| && node == list[i] && prev == if i == 0 then null else list[i - 1]
      modifies `freeRanges, `list, `free, nodes`next
      ensures Linked() && list == Drop(old(list), i) && free == Drop(old(free), i)
      ensures node !in list && node !in spare
    {
      if prev != null {
        UnlinkAfter(prev, node, i);
      } else {
        UnlinkFirst(node);
      }
    }

    method UnlinkFirst(node: Range)
      requires Linked() && list != [] && node == list[0]
      modifies `freeRanges, `list, `free
      ensures Linked() && list == Drop(old(list), 0) && free == Drop(old(free), 0)
      ensures node !in list && node !in spare
    {
      freeRanges := node.next;
      list, free := list[1..], free[1..];
      assert node !in spare;
    }

    method UnlinkAfter(prev: Range, node: Range, ghost i: nat)
      requires Linked() && 0 < i < |list| && node == list[i] && prev == list[i - 1]
      modifies `list, `free, prev`next
      ensures Linked() && list == Drop(old(list), i) && free == Drop(old(free), i)
      ensures node !in list && node !in spare
    {
      prev.next := node.next;
      list, free := Drop(list, i), Drop(free, i);
      assert node !in spare;
    }

    /** Puts `node` into the free list at position `i`, after `prev`. */
    method LinkIn(prev: Range?, node: Range, ghost i: nat)
      requires Linked() && i <= |list| && prev == (if i == 0 then null else list[i - 1])
      requires node in nodes && node !in list && node !in spare
      modifies `freeRanges, `list, `free, nodes`next
      ensures Linked() && list == Put(old(list), i, node)
      ensures free == Put(old(free), i, old(Block(node.start, node.size)))
    {
      if prev != null {
        LinkAfter(prev, node, i);
      } else {
        LinkFirst(node);
      }
    }

    method LinkFirst(node: Range)
      requires Linked() && node in nodes && node !in list && node !in spare
      modifies `freeRanges, `list, `free, nodes`next
      ensures Linked() && list == Put(old(list), 0, node)
      ensures free == Put(old(free), 0, old(Block(node.start, node.size)))
    {
      node.next := freeRanges;
      freeRanges := node;
      list, free := Put(list, 0, node), Put(free, 0, Block(node.start, node.size));
    }

    method LinkAfter(prev: Range, node: Range, ghost i: nat)
      requires Linked() && 0 < i <= |list| && prev == list[i - 1]
      requires node in nodes && node !in list && node !in spare
      modifies `list, `free, nodes`next
      ensures Linked() && list == Put(old(list), i, node)
      ensures free == Put(old(free), i, old(Block(node.start, node.size)))
    {
      node.next := prev.next;
      prev.next := node;
      list, free := Put(list, i, node), Put(free, i, Block(node.start, node.size));
    }

    /** Takes node `i` out of the free list and returns it to the pool. */
    method RemoveRange(prev: Range?, node: Range, ghost i: nat)
      requires Linked() && i < |list| && node == list[i] && prev == if i == 0 then null else list[i - 1]
      modifies `freeRanges, `list, `free, `rangePool, `spare, nodes`next
      ensures Linked() && list == Drop(old(list), i) && |spare| == old(|spare|) + 1
      ensures free == Drop(old(free), i)
    {
      Unlink(prev, node, i);
      GiveNode(node);
    }

    /** vmm_alloc_block, with the byte count taken in 64-bit arithmetic. */
    method AllocBlock(numPages: nat) returns (address: nat, ghost i: nat)
      requires Valid()
      modifies this, nodes
      ensures Valid() && |list| + |spare| == old(|list| + |spare|)
      ensures numPages == 0 ==> address == 0 && free == old(free)
      ensures numPages > 0 ==> BestFit(old(free), ByteCount(numPages), i)
      ensures numPages > 0 && i == old(|list|) ==> address == 0 && free == old(free)
      ensures numPages > 0 && i < old(|list|) ==> Smallest(old(free), ByteCount(numPages), old(free)[i])
      ensures numPages > 0 && i < old(|list|) ==>
        address == old(free)[i].start && free == Cut(old(free), i, ByteCount(numPages))
    {
      i := 0;
      if numPages == 0 {
        return 0, i;
      }
      ghost var f := free;
      var size := numPages * PAGE_SIZE % TWO_64;
      NeatSizes(f);
      var prev, best;
      prev, best, i := FindBestFit(freeRanges, size, list, free);
      if best == null {
        return 0, i;
      }
      WholePageCount(numPages);
      CutNeat(f, i, size);
      BestIsSmallest(f, size, i);
      address := best.start;
      CutFrom(prev, best, size, i);
    }

    /** Cuts `size` bytes off the front of node `i`, or gives the whole node back to the pool. */
    method CutFrom(prev: Range?, best: Range, size: nat, ghost i: nat)
      requires Linked() && i < |list| && best == list[i] && prev == (if i == 0 then null else list[i - 1])
      requires size <= best.size
      modifies `freeRanges, `list, `free, `rangePool, `spare, nodes
      ensures Linked() && |list| + |spare| == old(|list| + |spare|)
      ensures free == Cut(old(free), i, size)
    {
      if best.size == size {
        RemoveRange(prev, best, i);
      } else {
        best.start, best.size := best.start + size, best.size - size;
        free := free[i := Block(best.start, best.size)];
      }
    }

    /**
     vmm_free_block, in 64-bit arithmetic. A node is taken from the pool even when the block merges;
     without one the call fails, and returns with the lock still held. The source does not look whether
     the block is free already or wraps: the list stays neat exactly when `KeepsNeat` says so.
     */
    method FreeBlock(address: u64, numPages: nat) returns (status: Status, ghost i: nat)
      requires Valid()
      modifies this, nodes
      ensures Linked() && |list| + |spare| == old(|list| + |spare|)
      ensures locked <==> status == NoSpace
      ensures status == InvalidParams <==> numPages == 0 || !Paged(address)
      ensures status == NoSpace <==> numPages > 0 && Paged(address) && old(spare) == []
      ensures status != Success ==> free == old(free)
      ensures status == Success ==> InsertionPoint(old(free), address, i)
      ensures status == Success ==> free == Merge(old(free), i, Block(address, ByteCount(numPages)))
      ensures status == Success ==> (Neat(free) <==> KeepsNeat(old(free), i, Block(address, ByteCount(numPages))))
    {
      i := 0;
      if numPages == 0 || address % PAGE_SIZE != 0 {
        return InvalidParams, i;
      }
      status, i := FreeWhole(address, numPages * PAGE_SIZE % TWO_64);
    }

    /** The part of vmm_free_block between taking the lock and returning. */
    method FreeWhole(address: u64, size: u64) returns (status: Status, ghost i: nat)
      requires Valid() && Paged(address) && Paged(size)
      modifies this, nodes
      ensures Linked() && |list| + |spare| == old(|list| + |spare|)
      ensures status == if old(spare) == [] then NoSpace else Success
      ensures locked <==> status == NoSpace
      ensures status == NoSpace ==> free == old(free)
      ensures status == Success ==> InsertionPoint(old(free), address, i)
      ensures status == Success ==> free == Merge(old(free), i, Block(address, size))
      ensures status == Success ==> (Neat(free) <==> KeepsNeat(old(free), i, Block(address, size)))
    {
      ghost var f := free;
      var prev;
      prev, i := Locate(address);
      MergeNeatExactly(f, i, Block(address, size));
      NeatPlaces(f, i, Block(address, size));
      status := FreeAt(prev, address, size, i);
    }

    /** Takes the lock and a node, and puts the block in; a missing node leaves the lock held. */
    method FreeAt(prev: Range?, address: u64, size: u64, ghost i: nat) returns (status: Status)
      requires Linked() && i <= |list| && prev == if i == 0 then null else list[i - 1]
      requires Placed(free, i, Block(address, size))
      modifies this, nodes
      ensures Linked() && |list| + |spare| == old(|list| + |spare|)
      ensures status == if old(spare) == [] then NoSpace else Success
      ensures locked <==> status == NoSpace
      ensures free == if status == NoSpace then old(free) else Merge(old(free), i, Block(address, size))
    {
      locked := true;
      var node := TakeNode();
      if node == null {
        return NoSpace;
      }
      InsertRange(prev, node, address, size, i);
      locked := false;
      status := Success;
    }

    /** Where the block goes. */
    method Locate(address: nat) returns (prev: Range?, ghost i: nat)
      requires Linked() && Neat(free)
      ensures InsertionPoint(free, address, i) && prev == if i == 0 then null else list[i - 1]
    {
      prev, i := FindInsertion(freeRanges, address, list);
      assert i < |free| ==> free[i].start >= address;
      InsertionFound(free, address, i);
    }

    /** Fills in the node, links it in after `prev` and coalesces it with touching neighbours. */
    method InsertRange(prev: Range?, node: Range, address: u64, size: u64, ghost i: nat)
      requires Linked() && i <= |list| && prev == (if i == 0 then null else list[i - 1])
      requires Placed(free, i, Block(address, size))
      requires node in nodes && node !in list && node !in spare
      modifies `freeRanges, `list, `free, `rangePool, `spare, nodes
      ensures Linked() && |list| + |spare| == old(|list| + |spare|) + 1
      ensures free == Merge(old(free), i, Block(address, size))
    {
      ghost var f := free;
      MergeCases(f, i, Block(address, size));
      var touches := prev != null && (prev.start + prev.size) % TWO_64 == address;
      assert touches <==> Grows(f, i, Block(address, size));
      FillNode(node, address, size);
      if touches {
        InsertGrowing(prev, node, i);
      } else {
        InsertAlone(prev, node, i);
      }
    }

    method FillNode(node: Range, address: nat, size: nat)
      requires Linked() && node in nodes && node !in list && node !in spare
      modifies node
      ensures Linked() && node.start == address && node.size == size
    {
      node.start, node.size, node.next := address, size, null;
    }

    method InsertGrowing(prev: Range, node: Range, ghost i: nat)
      requires Linked() && 0 < i <= |list| && prev == list[i - 1]
      requires node in nodes && node !in list && node !in spare
      requires i < |free| ==> Follows(free[i], Block(free[i - 1].start, 0))
      modifies `freeRanges, `list, `free, `rangePool, `spare, nodes
      ensures Linked() && |list| + |spare| == old(|list| + |spare|) + 1
      ensures var f := old(free); free == AbsorbTouching(f[i - 1 := Grown(f[i - 1], old(node.size))], i - 1)
    {
      LinkAndGrow(prev, node, i);
      AbsorbNode(prev, i - 1);
    }

    method InsertAlone(prev: Range?, node: Range, ghost i: nat)
      requires Linked() && i <= |list| && prev == (if i == 0 then null else list[i - 1])
      requires node in nodes && node !in list && node !in spare
      requires i < |free| ==> Follows(free[i], Block(node.start, node.size))
      modifies `freeRanges, `list, `free, `rangePool, `spare, nodes
      ensures Linked() && |list| + |spare| == old(|list| + |spare|) + 1
      ensures free == AbsorbTouching(Put(old(free), i, old(Block(node.start, node.size))), i)
    {
      LinkIn(prev, node, i);
      AbsorbNode(node, i);
    }

    /** The range before takes the new one over; the new node goes back to the pool. */
    method LinkAndGrow(prev: Range, node: Range, ghost i: nat)
      requires Linked() && 0 < i <= |list| && prev == list[i - 1]
      requires node in nodes && node !in list && node !in spare
      modifies `freeRanges, `list, `free, `rangePool, `spare, nodes
      ensures Linked() && |spare| == old(|spare|) + 1 && list == old(list)
      ensures var f := old(free);
        free == f[i - 1 := Grown(f[i - 1], old(node.size))]
    {
      LinkAndRemove(prev, node, i);
      GrowNode(prev, node.size, i - 1);
    }

    method LinkAndRemove(prev: Range, node: Range, ghost i: nat)
      requires Linked() && 0 < i <= |list| && prev == list[i - 1]
      requires node in nodes && node !in list && node !in spare
      modifies `freeRanges, `list, `free, `rangePool, `spare, nodes`next
      ensures Linked() && |spare| == old(|spare|) + 1 && list == old(list) && free == old(free)
    {
      DropPut(list, i, node);
      DropPut(free, i, Block(node.start, node.size));
      LinkIn(prev, node, i);
      RemoveRange(prev, node, i);
    }

    method GrowNode(node: Range, extra: nat, ghost k: nat)
      requires Linked() && k < |list| && node == list[k]
      modifies `free, nodes`size
      ensures Linked() && free == old(free)[k := Grown(old(free)[k], extra)]
    {
      node.size := (node.size + extra) % TWO_64;
      free := free[k := Block(node.start, node.size)];
    }

    /** Coalesces node `k` with the node after it if they touch. */
    method AbsorbNode(node: Range, ghost k: nat)
      requires Linked() && k < |list| && node == list[k] && (k + 1 < |free| ==> Follows(free[k + 1], free[k]))
      modifies `freeRanges, `list, `free, `rangePool, `spare, nodes
      ensures Linked() && |list| + |spare| == old(|list| + |spare|)
      ensures free == AbsorbTouching(old(free), k)
    {
      if k + 1 < |free| { TouchExactly(free[k], free[k + 1]); }
      if node.next != null && (node.start + node.size) % TWO_64 == node.next.start {
        AbsorbIsDrop(free, k);
        TakeOver(node, node.next, k);
      }
    }

    /** Node `k` grows by the size of the node after it, which goes back to the pool. */
    method TakeOver(node: Range, gone: Range, ghost k: nat)
      requires Linked() && k + 1 < |list| && node == list[k] && gone == list[k + 1]
      modifies `freeRanges, `list, `free, `rangePool, `spare, nodes
      ensures Linked() && |list| + |spare| == old(|list| + |spare|)
      ensures var f := old(free); free == Drop(f, k + 1)[k := Grown(f[k], f[k + 1].size)]
    {
      RemoveRange(node, gone, k + 1);
      GrowNode(node, gone.size, k);
    }
  }

  /** The range `c` ends below 2^64 and starts no lower than `b`: 64-bit sums tell whether they touch. */
  predicate Follows(c: Block, b: Block) {
    b.start < TWO_64 && b.size < TWO_64 && b.start <= c.start && c.End() < TWO_64
  }

  /** Between the ranges before and after position `i`, 64-bit sums tell whether `b` touches them. */
  predicate Placed(f: seq<Block>, i: nat, b: Block) {
    && i <= |f| && (i > 0 ==> f[i - 1].End() < TWO_64) && (i < |f| ==> Follows(f[i], b))
    && (0 < i < |f| ==> Follows(f[i], Block(f[i - 1].start, 0)))
  }

  lemma NeatPlaces(f: seq<Block>, i: nat, b: Block)
    requires Neat(f) && InsertionPoint(f, b.start, i) && b.start < TWO_64 && b.size < TWO_64
    ensures Placed(f, i, b)
  {
    assert i > 0 ==> Whole(f[i - 1]);
    assert i < |f| ==> Whole(f[i]);
  }

  lemma TouchExactly(b: Block, c: Block)
    requires Follows(c, b)
    ensures (b.start + b.size) % TWO_64 == c.start <==> b.End() == c.start
    ensures b.End() == c.start ==> b.size + c.size < TWO_64
  {
  }

  lemma AbsorbIsDrop(g: seq<Block>, k: nat)
    requires k + 1 < |g| && g[k].End() == g[k + 1].start && g[k].size + g[k + 1].size < TWO_64
    ensures AbsorbTouching(g, k) == Drop(g, k + 1)[k := Grown(g[k], g[k + 1].size)]
  {
    GrownFits(g[k], g[k + 1].size);
  }

  lemma MergeCases(f: seq<Block>, i: nat, b: Block)
    requires i <= |f|
    ensures Grows(f, i, b) ==> Merge(f, i, b) == AbsorbTouching(f[i - 1 := Grown(f[i - 1], b.size)], i - 1)
    ensures !Grows(f, i, b) ==> Merge(f, i, b) == AbsorbTouching(Put(f, i, b), i)
  {
  }

  datatype Status = Success | InvalidParams | NoSpace

  /** `num_pages * VM_PAGE_SIZE` as a 64-bit product. */
  function ByteCount(numPages: nat): nat {
    numPages * PAGE_SIZE % TWO_64
  }

  lemma NeatSizes(f: seq<Block>)
    requires Neat(f)
    ensures SizesFit(f)
  {
    forall i | 0 <= i < |f| ensures f[i].size < TWO_64 - 1 { assert Whole(f[i]); }
  }

  lemma WholePageCount(numPages: nat)
    ensures Paged(ByteCount(numPages))
  {
  }

  lemma CutNeat(f: seq<Block>, i: nat, size: nat)
    requires Neat(f) && i < |f| && size <= f[i].size && Paged(size)
    ensures Neat(Cut(f, i, size))
  {
    if size > 0 {
      CutRemoves(f, i, size, 0);
    } else {
      assert Whole(f[i]);
      assert Cut(f, i, 0) == f;
    }
  }

  /**
   The 64-bit product decides what a successful allocation reserves: the bytes it takes out of the
   free set are those of `numPages` pages exactly when the product does not wrap.
   */
  lemma ReservesExactly(f: seq<Block>, i: nat, numPages: nat)
    requires numPages > 0 && BestFit(f, ByteCount(numPages), i) && i < |f|
    ensures Total(Cut(f, i, ByteCount(numPages))) == Total(f) - numPages * PAGE_SIZE <==> numPages < 0x10_0000_0000_0000
  {
    CutTotal(f, i, ByteCount(numPages));
    if numPages < 0x10_0000_0000_0000 {
      ModSmall(numPages * PAGE_SIZE, TWO_64);
    }
  }

  /** A request for 2^52 pages succeeds on any neat list and reserves nothing. */
  lemma WrapReservesNothing(f: seq<Block>)
    requires Neat(f) && f != []
    ensures ByteCount(0x10_0000_0000_0000) == 0
    ensures forall i: nat :: BestFit(f, 0, i) ==> i < |f| && Cut(f, i, 0) == f
  {
    forall i: nat | BestFit(f, 0, i) ensures i < |f| && Cut(f, i, 0) == f {
      assert f[0].size >= 0;
      assert Whole(f[i]);
    }
  }

  /** align_up and align_down on 64-bit addresses; rounding up wraps in the last page. */
  function AlignUp(x: u64): nat {
    (x + PAGE_SIZE - 1) % TWO_64 / PAGE_SIZE * PAGE_SIZE
  }

  function AlignDown(x: u64): nat {
    x / PAGE_SIZE * PAGE_SIZE
  }

  /** Rounding up gives the least page address not below `x`, except in the last page, where it wraps to 0. */
  lemma AlignUpLeast(x: u64)
    ensures x <= TWO_64 - 4096 ==> AlignUp(x) % 4096 == 0 && x <= AlignUp(x) < x + 4096
    ensures x > TWO_64 - 4096 ==> AlignUp(x) == 0
  {
  }

  /** Rounding down gives the greatest page address not above `x`. */
  lemma AlignDownGreatest(x: u64)
    ensures AlignDown(x) % 4096 == 0 && AlignDown(x) <= x < AlignDown(x) + 4096
  {
  }

  /** Threads `count` fresh nodes into a pool. */
  method BuildPool(count: nat) returns (head: Range?, ghost ns: seq<Range>)
    ensures |ns| == count && Chain(head, ns)
    ensures forall i :: 0 <= i < |ns| ==> fresh(ns[i])
  {
    head, ns := null, [];
    for i := 0 to count
      invariant |ns| == i && Chain(head, ns)
      invariant forall j :: 0 <= j < |ns| ==> fresh(ns[j])
    {
      var node := new Range();
      node.next := head;
      head, ns := node, [node] + ns;
    }
  }

  /** The end of the managed area as a 64-bit address. */
  function ManagedEnd(start: u64, size: u64): u64 {
    (start + size) % TWO_64
  }

  /** The managed area, cut to whole pages. */
  function Managed(start: u64, size: u64): Block
    requires AlignUp(start) <= AlignDown(ManagedEnd(start, size))
  {
    Block(AlignUp(start), AlignDown(ManagedEnd(start, size)) - AlignUp(start))
  }

  /** An area that does not wrap is managed from its first whole page to the end of its last. */
  lemma ManagedExactly(start: u64, size: u64)
    requires start + size < TWO_64 && AlignUp(start) <= AlignDown(ManagedEnd(start, size))
    ensures var b := Managed(start, size);
      && b.start % 4096 == 0 && b.End() % 4096 == 0 && start + size - 4096 < b.End() <= start + size
      && (start <= TWO_64 - 4096 ==> start <= b.start < start + 4096)
  {
    ModSmall(start + size, TWO_64);
    assert ManagedEnd(start, size) == start + size;
    assert Managed(start, size).End() == AlignDown(start + size);
    AlignUpLeast(start);
    AlignDownGreatest(start + size);
  }

  /**
   vmm_init: page-aligns the managed area, threads the metadata area (24 bytes a node) into the
   pool and makes the whole managed area one free range. The list is neat exactly when the area does
   not start at page 0, be it by itself or by wrapping round.
   */
  method Init(metadataSize: nat, managedStart: u64, managedSize: u64) returns (status: Status, a: RangeAllocator?)
    requires metadataSize == 0 || metadataSize >= 24
    ensures status == InvalidParams <==> (metadataSize == 0 || managedSize == 0
      || AlignDown(ManagedEnd(managedStart, managedSize)) <= AlignUp(managedStart))
    ensures status != InvalidParams ==> status == Success && a != null && fresh(a) && fresh(a.nodes) && a.Linked()
    ensures status != InvalidParams ==> !a.locked && |a.list| + |a.spare| == metadataSize / 24
    ensures status != InvalidParams ==> (a.Valid() <==> AlignUp(managedStart) > 0)
    ensures status != InvalidParams ==> a.free == [Managed(managedStart, managedSize)]
  {
    var start, end := AlignUp(managedStart), AlignDown(ManagedEnd(managedStart, managedSize));
    if metadataSize == 0 || managedSize == 0 || end <= start {
      return InvalidParams, null;
    }
    var head, ns := BuildPool(metadataSize / 24);
    a := new RangeAllocator(head, start, end - start, ns);
    assert a.free[0] == Block(start, end - start);
    AlignedWhole(managedStart, ManagedEnd(managedStart, managedSize));
    status := Success;
  }

  lemma AlignedWhole(x: u64, y: u64)
    requires AlignUp(x) < AlignDown(y)
    ensures Whole(Block(AlignUp(x), AlignDown(y) - AlignUp(x))) <==> AlignUp(x) > 0
  {
  }

  /** With a pool of one node, freeing the block just allocated fails and leaves the lock held. */
  method EmptyPoolKeepsLock() returns (status: Status, a: RangeAllocator?)
    ensures status == NoSpace && a != null && a.locked
  {
    a := ThreePages(24);
    status := TakeAndFree(a);
  }

  /** An allocator for three pages above 0. */
  method ThreePages(metadataSize: nat) returns (a: RangeAllocator)
    requires metadataSize >= 24
    ensures fresh(a) && fresh(a.nodes) && a.Valid() && a.free == [Block(0x1000, 0x3000)]
    ensures |a.list| + |a.spare| == metadataSize / 24
  {
    assert AlignUp(0x1000) == 0x1000 && AlignDown(ManagedEnd(0x1000, 0x3000)) == 0x4000;
    var status, b := Init(metadataSize, 0x1000, 0x3000);
    a := b;
  }

  method TakeAndFree(a: RangeAllocator) returns (status: Status)
    requires a.Valid() && |a.list| + |a.spare| == 1 && a.free == [Block(0x1000, 0x3000)]
    modifies a, a.nodes
    ensures status == NoSpace && a.locked
  {
    var address := TakeOne(a);
    ghost var i;
    status, i := a.FreeBlock(address, 1);
  }

  method TakeOne(a: RangeAllocator) returns (address: u64)
    requires a.Valid() && |a.list| + |a.spare| == 1 && a.free == [Block(0x1000, 0x3000)]
    modifies a, a.nodes
    ensures a.Valid() && a.spare == [] && address == 0x1000
  {
    ghost var f, i := a.free, 0;
    address, i := a.AllocBlock(1);
    OneOfThree(f, i);
    assert |a.list| == |a.free|;
  }

  lemma OneOfThree(f: seq<Block>, i: nat)
    requires f == [Block(0x1000, 0x3000)] && BestFit(f, ByteCount(1), i)
    ensures i == 0 && Cut(f, 0, ByteCount(1)) == [Block(0x2000, 0x2000)]
  {
    assert f[0].size >= ByteCount(1);
  }

  /** A page that is free already is taken back without complaint, and then the list has it twice. */
  method DoubleFree() returns (status: Status, a: RangeAllocator?)
    ensures status == Success && a != null && !Neat(a.free)
  {
    a := ThreePages(48);
    status := FreeAgain(a);
  }

  method FreeAgain(a: RangeAllocator) returns (status: Status)
    requires a.Valid() && |a.list| + |a.spare| == 2 && a.free == [Block(0x1000, 0x3000)]
    modifies a, a.nodes
    ensures status == Success && !Neat(a.free)
  {
    ghost var f, i := a.free, 0;
    assert |a.list| == 1;
    status, i := a.FreeBlock(0x1000, 1);
    TwiceFree(f, i);
  }

  lemma TwiceFree(f: seq<Block>, i: nat)
    requires f == [Block(0x1000, 0x3000)] && InsertionPoint(f, 0x1000, i)
    ensures i == 0 && !KeepsNeat(f, i, Block(0x1000, ByteCount(1)))
  {
    assert f[0].start == 0x1000;
  }
}
