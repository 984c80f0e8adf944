/**
 The reference-count map on its block list. A bucket is found by walking `idx / 512` blocks from the
 head of the list, and holds the head of a chain of entries linked through `next`. A rebuild relinks
 the very same entries into a new block list while it walks the old chains.
 */
module RefCountHeap {
  import opened Machine
  import opened RefCounts

  const PTRS_PER_BLOCK: nat := 512
  const INITIAL_SIZE: nat := 1024

  /** The count of one address; the address is fixed when the entry is made. */
  class Entry {
    const addr: u64
    var count: nat
    var next: Entry?

    constructor (addr: u64)
      ensures this.addr == addr && count == 1 && next == null
    {
      this.addr, count, next := addr, 1, null;
    }
  }

  /** A list node and the 4 KiB block of bucket heads it stands for. */
  class BlockNode {
    const block: array<Entry?>
    var next: BlockNode?

    constructor (next: BlockNode?)
      ensures this.next == next && fresh(block) && block.Length == PTRS_PER_BLOCK
      ensures forall o :: 0 <= o < PTRS_PER_BLOCK ==> block[o] == null
    {
      block := new Entry?[PTRS_PER_BLOCK](_ => null);
      this.next := next;
    }
  }

  // ---------------------------------------------------------------------------------------
  // The bucket array
  // ---------------------------------------------------------------------------------------

  ghost function NodeAt(ns: seq<BlockNode>, k: nat): BlockNode? {
    if k < |ns| then ns[k] else null
  }

  /** The nodes `ns`, in list order, with blocks of their own. */
  ghost predicate Listed(head: BlockNode?, ns: seq<BlockNode>)
    reads ns
  {
    && head == NodeAt(ns, 0)
    && (forall k {:trigger ns[k].next} :: 0 <= k < |ns| ==> ns[k].next == NodeAt(ns, k + 1))
    && (forall k :: 0 <= k < |ns| ==> ns[k].block.Length == PTRS_PER_BLOCK)
    && forall j, k :: 0 <= j < k < |ns| ==> ns[j].block != ns[k].block
  }

  ghost function BlocksOf(ns: seq<BlockNode>): set<array<Entry?>> {
    set k | 0 <= k < |ns| :: ns[k].block
  }

  /** `hs` is what the blocks hold: bucket 512 * k + o is slot `o` of the block of node `k`. */
  ghost predicate Holds(ns: seq<BlockNode>, hs: seq<Entry?>)
    reads BlocksOf(ns)
  {
    && |hs| == PTRS_PER_BLOCK * |ns| && (forall k :: 0 <= k < |ns| ==> ns[k].block.Length == PTRS_PER_BLOCK)
    && forall k, o :: 0 <= k < |ns| && 0 <= o < 512 ==> ns[k].block[o] == hs[512 * k + o]
  }

  ghost predicate AllEmpty(ns: seq<BlockNode>)
    reads BlocksOf(ns)
  {
    forall k, o :: 0 <= k < |ns| && 0 <= o < ns[k].block.Length ==> ns[k].block[o] == null
  }

  /** Bucket index to block and offset is one to one. */
  lemma SamePlace(k: nat, o: nat, idx: nat)
    requires o < 512
    ensures 512 * k + o == idx <==> k == idx / 512 && o == idx % 512
  {
  }

  /** add_block: a node with an empty block at the head of the list. */
  method AddBlock(head: BlockNode?, ghost ns: seq<BlockNode>) returns (node: BlockNode, ghost ns': seq<BlockNode>)
    requires Listed(head, ns) && AllEmpty(ns)
    ensures fresh(node) && fresh(node.block) && ns' == [node] + ns && Listed(node, ns') && AllEmpty(ns')
  {
    node := new BlockNode(head);
    ns' := [node] + ns;
  }

  /**
   allocate_bucket_array for a whole number of blocks: newest block first, every bucket empty. With
   fewer than that many blocks to be had, everything is given back and the result is null.
   */
  method AllocateBuckets(size: nat, available: nat) returns (head: BlockNode?, ghost ns: seq<BlockNode>)
    requires size > 0 && size % 512 == 0
    ensures head != null <==> size / 512 <= available
    ensures head != null ==> Listed(head, ns) && AllEmpty(ns) && PTRS_PER_BLOCK * |ns| == size
    ensures forall k :: 0 <= k < |ns| ==> fresh(ns[k]) && fresh(ns[k].block)
  {
    head, ns := null, [];
    if available == 0 {
      return;
    }
    head, ns := AddBlock(null, []);
    var remaining, left := size - 512, available - 1;
    while remaining > 0
      invariant remaining >= 0 && remaining % 512 == 0 && remaining + 512 * |ns| == size
      invariant left >= 0 && left + |ns| == available
      invariant head != null && Listed(head, ns) && AllEmpty(ns)
      invariant forall k :: 0 <= k < |ns| ==> fresh(ns[k]) && fresh(ns[k].block)
    {
      if left == 0 {
        return null, ns;
      }
      head, ns := AddBlock(head, ns);
      remaining, left := remaining - 512, left - 1;
    }
  }

  // ---------------------------------------------------------------------------------------
  // Chains of entries
  // ---------------------------------------------------------------------------------------

  ghost function EntryAt(es: seq<Entry>, k: nat): Entry? {
    if k < |es| then es[k] else null
  }

  /** From position `j` on, the entries `es` are linked in order and hold the cells of `c`. */
  ghost predicate Suffix(es: seq<Entry>, c: Chain, j: nat)
    reads es`next, es`count
  {
    && |es| == |c| && (forall k :: 0 <= k < |es| ==> c[k].addr == es[k].addr)
    && (forall k {:trigger es[k].next} :: j <= k < |es| ==> es[k].next == EntryAt(es, k + 1))
    && forall k :: j <= k < |es| ==> c[k].count == es[k].count
  }

  /** The entries `es` are linked from `head` and hold the cells of `c`. */
  ghost predicate Linked(head: Entry?, es: seq<Entry>, c: Chain)
    reads es`next, es`count
  {
    head == EntryAt(es, 0) && Suffix(es, c, 0)
  }

  ghost predicate Inside(es: seq<Entry>, repr: set<Entry>) {
    forall k :: 0 <= k < |es| ==> es[k] in repr
  }

  lemma DropFirst(c: Chain)
    requires c != []
    ensures c[..0] + c[0 + 1..] == c[1..]
  {
  }

  lemma TailLinked(head: Entry?, es: seq<Entry>, c: Chain)
    requires Linked(head, es, c) && es != []
    ensures Linked(es[0].next, es[1..], c[1..])
  {
  }

  /** The link of `prev` skips the entry after it. */
  method SkipEntry(prev: Entry, entry: Entry, ghost head: Entry?, ghost es: seq<Entry>, ghost c: Chain, ghost k: nat)
    requires Linked(head, es, c) && 0 < k < |es| && entry == es[k] && prev == es[k - 1]
    requires forall l :: 0 <= l < |es| && l != k - 1 ==> es[l] != prev
    modifies prev`next
    ensures Linked(head, es[..k] + es[k + 1..], c[..k] + c[k + 1..])
  {
    prev.next := entry.next;
  }

  /** From chain `i` on, the buckets' chains are linked as the table says; `repr` has all entries. */
  ghost predicate LinkedFrom(heads: seq<Entry?>, chains: seq<seq<Entry>>, b: seq<Chain>, repr: set<Entry>, i: nat)
    reads repr`next, repr`count
  {
    && |chains| == |b| == |heads| && (forall m :: 0 <= m < |chains| ==> Inside(chains[m], repr))
    && forall m :: i <= m < |heads| ==> Linked(heads[m], chains[m], b[m])
  }

  /** Different cells of a sound table have different addresses. */
  lemma OtherCell(b: seq<Chain>, i: nat, k: nat, j: nat, l: nat)
    requires Table(b) && i < |b| && k < |b[i]| && j < |b| && l < |b[j]| && (i != j || k != l)
    ensures b[i][k].addr != b[j][l].addr
  {
    assert ChainSound(b[i], i, |b|) && ChainSound(b[j], j, |b|);
  }

  /** An address without a count has no cell. */
  lemma NoCell(b: seq<Chain>, addr: u64, i: nat, k: nat)
    requires Table(b) && CountOf(b, addr) == 0 && i < |b| && k < |b[i]|
    ensures b[i][k].addr != addr
  {
    assert ChainSound(b[i], i, |b|);
  }

  /** The bucket array of a map: its block list and its size. */
  class Buckets {
    var blockList: BlockNode?
    var size: nat
    ghost var nodes: seq<BlockNode>
    ghost var heads: seq<Entry?>
    ghost var chains: seq<seq<Entry>>
    ghost var table: seq<Chain>
    ghost var repr: set<Entry>

    /** The blocks hold the bucket heads. */
    ghost predicate Stored()
      reads `blockList, `size, `nodes, `heads, nodes, BlocksOf(nodes)
    {
      Listed(blockList, nodes) && Holds(nodes, heads) && size == |heads| > 0
    }

    /** Chains after chain `i`, and chain `i` from entry `j` on, are linked as the table says. */
    ghost predicate Left(i: nat, j: nat)
      reads `heads, `chains, `table, `repr, repr`next, repr`count
    {
      && |chains| == |table| == |heads| && (forall m :: 0 <= m < |chains| ==> Inside(chains[m], repr))
      && (forall m :: i < m < |heads| ==> Linked(heads[m], chains[m], table[m]))
      && (i < |heads| ==> Suffix(chains[i], table[i], j))
    }

    /** Chains from chain `i` on are linked as the table says. */
    ghost predicate Waiting(i: nat)
      reads `heads, `chains, `table, `repr, repr`next, repr`count
    {
      LinkedFrom(heads, chains, table, repr, i)
    }

    ghost predicate Chained()
      reads `heads, `chains, `table, `repr, repr`next, repr`count
    {
      Waiting(0)
    }

    /** Fresh, empty buckets. */
    constructor (head: BlockNode, size: nat, ghost ns: seq<BlockNode>)
      requires Listed(head, ns) && AllEmpty(ns) && size == PTRS_PER_BLOCK * |ns| > 0
      ensures Stored() && Chained() && nodes == ns && this.size == size && repr == {}
      ensures forall i :: 0 <= i < size ==> table[i] == []
    {
      blockList, this.size := head, size;
      nodes, heads, chains, table, repr := ns, seq(size, _ => null), seq(size, _ => []), seq(size, _ => []), {};
    }

    /** get_bucket_ptr: the block and the offset of a bucket. */
    method Locate(idx: nat) returns (node: BlockNode, offset: nat)
      requires Stored() && idx < size
      ensures idx / 512 < |nodes| && node == nodes[idx / 512] && offset == idx % 512 && offset < node.block.Length
    {
      var blockIdx := idx / PTRS_PER_BLOCK;
      offset := idx % PTRS_PER_BLOCK;
      var current := blockList;
      var i := 0;
      while i < blockIdx && current != null
        invariant i <= blockIdx < |nodes| && current == NodeAt(nodes, i)
      {
        current := current.next;
        i := i + 1;
      }
      node := current;
    }

    method Read(idx: nat) returns (e: Entry?)
      requires Stored() && idx < size
      ensures e == heads[idx]
    {
      var node, offset := Locate(idx);
      e := node.block[offset];
    }

    /** Stores a chain head; no other bucket changes. */
    method Write(idx: nat, e: Entry?)
      requires Stored() && idx < size
      modifies `heads, BlocksOf(nodes)
      ensures Stored() && heads == old(heads)[idx := e]
    {
      var node, offset := Locate(idx);
      node.block[offset] := e;
      heads := heads[idx := e];
      forall k, o | 0 <= k < |nodes| && 0 <= o < 512 ensures nodes[k].block[o] == heads[512 * k + o] {
        SamePlace(k, o, idx);
      }
    }

    // -------------------------------------------------------------------------------------
    // Linking and unlinking
    // -------------------------------------------------------------------------------------

    /** An entry whose address has no count is on no chain. */
    lemma Unlinked(e: Entry)
      requires Chained() && Table(table) && CountOf(table, e.addr) == 0
      ensures forall m :: 0 <= m < |chains| ==> e !in chains[m]
    {
      forall m, k | 0 <= m < |chains| && 0 <= k < |chains[m]| ensures chains[m][k] != e {
        assert Linked(heads[m], chains[m], table[m]);
        NoCell(table, e.addr, m, k);
      }
    }

    /** Puts an entry at the head of its chain. */
    method Link(e: Entry)
      requires Stored() && Chained() && Table(table) && CountOf(table, e.addr) == 0
      modifies `heads, `chains, `table, `repr, BlocksOf(nodes), e`next
      ensures Stored() && Chained() && table == PushAt(old(table), Cell(e.addr, e.count)) && repr == old(repr) + {e}
    {
      Unlinked(e);
      LinkApart(e);
    }

    method LinkApart(e: Entry)
      requires Stored() && Chained() && |table| > 0 && forall m :: 0 <= m < |chains| ==> e !in chains[m]
      modifies `heads, `chains, `table, `repr, BlocksOf(nodes), e`next
      ensures Stored() && Chained() && table == PushAt(old(table), Cell(e.addr, e.count)) && repr == old(repr) + {e}
    {
      var idx := Spread(e.addr) % size;
      var head := Read(idx);
      assert Linked(heads[idx], chains[idx], table[idx]);
      e.next := head;
      Write(idx, e);
      LinkGhost(e, idx);
    }

    /** The bookkeeping of `Link`. */
    ghost method LinkGhost(e: Entry, idx: nat)
      requires |chains| == |table| == |heads| && idx < |heads| && idx == Bucket(e.addr, |table|)
      requires forall m :: 0 <= m < |chains| ==> Inside(chains[m], repr)
      requires forall m :: 0 <= m < |heads| && m != idx ==> Linked(heads[m], chains[m], table[m])
      requires heads[idx] == e && Linked(e.next, chains[idx], table[idx]) && e !in chains[idx]
      modifies `chains, `table, `repr
      ensures Chained() && table == PushAt(old(table), Cell(e.addr, e.count)) && repr == old(repr) + {e}
    {
      repr := repr + {e};
      SetChain(idx, [e] + chains[idx], [Cell(e.addr, e.count)] + table[idx]);
    }

    /** One chain has changed, and is linked again. */
    ghost method SetChain(idx: nat, es: seq<Entry>, c: Chain)
      requires |chains| == |table| == |heads| && idx < |heads|
      requires forall m :: 0 <= m < |chains| ==> Inside(chains[m], repr)
      requires forall m :: 0 <= m < |heads| && m != idx ==> Linked(heads[m], chains[m], table[m])
      requires Linked(heads[idx], es, c) && Inside(es, repr)
      modifies `chains, `table
      ensures Chained() && table == old(table)[idx := c]
    {
      chains := chains[idx := es];
      table := table[idx := c];
    }

    // -------------------------------------------------------------------------------------
    // Rebuilding
    // -------------------------------------------------------------------------------------

    /** The entry about to be moved is none of those that stay behind. */
    lemma MovedIsApart(i: nat, j: nat)
      requires Left(i, j) && Table(table) && i < |heads| && j < |chains[i]|
      ensures forall k :: j < k < |chains[i]| ==> chains[i][k] != chains[i][j]
      ensures forall m :: i < m < |heads| ==> chains[i][j] !in chains[m]
    {
      var e := chains[i][j];
      forall k | j < k < |chains[i]| ensures chains[i][k] != e {
        OtherCell(table, i, k, i, j);
      }
      forall m, k | i < m < |heads| && 0 <= k < |chains[m]| ensures chains[m][k] != e {
        assert Linked(heads[m], chains[m], table[m]);
        OtherCell(table, m, k, i, j);
      }
    }

    /** Relinks one entry of `from` into this map; its `next` is read before it is overwritten. */
    method AdoptEntry(from: Buckets, e: Entry, ghost i: nat, ghost j: nat) returns (next: Entry?)
      requires Stored() && Chained() && this != from && i < |from.heads| && from.Left(i, j)
      requires Moving(from.table, i, j, table) && j < |from.chains[i]| && e == from.chains[i][j]
      modifies `heads, `chains, `table, `repr, BlocksOf(nodes), e`next
      ensures Stored() && Chained() && Moving(from.table, i, j + 1, table) && from.Left(i, j + 1)
      ensures repr == old(repr) + {e} && next == EntryAt(from.chains[i], j + 1)
    {
      MoveOne(from.table, i, j, table);
      from.MovedIsApart(i, j);
      PendingCell(from.table, i, j, table);
      next := e.next;
      Link(e);
    }

    /** Walks chain `i` of `from` and relinks its entries. */
    method AdoptChain(from: Buckets, first: Entry?, ghost i: nat)
      requires Stored() && Chained() && this != from && i < |from.heads| && Moving(from.table, i, 0, table)
      requires from.Left(i, 0) && first == EntryAt(from.chains[i], 0) && repr <= from.repr
      modifies `heads, `chains, `table, `repr, BlocksOf(nodes), from.repr`next
      ensures Stored() && Chained() && Moving(from.table, i + 1, 0, table)
      ensures from.Waiting(i + 1) && repr <= from.repr
    {
      var entry := first;
      ghost var j: nat := 0;
      while entry != null
        invariant j <= |from.chains[i]| && entry == EntryAt(from.chains[i], j)
        invariant Stored() && Chained() && repr <= from.repr
        invariant from.Left(i, j) && Moving(from.table, i, j, table)
        decreases |from.chains[i]| - j
      {
        entry := AdoptEntry(from, entry, i, j);
        j := j + 1;
      }
      MoveNext(from.table, i, table);
    }

    /** The rehash loop of resize_map. */
    method AdoptAll(from: Buckets)
      requires Stored() && Chained() && from.Stored() && from.Chained() && this != from && repr == {}
      requires BlocksOf(nodes) !! BlocksOf(from.nodes) && Moving(from.table, 0, 0, table)
      modifies `heads, `chains, `table, `repr, BlocksOf(nodes), from.repr`next
      ensures Stored() && Chained() && Moving(from.table, |from.table|, 0, table) && repr <= from.repr
    {
      for i := 0 to from.size
        invariant Stored() && Chained() && from.Stored() && from.Waiting(i)
        invariant Moving(from.table, i, 0, table) && repr <= from.repr
      {
        AdoptNext(from, i);
      }
    }

    method AdoptNext(from: Buckets, i: nat)
      requires Stored() && Chained() && from.Stored() && from.Waiting(i) && this != from
      requires BlocksOf(nodes) !! BlocksOf(from.nodes) && i < from.size
      requires Moving(from.table, i, 0, table) && repr <= from.repr
      modifies `heads, `chains, `table, `repr, BlocksOf(nodes), from.repr`next
      ensures Stored() && Chained() && from.Stored() && from.Waiting(i + 1)
      ensures Moving(from.table, i + 1, 0, table) && repr <= from.repr
    {
      var first := from.Read(i);
      AdoptChain(from, first, i);
    }

    /** The buckets that resize_map builds out of the same entries, or null if there are too few blocks. */
    method Rebuild(available: nat) returns (bigger: Buckets?)
      requires Stored() && Chained() && Table(table)
      modifies repr`next
      ensures bigger != null <==> 2 * size / 512 <= available
      ensures bigger == null ==> Stored() && Chained()
      ensures bigger != null ==> fresh(bigger) && bigger.Stored() && bigger.Chained() && bigger.repr <= repr
      ensures bigger != null ==> fresh(BlocksOf(bigger.nodes)) && bigger.size == 2 * size
      ensures bigger != null ==> Moving(table, |table|, 0, bigger.table)
    {
      bigger := NewBuckets(size * 2, available);
      if bigger == null {
        return;
      }
      MoveStarts(table, bigger.table);
      bigger.AdoptAll(this);
    }

    // -------------------------------------------------------------------------------------
    // Counting
    // -------------------------------------------------------------------------------------

    /** The walk along the chain of `addr`: the entry, if there is one, and the one before it. */
    method Lookup(addr: u64) returns (idx: nat, prev: Entry?, entry: Entry?, ghost k: nat)
      requires Stored() && Chained()
      ensures idx == Bucket(addr, |table|) && k == Find(table[idx], addr) && entry == EntryAt(chains[idx], k)
      ensures prev == if k == 0 then null else EntryAt(chains[idx], k - 1)
      ensures |chains[idx]| == |table[idx]| && (entry != null <==> HasEntry(table, addr))
    {
      idx := Spread(addr) % size;
      entry := Read(idx);
      prev, k := null, 0;
      assert Linked(heads[idx], chains[idx], table[idx]);
      while entry != null && entry.addr != addr
        invariant k <= |chains[idx]| && entry == EntryAt(chains[idx], k) && k <= Find(table[idx], addr)
        invariant prev == if k == 0 then null else EntryAt(chains[idx], k - 1)
        decreases |chains[idx]| - k
      {
        prev, entry := entry, entry.next;
        k := k + 1;
      }
    }

    /** An entry is on its chain once and on no other. */
    lemma OnlyHere(i: nat, k: nat)
      requires Chained() && Table(table) && i < |chains| && k < |chains[i]|
      ensures forall l :: 0 <= l < |chains[i]| && l != k ==> chains[i][l] != chains[i][k]
      ensures forall m :: 0 <= m < |chains| && m != i ==> chains[i][k] !in chains[m]
    {
      assert Linked(heads[i], chains[i], table[i]);
      forall m, l | 0 <= m < |chains| && 0 <= l < |chains[m]| && (m != i || l != k)
        ensures chains[m][l] != chains[i][k]
      {
        assert Linked(heads[m], chains[m], table[m]);
        OtherCell(table, m, l, i, k);
      }
    }

    /** Stores another count in an entry. */
    method SetCount(addr: u64, entry: Entry, count: nat, ghost idx: nat, ghost k: nat)
      requires Chained() && Table(table) && idx == Bucket(addr, |table|) && HasEntry(table, addr)
      requires k == Find(table[idx], addr) && k < |chains[idx]| && entry == chains[idx][k]
      modifies `table, entry`count
      ensures Chained() && table == SetAt(old(table), addr, count)
    {
      OnlyHere(idx, k);
      StoreCount(addr, entry, count, idx, k);
    }

    method StoreCount(addr: u64, entry: Entry, count: nat, ghost idx: nat, ghost k: nat)
      requires Chained() && |table| > 0 && idx == Bucket(addr, |table|) && HasEntry(table, addr)
      requires k == Find(table[idx], addr) && k < |chains[idx]| && entry == chains[idx][k]
      requires forall l :: 0 <= l < |chains[idx]| && l != k ==> chains[idx][l] != entry
      requires forall m :: 0 <= m < |chains| && m != idx ==> entry !in chains[m]
      modifies `table, entry`count
      ensures Chained() && table == SetAt(old(table), addr, count)
    {
      assert Linked(heads[idx], chains[idx], table[idx]);
      entry.count := count;
      table := SetAt(table, addr, count);
      assert Linked(heads[idx], chains[idx], table[idx]);
    }

    /** Takes an entry out of its chain. */
    method Unlink(addr: u64, idx: nat, prev: Entry?, entry: Entry, ghost k: nat)
      requires Stored() && Chained() && Table(table) && idx == Bucket(addr, |table|) && HasEntry(table, addr)
      requires k == Find(table[idx], addr) && k < |chains[idx]| && entry == chains[idx][k]
      requires prev == if k == 0 then null else chains[idx][k - 1]
      modifies `heads, `chains, `table, BlocksOf(nodes), repr`next
      ensures Stored() && Chained() && table == DropAt(old(table), addr)
    {
      if prev != null {
        OnlyHere(idx, k - 1);
        Bypass(prev, entry, idx, k);
      } else {
        DropFirst(table[idx]);
        DropHead(idx, entry);
      }
    }

    /** The entry before takes over the link. */
    method Bypass(prev: Entry, entry: Entry, ghost idx: nat, ghost k: nat)
      requires Chained() && idx < |heads| && 0 < k < |chains[idx]|
      requires entry == chains[idx][k] && prev == chains[idx][k - 1]
      requires forall l :: 0 <= l < |chains[idx]| && l != k - 1 ==> chains[idx][l] != prev
      requires forall m :: 0 <= m < |chains| && m != idx ==> prev !in chains[m]
      modifies `chains, `table, prev`next
      ensures Chained() && |old(table[idx])| == |old(chains[idx])|
      ensures table == old(table)[idx := old(table)[idx][..k] + old(table)[idx][k + 1..]]
    {
      assert Linked(heads[idx], chains[idx], table[idx]);
      SkipEntry(prev, entry, heads[idx], chains[idx], table[idx], k);
      SetChain(idx, chains[idx][..k] + chains[idx][k + 1..], table[idx][..k] + table[idx][k + 1..]);
    }

    /** The bucket takes over the link. */
    method DropHead(idx: nat, entry: Entry)
      requires Stored() && Chained() && idx < |heads| && |chains[idx]| > 0 && entry == chains[idx][0]
      modifies `heads, `chains, `table, BlocksOf(nodes)
      ensures Stored() && Chained() && |old(table[idx])| > 0 && table == old(table)[idx := old(table)[idx][1..]]
    {
      assert Linked(heads[idx], chains[idx], table[idx]);
      TailLinked(heads[idx], chains[idx], table[idx]);
      Write(idx, entry.next);
      SetChain(idx, chains[idx][1..], table[idx][1..]);
    }
  }

  /** Empty buckets on fresh blocks, or null if there are too few blocks. */
  method NewBuckets(size: nat, available: nat) returns (b: Buckets?)
    requires size > 0 && size % 512 == 0
    ensures b != null <==> size / 512 <= available
    ensures b != null ==> fresh(b) && fresh(BlocksOf(b.nodes)) && b.Stored() && b.Chained()
    ensures b != null ==> b.size == size == |b.table| && b.repr == {} && forall i :: 0 <= i < size ==> b.table[i] == []
  {
    var head, ns := AllocateBuckets(size, available);
    if head == null {
      return null;
    }
    b := new Buckets(head, size, ns);
  }

  class RefCountMap {
    var buckets: Buckets
    var numEntries: nat

    ghost predicate Valid()
      reads this, buckets, buckets.nodes, BlocksOf(buckets.nodes), buckets.repr`next, buckets.repr`count
    {
      buckets.Stored() && buckets.Chained() && Table(buckets.table) && numEntries == Cells(buckets.table)
    }

    /** The chains the map stands for. */
    ghost function Value(): seq<Chain>
      reads this, buckets
    {
      buckets.table
    }

    constructor (buckets: Buckets)
      requires buckets.Stored() && buckets.Chained() && forall i :: 0 <= i < |buckets.table| ==> buckets.table[i] == []
      ensures Valid() && this.buckets == buckets
    {
      this.buckets, numEntries := buckets, 0;
      NoCells(buckets.table);
    }

    /** Nothing but old and fresh objects: the buckets, their blocks and their entries. */
    twostate predicate Grown()
      reads this, buckets
    {
      && (buckets == old(buckets) || fresh(buckets))
      && fresh(BlocksOf(buckets.nodes) - old(BlocksOf(buckets.nodes))) && fresh(buckets.repr - old(buckets.repr))
    }

    /** resize_map: relinks all entries into twice the blocks; the counts do not change. */
    method Resize(available: nat) returns (ok: bool)
      requires Valid()
      modifies `buckets, buckets.repr`next
      ensures Valid() && numEntries == old(numEntries) && buckets.repr <= old(buckets.repr)
      ensures ok == (2 * |old(Value())| / 512 <= available)
      ensures !ok ==> buckets == old(buckets)
      ensures ok ==> |Value()| == 2 * |old(Value())| && SameCounts(old(Value()), Value())
      ensures ok ==> fresh(buckets) && fresh(BlocksOf(buckets.nodes))
    {
      ghost var b := buckets.table;
      var bigger := buckets.Rebuild(available);
      if bigger == null {
        return false;
      }
      MoveEnds(b, bigger.table);
      buckets := bigger;
      ok := true;
    }

    method SetEntry(addr: u64, entry: Entry, count: nat, ghost idx: nat, ghost k: nat)
      requires Valid() && idx == Bucket(addr, |Value()|) && k == Find(Value()[idx], addr) && k < |buckets.chains[idx]|
      requires entry == buckets.chains[idx][k] && HasEntry(Value(), addr) && count < TWO_32
      modifies buckets`table, entry`count
      ensures buckets.Stored() && buckets.Chained() && (Table(Value()) <==> count > 0) && numEntries == Cells(Value())
      ensures Value() == SetAt(old(Value()), addr, count)
      ensures count > 0 ==> Changed(old(Value()), addr, count, Value())
    {
      Recount(buckets.table, addr, count);
      buckets.SetCount(addr, entry, count, idx, k);
    }

    /** Unlinks an entry from its chain. */
    method RemoveEntry(addr: u64, idx: nat, prev: Entry?, entry: Entry, ghost k: nat)
      requires Valid() && idx == Bucket(addr, |Value()|) && k == Find(Value()[idx], addr) && k < |buckets.chains[idx]|
      requires entry == buckets.chains[idx][k] && prev == if k == 0 then null else buckets.chains[idx][k - 1]
      requires HasEntry(Value(), addr)
      modifies `numEntries, buckets`heads, buckets`chains, buckets`table, BlocksOf(buckets.nodes), buckets.repr`next
      ensures Valid() && Changed(old(Value()), addr, 0, Value())
    {
      Forget(buckets.table, addr);
      buckets.Unlink(addr, idx, prev, entry, k);
      numEntries := numEntries - 1;
    }

    method AddEntry(e: Entry)
      requires Valid() && CountOf(Value(), e.addr) == 0 && 0 < e.count < TWO_32
      modifies `numEntries, buckets`heads, buckets`chains, buckets`table, buckets`repr, BlocksOf(buckets.nodes), e`next
      ensures Valid() && Changed(old(Value()), e.addr, e.count, Value()) && buckets.repr == old(buckets.repr) + {e}
      ensures |Value()| == |old(Value())|
    {
      PushInto(buckets.table, Cell(e.addr, e.count));
      buckets.Link(e);
      numEntries := numEntries + 1;
    }

    /** refcount_map_increment; `available` and `memory` say what the block and slab allocators can give. */
    method Increment(addr: u64, available: nat, memory: bool) returns (r: nat)
      requires Valid()
      modifies this, buckets, BlocksOf(buckets.nodes), buckets.repr
      ensures buckets.Stored() && buckets.Chained() && Grown()
      ensures Raised(old(Value()), addr, r, Value())
      ensures Table(Value()) ==> Valid()
      ensures CountOf(old(Value()), addr) == 0 ==>
        && (r == 0 <==> !memory || MustFail(old(numEntries), |old(Value())|, available))
        && |Value()| == SizeAfter(old(numEntries), |old(Value())|, available)
      ensures CountOf(old(Value()), addr) > 0 ==> |Value()| == |old(Value())|
    {
      EntryExactly(buckets.table, addr);
      var idx, prev, entry;
      ghost var k;
      idx, prev, entry, k := buckets.Lookup(addr);
      if entry != null {
        r := CountUp(addr, entry, idx, k);
      } else {
        r := Add(addr, available, memory);
      }
    }

    method CountUp(addr: u64, entry: Entry, ghost idx: nat, ghost k: nat) returns (r: nat)
      requires Valid() && idx == Bucket(addr, |Value()|) && k == Find(Value()[idx], addr) && k < |buckets.chains[idx]|
      requires entry == buckets.chains[idx][k] && HasEntry(Value(), addr)
      modifies buckets`table, entry`count
      ensures buckets.Stored() && buckets.Chained() && Grown() && numEntries == Cells(Value())
      ensures 0 < CountOf(old(Value()), addr) < TWO_32 && Raised(old(Value()), addr, r, Value())
      ensures |Value()| == |old(Value())|
      ensures r == 0 ==> !Table(Value())
    {
      EntryExactly(buckets.table, addr);
      assert Linked(buckets.heads[idx], buckets.chains[idx], buckets.table[idx]);
      r := Inc32(entry.count);
      SetEntry(addr, entry, r, idx, k);
    }

    /** The part of refcount_map_increment for an address without an entry. */
    method Add(addr: u64, available: nat, memory: bool) returns (r: nat)
      requires Valid() && CountOf(Value(), addr) == 0
      modifies this, buckets, BlocksOf(buckets.nodes), buckets.repr
      ensures Valid() && Grown() && Raised(old(Value()), addr, r, Value())
      ensures r == 0 <==> !memory || MustFail(old(numEntries), |old(Value())|, available)
      ensures |Value()| == SizeAfter(old(numEntries), |old(Value())|, available)
    {
      ghost var b := buckets.table;
      var ok := MakeRoom(available);
      if !ok || !memory {
        NotCounted(b, addr, buckets.table);
        return 0;
      }
      NewEntry(addr, b);
      r := 1;
    }

    /** The load test. */
    method MakeRoom(available: nat) returns (ok: bool)
      requires Valid()
      modifies `buckets, buckets.repr`next
      ensures Valid() && Grown() && SameCounts(old(Value()), Value())
      ensures ok <==> !MustFail(old(numEntries), |old(Value())|, available)
      ensures |Value()| == SizeAfter(old(numEntries), |old(Value())|, available)
    {
      ok := true;
      if 4 * numEntries >= 3 * buckets.size {
        ok := Resize(available);
      }
    }

    method NewEntry(addr: u64, ghost b: seq<Chain>)
      requires Valid() && SameCounts(b, Value()) && CountOf(b, addr) == 0
      modifies `numEntries, buckets`heads, buckets`chains, buckets`table, buckets`repr, BlocksOf(buckets.nodes)
      ensures Valid() && fresh(buckets.repr - old(buckets.repr)) && Raised(b, addr, 1, Value())
      ensures |Value()| == |old(Value())|
    {
      ghost var roomy := buckets.table;
      var e := new Entry(addr);
      AddEntry(e);
      FirstCount(b, addr, roomy, buckets.table);
    }

    /** Whether the call would raise a count of 2^32 - 1. */
    method AtLimit(op: Op) returns (wraps: bool)
      requires Valid()
      ensures |Value()| > 0 && wraps == Wraps(Value(), op)
    {
      EntryExactly(buckets.table, op.addr);
      var idx, prev, entry;
      ghost var k;
      idx, prev, entry, k := buckets.Lookup(op.addr);
      assert Linked(buckets.heads[idx], buckets.chains[idx], buckets.table[idx]);
      wraps := op.Up? && entry != null && entry.count + 1 == TWO_32;
    }

    /** refcount_map_decrement: answers the count before the call. */
    method Decrement(addr: u64) returns (r: nat)
      requires Valid()
      modifies `numEntries, buckets`heads, buckets`chains, buckets`table, BlocksOf(buckets.nodes), buckets.repr
      ensures Valid() && r == CountOf(old(Value()), addr)
      ensures Changed(old(Value()), addr, if r == 0 then 0 else r - 1, Value())
    {
      EntryExactly(buckets.table, addr);
      var idx, prev, entry;
      ghost var k;
      idx, prev, entry, k := buckets.Lookup(addr);
      if entry == null {
        return 0;
      }
      r := CountDown(addr, idx, prev, entry, k);
    }

    method CountDown(addr: u64, idx: nat, prev: Entry?, entry: Entry, ghost k: nat) returns (r: nat)
      requires Valid() && idx == Bucket(addr, |Value()|) && k == Find(Value()[idx], addr) && k < |buckets.chains[idx]|
      requires entry == buckets.chains[idx][k] && prev == if k == 0 then null else buckets.chains[idx][k - 1]
      requires HasEntry(Value(), addr)
      modifies `numEntries, buckets`heads, buckets`chains, buckets`table, BlocksOf(buckets.nodes), buckets.repr
      ensures Valid() && r == CountOf(old(Value()), addr) > 0
      ensures Changed(old(Value()), addr, r - 1, Value())
    {
      EntryExactly(buckets.table, addr);
      assert Linked(buckets.heads[idx], buckets.chains[idx], buckets.table[idx]);
      var count := Dec32(entry.count);
      if count == 0 {
        RemoveEntry(addr, idx, prev, entry, k);
        return 1;
      }
      SetEntry(addr, entry, count, idx, k);
      r := Inc32(count);
    }
  }

  /** A new entry finds 3/4 of the buckets in use, and there are too few blocks to double them. */
  predicate MustFail(entries: nat, size: nat, available: nat) {
    4 * entries >= 3 * size && available < 2 * size / 512
  }

  /** The buckets are doubled for a new entry exactly when 3/4 of them are in use and there are blocks. */
  function SizeAfter(entries: nat, size: nat, available: nat): nat {
    if 4 * entries >= 3 * size && available >= 2 * size / 512 then 2 * size else size
  }

  /**
   What an increment does: one more for `addr` and that as the answer; or nothing, for want of
   memory, with answer 0; or, from the largest count, an entry that counts 0 and an unsound table.
   */
  ghost predicate Raised(b: seq<Chain>, addr: u64, r: nat, b': seq<Chain>) {
    && |b| > 0 && (Table(b') <==> CountOf(b, addr) + 1 < TWO_32)
    && (r != 0 ==> r == CountOf(b, addr) + 1 && Changed(b, addr, r, b'))
    && (r == 0 && Table(b') ==> CountOf(b, addr) == 0 && SameCounts(b, b'))
    && (!Table(b') ==> r == 0 && HasEntry(b, addr) && b' == SetAt(b, addr, 0))
  }

  lemma NotCounted(b: seq<Chain>, addr: u64, b': seq<Chain>)
    requires SameCounts(b, b') && CountOf(b, addr) == 0 && Table(b')
    ensures Raised(b, addr, 0, b')
  {
  }

  lemma FirstCount(b: seq<Chain>, addr: u64, roomy: seq<Chain>, b': seq<Chain>)
    requires SameCounts(b, roomy) && Changed(roomy, addr, 1, b') && CountOf(b, addr) == 0 && Table(b')
    ensures Raised(b, addr, 1, b')
  {
  }

  /** An entry still to be moved has no count in the new table. */
  lemma PendingCell(b: seq<Chain>, i: nat, j: nat, nb: seq<Chain>)
    requires Moving(b, i, j, nb) && i < |b| && j < |b[i]|
    ensures CountOf(nb, b[i][j].addr) == 0 && 0 < b[i][j].count < TWO_32
  {
    assert ChainSound(b[i], i, |b|);
    RestCount(b[i], j, i, |b|);
    assert CountOf(nb, b[i][j].addr) + Pending(b, i, j, b[i][j].addr) == CountOf(b, b[i][j].addr);
  }

  // ---------------------------------------------------------------------------------------
  // Whole runs
  // ---------------------------------------------------------------------------------------

  /** The count of every address is what the successful calls so far add up to. */
  ghost predicate Tallied(b: seq<Chain>, ops: seq<Op>, replies: seq<nat>) {
    && |b| > 0 && |ops| == |replies|
    && forall a :: CountOf(b, a) == Net(ops, replies, a)
  }

  /** The answer to `op`: the count it leads to, or led away from; 0 for an increment without memory. */
  predicate Answers(ops: seq<Op>, replies: seq<nat>, k: nat)
    requires |ops| == |replies| && k < |ops|
  {
    var before := Net(ops[..k], replies[..k], ops[k].addr);
    if ops[k].Down? then replies[k] == before
    else replies[k] == before + 1 || (replies[k] == 0 && before == 0)
  }

  lemma TallyNext(b: seq<Chain>, ops: seq<Op>, replies: seq<nat>, op: Op, r: nat, b': seq<Chain>)
    requires Tallied(b, ops, replies)
    requires r == 0 ==> SameCounts(b, b')
    requires r != 0 ==> Changed(b, op.addr, if op.Up? then CountOf(b, op.addr) + 1 else r - 1, b')
    requires op.Down? ==> r == CountOf(b, op.addr)
    requires op.Up? ==> r == CountOf(b, op.addr) + 1 || (r == 0 && CountOf(b, op.addr) == 0)
    ensures Tallied(b', ops + [op], replies + [r]) && Answers(ops + [op], replies + [r], |ops|)
  {
    forall a ensures CountOf(b', a) == Net(ops + [op], replies + [r], a) {
      NetSnoc(ops, replies, op, r, a);
    }
    assert (ops + [op])[..|ops|] == ops && (replies + [r])[..|ops|] == replies;
    assert CountOf(b, op.addr) == Net(ops, replies, op.addr);
  }

  ghost predicate AllAnswered(ops: seq<Op>, replies: seq<nat>) {
    |ops| == |replies| && forall k :: 0 <= k < |ops| ==> Answers(ops, replies, k)
  }

  lemma AnsweredNext(ops: seq<Op>, replies: seq<nat>, op: Op, r: nat)
    requires AllAnswered(ops, replies) && Answers(ops + [op], replies + [r], |ops|)
    ensures AllAnswered(ops + [op], replies + [r])
  {
    forall k | 0 <= k < |ops| ensures Answers(ops + [op], replies + [r], k) {
      assert Answers(ops, replies, k);
      assert (ops + [op])[..k] == ops[..k] && (replies + [r])[..k] == replies[..k];
    }
  }

  method Perform(m: RefCountMap, op: Op, available: nat, memory: bool, ghost ops: seq<Op>, ghost replies: seq<nat>)
    returns (r: nat)
    requires m.Valid() && Tallied(m.Value(), ops, replies) && !Wraps(m.Value(), op)
    modifies m, m.buckets, BlocksOf(m.buckets.nodes), m.buckets.repr
    ensures m.Valid() && m.Grown()
    ensures Tallied(m.Value(), ops + [op], replies + [r]) && Answers(ops + [op], replies + [r], |ops|)
  {
    ghost var b := m.Value();
    EntryExactly(b, op.addr);
    if op.Up? {
      r := m.Increment(op.addr, available, memory);
    } else {
      r := m.Decrement(op.addr);
    }
    TallyNext(b, ops, replies, op, r, m.Value());
  }

  /** The call would raise the largest count. */
  predicate Wraps(b: seq<Chain>, op: Op)
    requires |b| > 0
  {
    op.Up? && CountOf(b, op.addr) + 1 == TWO_32
  }

  /** The calls that were answered are the first ones, and the map counts what they add up to. */
  ghost predicate RunTo(b: seq<Chain>, ops: seq<Op>, replies: seq<nat>) {
    && |replies| <= |ops| && Tallied(b, ops[..|replies|], replies) && AllAnswered(ops[..|replies|], replies)
  }

  /**
   Any run on an empty map, up to the first increment of a count of 2^32 - 1: the count of every address
   is the number of its successful increments less that of its successful decrements, whatever resizes
   happen.
   */
  method Run(m: RefCountMap, ops: seq<Op>, available: seq<nat>, memory: seq<bool>) returns (replies: seq<nat>)
    requires m.Valid() && |available| == |memory| == |ops| && forall a :: CountOf(m.Value(), a) == 0
    modifies m, m.buckets, BlocksOf(m.buckets.nodes), m.buckets.repr
    ensures m.Valid() && RunTo(m.Value(), ops, replies)
    ensures |replies| < |ops| ==> ops[|replies|].Up? && CountOf(m.Value(), ops[|replies|].addr) == 0xFFFF_FFFF
  {
    replies := [];
    for i := 0 to |ops|
      invariant m.Valid() && m.Grown() && |replies| == i && RunTo(m.Value(), ops, replies)
    {
      var wraps := m.AtLimit(ops[i]);
      if wraps {
        return;
      }
      replies := Continue(m, ops, available[i], memory[i], replies);
    }
  }

  /** The next call of a run. */
  method Continue(m: RefCountMap, ops: seq<Op>, available: nat, memory: bool, replies: seq<nat>)
    returns (replies': seq<nat>)
    requires m.Valid() && RunTo(m.Value(), ops, replies) && |replies| < |ops| && !Wraps(m.Value(), ops[|replies|])
    modifies m, m.buckets, BlocksOf(m.buckets.nodes), m.buckets.repr
    ensures m.Valid() && m.Grown() && |replies'| == |replies| + 1 && RunTo(m.Value(), ops, replies')
  {
    ghost var i := |replies|;
    assert ops[..i + 1] == ops[..i] + [ops[i]];
    var r := Perform(m, ops[|replies|], available, memory, ops[..i], replies);
    AnsweredNext(ops[..i], replies, ops[i], r);
    replies' := replies + [r];
  }

  /** refcount_map_init: 1024 empty buckets, or null without the memory for them. */
  method Init(available: nat, memory: bool) returns (m: RefCountMap?)
    ensures m != null <==> memory && available >= 2
    ensures m != null ==> fresh(m) && fresh(m.buckets) && fresh(BlocksOf(m.buckets.nodes)) && fresh(m.buckets.repr)
    ensures m != null ==> m.Valid() && |m.Value()| == 1024 && forall a :: CountOf(m.Value(), a) == 0
  {
    if !memory {
      return null;
    }
    var buckets := NewBuckets(INITIAL_SIZE, available);
    if buckets == null {
      return null;
    }
    m := new RefCountMap(buckets);
  }

  method CountOne(m: RefCountMap, addr: u64)
    requires m.Valid() && CountOf(m.Value(), addr) + 1 < TWO_32
    modifies m, m.buckets, BlocksOf(m.buckets.nodes), m.buckets.repr
    ensures m.Valid() && m.Grown() && CountOf(m.Value(), addr) == CountOf(old(m.Value()), addr) + 1
  {
    var _ := m.Increment(addr, m.buckets.size, true);
  }

  method CountTo(m: RefCountMap, addr: u64, n: nat)
    requires m.Valid() && CountOf(m.Value(), addr) == 0 && n < TWO_32
    modifies m, m.buckets, BlocksOf(m.buckets.nodes), m.buckets.repr
    ensures m.Valid() && m.Grown() && CountOf(m.Value(), addr) == n
  {
    for i := 0 to n
      invariant m.Valid() && m.Grown() && CountOf(m.Value(), addr) == i
    {
      CountOne(m, addr);
    }
  }

  /** Counting one address all the way up: the next increment answers 0 and leaves an entry that counts 0. */
  method CountPastLimit(addr: u64) returns (m: RefCountMap?, last: nat)
    ensures m != null && m.buckets.Chained() && last == 0 && !Table(m.Value())
    ensures |m.Value()| > 0 && HasEntry(m.Value(), addr) && CountOf(m.Value(), addr) == 0
  {
    m := Init(2, true);
    CountTo(m, addr, TWO_32 - 1);
    ghost var b := m.Value();
    last := m.Increment(addr, 0, true);
    StillThere(b, addr);
  }

  /** An entry set to 0 is still found, and counts 0. */
  lemma StillThere(b: seq<Chain>, addr: u64)
    requires |b| > 0 && HasEntry(b, addr)
    ensures HasEntry(SetAt(b, addr, 0), addr) && CountOf(SetAt(b, addr, 0), addr) == 0
  {
    var n := Bucket(addr, |b|);
    var k := Find(b[n], addr);
    SameFind(b[n], b[n][k := Cell(addr, 0)], addr);
  }
}
