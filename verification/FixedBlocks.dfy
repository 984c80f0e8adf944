/**
 The fixed-block allocator of kernel/fba/alloc.c: a bitmap with one bit per 4 KiB block, searched
 a word at a time. The bitmap lives in the first blocks of the area it describes.
 */
module FixedBlocks {
  import opened Machine
  import opened Bits

  /** The all-ones word that the searches skip. */
  const FULL: u64 := 0xffff_ffff_ffff_ffff

  ghost predicate Used(b: seq<u64>, g: int)
    requires 0 <= g < 64 * |b|
  {
    Bit(b[g / 64], g % 64)
  }

  predicate ValidAlign(a: nat) {
    a == 1 || a == 2 || a == 4 || a == 8 || a == 16 || a == 32 || a == 64
  }

  /** The alignments that are accepted: the powers of two up to 64. */
  lemma ValidAlignExactly(a: nat)
    ensures ValidAlign(a) <==> exists k: nat :: k <= 6 && a == Pow2(k)
  {
    assert Pow2(0) == 1 && Pow2(1) == 2 && Pow2(2) == 4 && Pow2(3) == 8;
    assert Pow2(4) == 16 && Pow2(5) == 32 && Pow2(6) == 64;
  }

  // ---------------------------------------------------------------------------------------
  // What a search must find
  // ---------------------------------------------------------------------------------------

  ghost predicate AllFree(b: seq<u64>, lo: int, hi: int)
    requires 0 <= lo && hi <= 64 * |b|
  {
    forall g :: lo <= g < hi ==> !Used(b, g)
  }

  /** An aligned run of `n` free blocks starts at `s`. */
  ghost predicate RunAt(b: seq<u64>, s: nat, n: nat, a: nat)
    requires a > 0
  {
    s % a == 0 && s + n <= 64 * |b| && AllFree(b, s, s + n)
  }

  ghost predicate NoRunBefore(b: seq<u64>, k: nat, n: nat, a: nat)
    requires a > 0
  {
    forall s: nat :: s < k ==> !RunAt(b, s, n, a)
  }

  /** `r` is the least start of an aligned free run, or the number of bits if there is no such run. */
  ghost predicate FirstRun(b: seq<u64>, n: nat, a: nat, r: nat)
    requires a > 0
  {
    r <= 64 * |b| && NoRunBefore(b, r, n, a) && (r < 64 * |b| ==> RunAt(b, r, n, a))
  }

  /** The answer is unique, so `FirstRun` says everything about a search's result. */
  lemma FirstRunUnique(b: seq<u64>, n: nat, a: nat, r: nat, r': nat)
    requires n > 0 && a > 0 && FirstRun(b, n, a, r) && FirstRun(b, n, a, r')
    ensures r == r'
  {
  }

  // ---------------------------------------------------------------------------------------
  // The scan
  // ---------------------------------------------------------------------------------------

  /** The scan stands before bit `p` with `consec` free bits from the aligned bit `start` behind it. */
  ghost predicate Scan(b: seq<u64>, n: nat, a: nat, p: nat, consec: nat, start: nat) {
    && a > 0 && p <= 64 * |b| && consec < n
    && (consec == 0 ==> NoRunBefore(b, p, n, a))
    && (consec > 0 ==> start + consec == p && start % a == 0 && AllFree(b, start, p) && NoRunBefore(b, start, n, a))
  }

  /** An unaligned bit cannot start a run. */
  lemma SkipUnaligned(b: seq<u64>, n: nat, a: nat, p: nat, start: nat)
    requires Scan(b, n, a, p, 0, start) && p < 64 * |b| && p % a != 0
    ensures Scan(b, n, a, p + 1, 0, start)
  {
  }

  /** `k` free bits, one or a whole word, either complete the run or extend it. */
  lemma FreeStretch(b: seq<u64>, n: nat, a: nat, p: nat, consec: nat, start: nat, k: nat)
    requires Scan(b, n, a, p, consec, start) && k > 0 && p + k <= 64 * |b| && AllFree(b, p, p + k)
    requires consec == 0 ==> start == p && p % a == 0
    ensures consec + k < n ==> Scan(b, n, a, p + k, consec + k, start)
    ensures consec + k >= n ==> FirstRun(b, n, a, start) && start < 64 * |b|
  {
    assert AllFree(b, start, p + k);
  }

  /** `k` used bits, one or a whole word, rule out every start up to their end. */
  lemma UsedStretch(b: seq<u64>, n: nat, a: nat, p: nat, consec: nat, start: nat, k: nat)
    requires Scan(b, n, a, p, consec, start) && k > 0 && p + k <= 64 * |b|
    requires forall g :: p <= g < p + k ==> Used(b, g)
    ensures Scan(b, n, a, p + k, 0, start)
  {
    forall s: nat | s < p + k ensures !RunAt(b, s, n, a) {
      if consec > 0 && start <= s {
        var g := if s < p then p else s;
        assert Used(b, g);
      } else if consec == 0 && p <= s {
        assert Used(b, s);
      }
    }
  }

  lemma WordBits(b: seq<u64>, w: nat, i: nat)
    requires w < |b| && i < 64
    ensures Used(b, 64 * w + i) == Bit(b[w], i)
  {
    assert (64 * w + i) / 64 == w && (64 * w + i) % 64 == i;
  }

  lemma UniformWord(b: seq<u64>, w: nat)
    requires w < |b|
    ensures b[w] == 0 ==> AllFree(b, 64 * w, 64 * w + 64)
    ensures b[w] == FULL ==> forall g :: 64 * w <= g < 64 * w + 64 ==> Used(b, g)
  {
    Pow2Is64();
    forall g | 64 * w <= g < 64 * w + 64
      ensures b[w] == 0 ==> !Used(b, g)
      ensures b[w] == FULL ==> Used(b, g)
    {
      WordBits(b, w, g - 64 * w);
      ZeroBits(g - 64 * w);
      OnesBits(64, g - 64 * w);
    }
  }

  lemma WordAligned(w: nat, a: nat)
    requires ValidAlign(a)
    ensures (64 * w) % a == 0
  {
    assert 64 * w == a * (64 / a * w);
    AddMultiple(0, 64 / a * w, a);
  }

  /** The bit-by-bit loop over a mixed word. */
  method ScanWord(bitmap: array<u64>, w: nat, align: nat, n: nat, consec0: nat, start0: nat)
    returns (found: bool, consec: nat, start: nat)
    requires w < bitmap.Length && ValidAlign(align) && n > 0
    requires Scan(bitmap[..], n, align, 64 * w, consec0, start0)
    ensures found ==> FirstRun(bitmap[..], n, align, start) && start < 64 * bitmap.Length
    ensures !found ==> Scan(bitmap[..], n, align, 64 * w + 64, consec, start)
  {
    ghost var b := bitmap[..];
    consec, start := consec0, start0;
    for i := 0 to 64
      invariant Scan(b, n, align, 64 * w + i, consec, start)
    {
      var current := 64 * w + i;
      WordBits(b, w, i);
      if !Bit(bitmap[w], i) {
        if consec == 0 {
          if current % align != 0 {
            SkipUnaligned(b, n, align, current, start);
            continue;
          }
          start := current;
        }
        assert AllFree(b, current, current + 1);
        FreeStretch(b, n, align, current, consec, start, 1);
        consec := consec + 1;
        if consec == n {
          return true, consec, start;
        }
      } else {
        UsedStretch(b, n, align, current, consec, start, 1);
        consec := 0;
      }
    }
    found := false;
  }

  /**
   find_unset_run. The source has this loop twice, for n up to 64 and above, with the same body.
   A word boundary is aligned for every accepted alignment, so the word path never skips.
   */
  method FindUnsetRun(bitmap: array<u64>, align: nat, n: nat) returns (r: nat)
    requires ValidAlign(align)
    ensures n > 0 ==> FirstRun(bitmap[..], n, align, r)
    ensures n == 0 ==> r == 0
  {
    if n == 0 || bitmap.Length == 0 {
      return 0;
    }
    ghost var b := bitmap[..];
    var consec: nat, start: nat := 0, 0;
    for w := 0 to bitmap.Length
      invariant Scan(b, n, align, 64 * w, consec, start)
    {
      UniformWord(b, w);
      if bitmap[w] == 0 {
        if consec == 0 {
          WordAligned(w, align);
          start := 64 * w;
        }
        FreeStretch(b, n, align, 64 * w, consec, start, 64);
        consec := consec + 64;
        if consec >= n {
          return start;
        }
      } else if bitmap[w] == FULL {
        UsedStretch(b, n, align, 64 * w, consec, start, 64);
        consec := 0;
      } else {
        var found;
        found, consec, start := ScanWord(bitmap, w, align, n, consec, start);
        if found {
          return start;
        }
      }
    }
    NoRunAtEnd(b, n, align, consec, start);
    return 64 * bitmap.Length;
  }

  lemma NoRunAtEnd(b: seq<u64>, n: nat, a: nat, consec: nat, start: nat)
    requires Scan(b, n, a, 64 * |b|, consec, start)
    ensures FirstRun(b, n, a, 64 * |b|)
  {
  }

  // ---------------------------------------------------------------------------------------
  // Live allocations
  // ---------------------------------------------------------------------------------------

  /** An allocation handed out and not yet freed. */
  datatype Grant = Grant(first: nat, count: nat, align: nat)

  predicate Apart(x: Grant, y: Grant) {
    x.first + x.count <= y.first || y.first + y.count <= x.first
  }

  ghost predicate GrantSound(b: seq<u64>, reserved: nat, x: Grant) {
    && x.count > 0 && ValidAlign(x.align) && x.first % x.align == 0
    && reserved <= x.first && x.first + x.count <= 64 * |b|
    && forall g :: x.first <= g < x.first + x.count ==> Used(b, g)
  }

  /** The bitmap's own blocks are marked; live grants are aligned, marked, past those blocks and disjoint. */
  ghost predicate Sound(b: seq<u64>, reserved: nat, live: set<Grant>) {
    && reserved <= 64 * |b|
    && (forall g :: 0 <= g < reserved ==> Used(b, g))
    && (forall x :: x in live ==> GrantSound(b, reserved, x))
    && (forall x, y :: x in live && y in live && x != y ==> Apart(x, y))
  }

  /** `b'` is `b` with the blocks of [lo, hi) marked as well. */
  ghost predicate Marked(b: seq<u64>, b': seq<u64>, lo: nat, hi: nat) {
    |b'| == |b| && forall g :: 0 <= g < 64 * |b| ==> (Used(b', g) <==> Used(b, g) || lo <= g < hi)
  }

  /** `b'` is `b` with the blocks of [lo, hi) unmarked. */
  ghost predicate Unmarked(b: seq<u64>, b': seq<u64>, lo: nat, hi: nat) {
    |b'| == |b| && forall g :: 0 <= g < 64 * |b| ==> (Used(b', g) <==> Used(b, g) && !(lo <= g < hi))
  }

  lemma MarkKeepsSound(b: seq<u64>, b': seq<u64>, reserved: nat, live: set<Grant>, lo: nat, hi: nat)
    requires Sound(b, reserved, live) && Marked(b, b', lo, hi)
    ensures Sound(b', reserved, live)
  {
    forall x | x in live ensures GrantSound(b', reserved, x) { assert GrantSound(b, reserved, x); }
  }

  /** A run that was free is disjoint from every live grant and from the bitmap's blocks. */
  lemma FreeRunIsApart(b: seq<u64>, reserved: nat, live: set<Grant>, x: Grant)
    requires Sound(b, reserved, live) && ValidAlign(x.align) && x.count > 0 && RunAt(b, x.first, x.count, x.align)
    ensures reserved <= x.first
    ensures forall y :: y in live ==> Apart(x, y) && x != y
  {
    assert !Used(b, x.first);
    forall y | y in live ensures Apart(x, y) {
      assert GrantSound(b, reserved, y);
      assert Used(b, y.first);
    }
  }

  lemma GrantKeepsSound(b: seq<u64>, b': seq<u64>, reserved: nat, live: set<Grant>, x: Grant)
    requires Sound(b, reserved, live) && ValidAlign(x.align) && x.count > 0 && RunAt(b, x.first, x.count, x.align)
    requires Marked(b, b', x.first, x.first + x.count)
    ensures x !in live && Sound(b', reserved, live + {x})
  {
    FreeRunIsApart(b, reserved, live, x);
    MarkKeepsSound(b, b', reserved, live, x.first, x.first + x.count);
  }

  /** Giving back blocks of one live grant leaves every other grant intact. */
  lemma FreeKeepsSound(b: seq<u64>, b': seq<u64>, reserved: nat, live: set<Grant>, x: Grant, lo: nat, hi: nat)
    requires Sound(b, reserved, live) && x in live && x.first <= lo && hi <= x.first + x.count
    requires Unmarked(b, b', lo, hi)
    ensures Sound(b', reserved, live - {x})
  {
    assert GrantSound(b, reserved, x);
    forall y | y in live - {x} ensures GrantSound(b', reserved, y) {
      assert GrantSound(b, reserved, y) && Apart(x, y);
    }
  }

  lemma SetMarks(b: seq<u64>, g: nat)
    requires g < 64 * |b|
    ensures SetBit(b[g / 64], g % 64) < TWO_64
    ensures Marked(b, b[g / 64 := SetBit(b[g / 64], g % 64)], g, g + 1)
  {
    UpdateBit(b[g / 64], g % 64, 0);
    forall h | 0 <= h < 64 * |b|
      ensures Used(b[g / 64 := SetBit(b[g / 64], g % 64)], h) <==> Used(b, h) || h == g
    {
      UpdateBit(b[g / 64], g % 64, h % 64);
    }
  }

  lemma ClearUnmarks(b: seq<u64>, g: nat)
    requires g < 64 * |b|
    ensures 0 <= ClearBit(b[g / 64], g % 64) < TWO_64
    ensures Unmarked(b, b[g / 64 := ClearBit(b[g / 64], g % 64)], g, g + 1)
  {
    UpdateBit(b[g / 64], g % 64, 0);
    forall h | 0 <= h < 64 * |b|
      ensures Used(b[g / 64 := ClearBit(b[g / 64], g % 64)], h) <==> Used(b, h) && h != g
    {
      UpdateBit(b[g / 64], g % 64, h % 64);
    }
  }

  /** The page number of an aligned block is a multiple of the alignment exactly when the area's is. */
  lemma AddressAlignment(begin: nat, first: nat, align: nat)
    requires begin % PAGE_SIZE == 0 && ValidAlign(align) && first % align == 0
    ensures (begin + first * PAGE_SIZE) / PAGE_SIZE == begin / PAGE_SIZE + first
    ensures (begin / PAGE_SIZE + first) % align == 0 <==> begin / PAGE_SIZE % align == 0
  {
    AlignedSum(begin / PAGE_SIZE, first, align);
    PageNumber(begin, first);
  }

  lemma PageNumber(begin: nat, first: nat)
    requires begin % PAGE_SIZE == 0
    ensures (begin + first * PAGE_SIZE) / PAGE_SIZE == begin / PAGE_SIZE + first
  {
  }

  lemma AlignedSum(page: nat, first: nat, align: nat)
    requires ValidAlign(align) && first % align == 0
    ensures (page + first) % align == 0 <==> page % align == 0
  {
    AddMultiple(page, first / align, align);
  }

  // ---------------------------------------------------------------------------------------
  // The allocator
  // ---------------------------------------------------------------------------------------

  /** bitmap_set. */
  method Mark(bitmap: array<u64>, g: nat)
    requires g < 64 * bitmap.Length
    modifies bitmap
    ensures Marked(old(bitmap[..]), bitmap[..], g, g + 1)
  {
    SetMarks(bitmap[..], g);
    ghost var b := bitmap[..];
    bitmap[g / 64] := SetBit(bitmap[g / 64], g % 64);
    assert bitmap[..] == b[g / 64 := SetBit(b[g / 64], g % 64)];
  }

  /** bitmap_clear. */
  method Unmark(bitmap: array<u64>, g: nat)
    requires g < 64 * bitmap.Length
    modifies bitmap
    ensures Unmarked(old(bitmap[..]), bitmap[..], g, g + 1)
  {
    ClearUnmarks(bitmap[..], g);
    ghost var b := bitmap[..];
    bitmap[g / 64] := ClearBit(bitmap[g / 64], g % 64);
    assert bitmap[..] == b[g / 64 := ClearBit(b[g / 64], g % 64)];
  }

  /** The bitmap part of fba_init: one bitmap page for each 32768 blocks, its own blocks marked. */
  method NewBitmap(pages: nat) returns (bitmap: array<u64>)
    ensures fresh(bitmap) && bitmap.Length == 512 * pages
    ensures forall g :: 0 <= g < 64 * bitmap.Length ==> (Used(bitmap[..], g) <==> g < pages)
  {
    bitmap := new u64[512 * pages](_ => 0);
    forall g | 0 <= g < 64 * bitmap.Length ensures !Used(bitmap[..], g) { ZeroBits(g % 64); }
    for i := 0 to pages
      invariant forall g :: 0 <= g < 64 * bitmap.Length ==> (Used(bitmap[..], g) <==> g < i)
    {
      Mark(bitmap, i);
    }
  }

  class Allocator {
    var begin: nat
    var bitmap: array<u64>
    ghost var reserved: nat
    ghost var live: set<Grant>

    ghost predicate Valid()
      reads this, bitmap
    {
      && begin % PAGE_SIZE == 0
      && reserved > 0 && bitmap.Length == 512 * reserved
      && Sound(bitmap[..], reserved, live)
    }

    constructor (begin: nat, sizeBlocks: nat)
      requires begin % PAGE_SIZE == 0 && sizeBlocks % 0x8000 == 0 && sizeBlocks > 0
      ensures Valid() && fresh(bitmap) && live == {} && this.begin == begin
      ensures 64 * bitmap.Length == sizeBlocks && reserved == sizeBlocks / 0x8000
      ensures forall g :: 0 <= g < sizeBlocks ==> (Used(bitmap[..], g) <==> g < reserved)
    {
      var bits := NewBitmap(sizeBlocks / 0x8000);
      this.begin, bitmap := begin, bits;
      reserved, live := sizeBlocks / 0x8000, {};
    }

    /**
     fba_alloc_blocks_aligned. `pages` is how many of the page allocations it makes will succeed.
     When one fails, the blocks marked so far, including the failing one, stay marked.
     */
    method AllocBlocksAligned(count: nat, align: nat, pages: nat) returns (address: nat, ghost first: nat)
      requires Valid()
      modifies bitmap, `live
      ensures Valid()
      ensures count == 0 || !ValidAlign(align) ==> address == 0 && bitmap[..] == old(bitmap[..]) && live == old(live)
      ensures count > 0 && ValidAlign(align) ==>
        FirstRun(old(bitmap[..]), count, align, first) &&
        (if first == 64 * bitmap.Length then
           address == 0 && bitmap[..] == old(bitmap[..]) && live == old(live)
         else if pages < count then
           address == 0 && Marked(old(bitmap[..]), bitmap[..], first, first + pages + 1) && live == old(live)
         else
           && address == begin + first * PAGE_SIZE
           && Marked(old(bitmap[..]), bitmap[..], first, first + count)
           && Grant(first, count, align) !in old(live) && live == old(live) + {Grant(first, count, align)})
    {
      first := 0;
      if count == 0 || !ValidAlign(align) {
        return 0, first;
      }
      ghost var b := bitmap[..];
      var bit := FindUnsetRun(bitmap, align, count);
      first := bit;
      if bit == 64 * bitmap.Length {
        return 0, first;
      }
      for i := 0 to count
        invariant Marked(b, bitmap[..], bit, bit + i) && i <= pages && live == old(live)
      {
        Mark(bitmap, bit + i);
        if i >= pages {
          MarkKeepsSound(b, bitmap[..], reserved, live, bit, bit + i + 1);
          return 0, first;
        }
      }
      GrantKeepsSound(b, bitmap[..], reserved, live, Grant(bit, count, align));
      live := live + {Grant(bit, count, align)};
      address := begin + bit * PAGE_SIZE;
    }

    /**
     fba_alloc_block: the first word that is not full, then its lowest clear bit. It takes the same
     block as a search for a run of one; when the page allocation fails the block stays marked.
     */
    method AllocBlock(page: bool) returns (address: nat, ghost first: nat)
      requires Valid()
      modifies bitmap, `live
      ensures Valid()
      ensures FirstRun(old(bitmap[..]), 1, 1, first)
      ensures first == 64 * bitmap.Length ==> address == 0 && bitmap[..] == old(bitmap[..]) && live == old(live)
      ensures first < 64 * bitmap.Length ==> Marked(old(bitmap[..]), bitmap[..], first, first + 1)
      ensures first < 64 * bitmap.Length && !page ==> address == 0 && live == old(live)
      ensures first < 64 * bitmap.Length && page ==>
        address == begin + first * PAGE_SIZE && live == old(live) + {Grant(first, 1, 1)}
    {
      ghost var b := bitmap[..];
      var w := FirstWithSpace(bitmap);
      first := 64 * bitmap.Length;
      if w == bitmap.Length {
        return 0, first;
      }
      var bit := LowestClear(bitmap[w]);
      LowestClearIsFirst(b, w, bit);
      first := 64 * w + bit;
      Mark(bitmap, 64 * w + bit);
      if !page {
        MarkKeepsSound(b, bitmap[..], reserved, live, first, first + 1);
        return 0, first;
      }
      GrantKeepsSound(b, bitmap[..], reserved, live, Grant(first, 1, 1));
      live := live + {Grant(first, 1, 1)};
      address := begin + (64 * w + bit) * PAGE_SIZE;
    }

    /** fba_free: clears the bit of the block that holds `address`, if that is inside the area and not null. */
    method FreeBits(address: nat)
      modifies bitmap
      ensures address == 0 || address < begin || address >= begin + 64 * bitmap.Length * PAGE_SIZE ==>
        bitmap[..] == old(bitmap[..])
      ensures address > 0 && begin <= address < begin + 64 * bitmap.Length * PAGE_SIZE ==>
        var g := (address - begin) / PAGE_SIZE; Unmarked(old(bitmap[..]), bitmap[..], g, g + 1)
    {
      if address == 0 {
        return;
      }
      if address < begin || address >= begin + 64 * bitmap.Length * PAGE_SIZE {
        return;
      }
      var g := (address - begin) / PAGE_SIZE;
      if Bit(bitmap[g / 64], g % 64) {
        Unmark(bitmap, g);
      }
    }

    /** fba_free of a live grant's address: frees its first block; any further blocks stay marked. */
    method Free(ghost x: Grant, address: nat)
      requires Valid() && x in live && address == begin + x.first * PAGE_SIZE
      modifies bitmap, `live
      ensures Valid() && live == old(live) - {x}
      ensures Unmarked(old(bitmap[..]), bitmap[..], x.first, x.first + 1)
    {
      assert GrantSound(bitmap[..], reserved, x);
      ghost var b := bitmap[..];
      FreeBits(address);
      FreeKeepsSound(b, bitmap[..], reserved, live, x, x.first, x.first + 1);
      live := live - {x};
    }

    /** fba_free_blocks of a live grant: every block is free again. */
    method FreeBlocks(ghost x: Grant, address: nat, count: nat)
      requires Valid() && x in live && address == begin + x.first * PAGE_SIZE && count == x.count
      modifies bitmap, `live
      ensures Valid() && live == old(live) - {x}
      ensures Unmarked(old(bitmap[..]), bitmap[..], x.first, x.first + x.count)
    {
      assert GrantSound(bitmap[..], reserved, x);
      ghost var b := bitmap[..];
      for i := 0 to count
        invariant Unmarked(b, bitmap[..], x.first, x.first + i) && live == old(live)
      {
        FreeBits(address + i * PAGE_SIZE);
      }
      FreeKeepsSound(b, bitmap[..], reserved, live, x, x.first, x.first + count);
      live := live - {x};
    }
  }

  /** fba_init: refuses bad parameters, accepts an empty area without an allocator, and may run out of pages. */
  method Init(begin: nat, sizeBlocks: nat, pages: bool) returns (ok: bool, a: Allocator?)
    ensures ok <==> begin % PAGE_SIZE == 0 && sizeBlocks % 0x8000 == 0 && (sizeBlocks == 0 || pages)
    ensures a != null <==> ok && sizeBlocks > 0
    ensures a != null ==> fresh(a) && fresh(a.bitmap) && a.Valid() && a.live == {} && a.begin == begin
    ensures a != null ==> 64 * a.bitmap.Length == sizeBlocks && a.reserved == sizeBlocks / 0x8000
    ensures a != null ==> forall g :: 0 <= g < sizeBlocks ==> (Used(a.bitmap[..], g) <==> g < a.reserved)
  {
    if begin % PAGE_SIZE != 0 || sizeBlocks % 0x8000 != 0 {
      return false, null;
    }
    if sizeBlocks == 0 {
      return true, null;
    }
    if !pages {
      return false, null;
    }
    ok := true;
    a := new Allocator(begin, sizeBlocks);
  }

  /** In an area that begins at page 1, a block asked for with alignment 64 gets page 65. */
  method MisalignedBlock() returns (address: nat)
    ensures address == 0x1000 + 64 * PAGE_SIZE && address / PAGE_SIZE % 64 == 1
  {
    var ok, a := Init(0x1000, 0x8000, true);
    ghost var b := a.bitmap[..];
    assert RunAt(b, 64, 1, 64);
    ghost var first;
    address, first := a.AllocBlocksAligned(1, 64, 1);
    SixtyFourIsFirst(b, first);
  }

  lemma SixtyFourIsFirst(b: seq<u64>, first: nat)
    requires |b| == 512 && (forall g :: 0 <= g < 64 * |b| ==> (Used(b, g) <==> g < 1)) && FirstRun(b, 1, 64, first)
    ensures first == 64
  {
    assert RunAt(b, 64, 1, 64);
    assert Used(b, 0);
  }

  // ---------------------------------------------------------------------------------------
  // Whole runs
  // ---------------------------------------------------------------------------------------

  datatype Request =
    | Get(count: nat, align: nat, pages: nat) // fba_alloc_blocks_aligned; `pages` page allocations succeed
    | GetOne(page: bool)                      // fba_alloc_block
    | Put(grant: Grant)                       // fba_free_blocks

  /** The bitmap and what the callers hold. */
  datatype Area = Area(bits: seq<u64>, held: set<Grant>)

  /** An allocation takes the first aligned run if there is one, and gives it out if the pages suffice. */
  ghost predicate Allocated(s: Area, count: nat, align: nat, pages: nat, begin: nat, first: nat, address: nat, s': Area)
    requires align > 0
  {
    && FirstRun(s.bits, count, align, first)
    && if first == 64 * |s.bits| then address == 0 && s' == s
       else if pages < count then
         address == 0 && Marked(s.bits, s'.bits, first, first + pages + 1) && s'.held == s.held
       else
         && address == begin + first * PAGE_SIZE && Marked(s.bits, s'.bits, first, first + count)
         && Grant(first, count, align) !in s.held && s'.held == s.held + {Grant(first, count, align)}
  }

  /** A free of held blocks unmarks exactly these; callers free nothing else. */
  ghost predicate Freed(s: Area, g: Grant, s': Area) {
    if g in s.held then Unmarked(s.bits, s'.bits, g.first, g.first + g.count) && s'.held == s.held - {g} else s' == s
  }

  /** What a request does, and the address it answers. */
  ghost predicate Serve(s: Area, r: Request, begin: nat, address: nat, s': Area) {
    match r
    case Get(count, align, pages) =>
      if count == 0 || !ValidAlign(align) then address == 0 && s' == s
      else exists first :: 0 <= first && Allocated(s, count, align, pages, begin, first, address, s')
    case GetOne(page) =>
      var pages := if page then 1 else 0;
      exists first :: 0 <= first && Allocated(s, 1, 1, pages, begin, first, address, s')
    case Put(g) => address == 0 && Freed(s, g, s')
  }

  /** A run is granted exactly when there is one and there are pages for all its blocks. */
  lemma GrantedExactly(s: Area, r: Request, begin: nat, address: nat, s': Area)
    requires Serve(s, r, begin, address, s')
    ensures r.Get? && r.count > 0 && ValidAlign(r.align) ==>
      (s'.held != s.held <==> r.pages >= r.count && exists p: nat :: RunAt(s.bits, p, r.count, r.align))
    ensures r.GetOne? ==> (s'.held != s.held <==> r.page && exists p: nat :: RunAt(s.bits, p, 1, 1))
  {
    if r.Get? && r.count > 0 && ValidAlign(r.align) {
      var first: nat :| Allocated(s, r.count, r.align, r.pages, begin, first, address, s');
      AllocatedExactly(s, r.count, r.align, r.pages, begin, first, address, s');
    } else if r.GetOne? {
      var pages := if r.page then 1 else 0;
      var first: nat :| Allocated(s, 1, 1, pages, begin, first, address, s');
      AllocatedExactly(s, 1, 1, pages, begin, first, address, s');
    }
  }

  lemma AllocatedExactly(s: Area, count: nat, align: nat, pages: nat, begin: nat, first: nat, address: nat, s': Area)
    requires count > 0 && align > 0 && Allocated(s, count, align, pages, begin, first, address, s')
    ensures s'.held != s.held <==> pages >= count && exists p: nat :: RunAt(s.bits, p, count, align)
  {
    assert first < 64 * |s.bits| ==> RunAt(s.bits, first, count, align);
  }

  ghost function AreaOf(a: Allocator): Area
    reads a, a.bitmap
  {
    Area(a.bitmap[..], a.live)
  }

  /** One request to the allocator, by callers that hold the grants `held`, is that step. */
  method Perform(a: Allocator, r: Request, held: set<Grant>) returns (address: nat, held': set<Grant>)
    requires a.Valid() && a.live == held
    modifies a`live, a.bitmap
    ensures a.Valid() && a.live == held' && Serve(old(AreaOf(a)), r, a.begin, address, AreaOf(a))
  {
    match r
    case Get(count, align, pages) =>
      address, held' := PerformGet(a, count, align, pages, held);
    case GetOne(page) =>
      address, held' := PerformGetOne(a, page, held);
    case Put(g) =>
      address, held' := 0, held;
      if g in held {
        a.FreeBlocks(g, a.begin + g.first * PAGE_SIZE, g.count);
        held' := held - {g};
      }
  }

  method PerformGet(a: Allocator, count: nat, align: nat, pages: nat, held: set<Grant>)
    returns (address: nat, held': set<Grant>)
    requires a.Valid() && a.live == held
    modifies a`live, a.bitmap
    ensures a.Valid() && a.live == held'
    ensures Serve(old(AreaOf(a)), Get(count, align, pages), a.begin, address, AreaOf(a))
  {
    ghost var first, s := 0, AreaOf(a);
    address, first := a.AllocBlocksAligned(count, align, pages);
    held' := held;
    if count > 0 && ValidAlign(align) {
      FirstRunIsHigh(s, a.reserved, count, align, first);
      if address != 0 {
        held' := held + {Grant((address - a.begin) / PAGE_SIZE, count, align)};
      }
      assert Allocated(s, count, align, pages, a.begin, first, address, AreaOf(a));
    }
  }

  method PerformGetOne(a: Allocator, page: bool, held: set<Grant>) returns (address: nat, held': set<Grant>)
    requires a.Valid() && a.live == held
    modifies a`live, a.bitmap
    ensures a.Valid() && a.live == held' && Serve(old(AreaOf(a)), GetOne(page), a.begin, address, AreaOf(a))
  {
    ghost var first, s := 0, AreaOf(a);
    address, first := a.AllocBlock(page);
    FirstRunIsHigh(s, a.reserved, 1, 1, first);
    held' := held;
    if address != 0 {
      held' := held + {Grant((address - a.begin) / PAGE_SIZE, 1, 1)};
    }
    assert Allocated(s, 1, 1, if page then 1 else 0, a.begin, first, address, AreaOf(a));
  }

  /** No run starts at block 0, and a run that was free is nobody's grant. */
  lemma FirstRunIsHigh(s: Area, reserved: nat, count: nat, align: nat, first: nat)
    requires Sound(s.bits, reserved, s.held) && reserved > 0 && |s.bits| > 0 && count > 0 && ValidAlign(align)
    requires FirstRun(s.bits, count, align, first)
    ensures first > 0 && (first < 64 * |s.bits| ==> Grant(first, count, align) !in s.held)
  {
    if first < 64 * |s.bits| { FreeRunIsApart(s.bits, reserved, s.held, Grant(first, count, align)); }
  }

  /** The areas `ss` lead through the requests `rs`, with these answers. */
  ghost predicate Serves(ss: seq<Area>, rs: seq<Request>, begin: nat, addresses: seq<nat>) {
    && |ss| == |rs| + 1 == |addresses| + 1
    && forall k {:trigger rs[k]} :: 0 <= k < |rs| ==> Serve(ss[k], rs[k], begin, addresses[k], ss[k + 1])
  }

  lemma ServesOn(ss: seq<Area>, rs: seq<Request>, begin: nat, addresses: seq<nat>, r: Request, address: nat, s: Area)
    requires Serves(ss, rs, begin, addresses) && Serve(ss[|rs|], r, begin, address, s)
    ensures Serves(ss + [s], rs + [r], begin, addresses + [address])
  {
    var ss', rs', as' := ss + [s], rs + [r], addresses + [address];
    forall k | 0 <= k < |rs'| ensures Serve(ss'[k], rs'[k], begin, as'[k], ss'[k + 1]) {
      assert k < |rs| ==> rs'[k] == rs[k];
    }
  }

  /**
   Any run of allocations, with any page failures, and of frees: every request is served as `Serve` says,
   and what the callers hold after it is pairwise disjoint, aligned as asked, marked, and clear of the
   bitmap's own blocks.
   */
  method Run(a: Allocator, rs: seq<Request>) returns (addresses: seq<nat>, held: set<Grant>, ghost ss: seq<Area>)
    requires a.Valid() && a.live == {}
    modifies a`live, a.bitmap
    ensures a.Valid() && Serves(ss, rs, a.begin, addresses) && ss[0] == old(AreaOf(a)) && ss[|rs|] == AreaOf(a)
    ensures a.live == held && forall k :: 0 <= k < |ss| ==> Sound(ss[k].bits, a.reserved, ss[k].held)
  {
    addresses, held, ss := [], {}, [AreaOf(a)];
    for i := 0 to |rs|
      invariant a.Valid() && a.live == held && Serves(ss, rs[..i], a.begin, addresses)
      invariant ss[0] == old(AreaOf(a)) && ss[i] == AreaOf(a)
      invariant forall k :: 0 <= k < |ss| ==> Sound(ss[k].bits, a.reserved, ss[k].held)
    {
      var address;
      address, held := Perform(a, rs[i], held);
      ServesOn(ss, rs[..i], a.begin, addresses, rs[i], address, AreaOf(a));
      assert rs[..i + 1] == rs[..i] + [rs[i]];
      addresses, ss := addresses + [address], ss + [AreaOf(a)];
    }
    assert rs[..|rs|] == rs;
  }

  /** The word loop of fba_alloc_block. */
  method FirstWithSpace(bitmap: array<u64>) returns (w: nat)
    ensures w <= bitmap.Length && NoRunBefore(bitmap[..], 64 * w, 1, 1)
    ensures w < bitmap.Length ==> bitmap[w] != FULL
  {
    w := 0;
    while w < bitmap.Length && bitmap[w] == FULL
      invariant w <= bitmap.Length && NoRunBefore(bitmap[..], 64 * w, 1, 1)
    {
      FullWordHasNoRun(bitmap[..], w);
      w := w + 1;
    }
  }

  /** `first_set_bit_64(~word)`. */
  function LowestClear(word: u64): nat
    requires word != FULL
  {
    FirstSetBit(FULL - word)
  }

  lemma FullWordHasNoRun(b: seq<u64>, w: nat)
    requires w < |b| && b[w] == FULL && NoRunBefore(b, 64 * w, 1, 1)
    ensures NoRunBefore(b, 64 * w + 64, 1, 1)
  {
    UniformWord(b, w);
    forall s: nat | s < 64 * w + 64 ensures !RunAt(b, s, 1, 1) {
      if 64 * w <= s { assert Used(b, s); }
    }
  }

  /** In the first word that is not full, the lowest clear bit is the first free block of all. */
  lemma LowestClearIsFirst(b: seq<u64>, w: nat, bit: nat)
    requires w < |b| && b[w] != FULL && NoRunBefore(b, 64 * w, 1, 1) && bit == LowestClear(b[w])
    ensures bit < 64 && FirstRun(b, 1, 1, 64 * w + bit)
  {
    LowestClearBits(b[w]);
    WordBits(b, w, bit);
    forall s: nat | s < 64 * w + bit ensures !RunAt(b, s, 1, 1) {
      if 64 * w <= s {
        WordBits(b, w, s - 64 * w);
        assert Used(b, s);
      }
    }
    assert AllFree(b, 64 * w + bit, 64 * w + bit + 1);
  }

  lemma LowestClearBits(word: u64)
    requires word != FULL
    ensures LowestClear(word) < 64 && !Bit(word, LowestClear(word))
    ensures forall i :: 0 <= i < LowestClear(word) ==> Bit(word, i)
  {
    Pow2Is64();
    FirstSetBitIsLowest(FULL - word);
    assert Complement(word, 64) == FULL - word;
    forall i | 0 <= i < 64 ensures Bit(FULL - word, i) <==> !Bit(word, i) { ComplementBits(word, 64, i); }
  }
}
