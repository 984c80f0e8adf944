/**
 The region system calls of kernel/syscalls.c over the tree as a value: create_region tries to
 extend an adjacent region before it tests for overlap, and destroy_region removes by start.
 */
module RegionSyscalls {
  import opened Machine
  import opened RegionTrees
  import opened RegionContents

  datatype Result = Ok | BadArgs | Failure

  predicate Touches(s: Span, start: u64, end: u64, flags: u64) {
    flags == s.flags && (end == s.start || start == s.end)
  }

  /** region_tree_find_adjacent. */
  function FindAdjacent(t: Tree, start: u64, end: u64, flags: u64): Option<Span> {
    if t.Leaf? then None
    else if Touches(t.span, start, end, flags) then Some(t.span)
    else if end <= t.span.start then FindAdjacent(t.left, start, end, flags)
    else if start >= t.span.end then FindAdjacent(t.right, start, end, flags)
    else None
  }

  function Extend(s: Span, start: u64, end: u64): Span {
    if end == s.start then s.(start := start) else s.(end := end)
  }

  /** The tree after the region found by the search has been extended in place. */
  function Coalesce(t: Tree, start: u64, end: u64, flags: u64): Tree {
    if t.Leaf? then t
    else if Touches(t.span, start, end, flags) then t.(span := Extend(t.span, start, end))
    else if end <= t.span.start then t.(left := Coalesce(t.left, start, end, flags))
    else if start >= t.span.end then t.(right := Coalesce(t.right, start, end, flags))
    else t
  }

  predicate BadRange(start: u64, end: u64) {
    start % PAGE_SIZE != 0 || end % PAGE_SIZE != 0 || end <= start || start >= USERSPACE_LIMIT || end > USERSPACE_LIMIT
  }

  /** create_region; `memory` says whether the slab allocator can serve a new node. */
  function Create(t: Tree, start: u64, end: u64, flags: u64, memory: bool): (Tree, Result)
    requires Avl(t)
  {
    if BadRange(start, end) then (t, BadArgs)
    else if FindAdjacent(t, start, end, flags).Some? then (Coalesce(t, start, end, flags), Ok)
    else if Overlaps(t, start, end) then (t, Ok)
    else if !memory then (t, Failure)
    else (Insert(t, Span(start, end, flags)), Ok)
  }

  /** destroy_region. */
  function Destroy(t: Tree, start: u64): (Tree, Result)
    requires Avl(t)
  {
    if start % PAGE_SIZE != 0 || start >= USERSPACE_LIMIT then (t, BadArgs)
    else (Remove(t, start), Ok)
  }

  // ---------------------------------------------------------------------------------------
  // Coalescing
  // ---------------------------------------------------------------------------------------

  lemma {:induction false} CoalesceKeepsShape(t: Tree, start: u64, end: u64, flags: u64)
    requires Avl(t)
    ensures Avl(Coalesce(t, start, end, flags)) && Height(Coalesce(t, start, end, flags)) == Height(t)
  {
    if t.Node? {
      CoalesceKeepsShape(t.left, start, end, flags);
      CoalesceKeepsShape(t.right, start, end, flags);
    }
  }

  lemma {:induction false} OutsideTouchesNothing(t: Tree, lo: int, hi: int, start: u64, end: u64, flags: u64, s: Span)
    requires Tiled(t, lo, hi) && start < end && s in Bag(t) && (end < lo || hi < start)
    ensures !Touches(s, start, end, flags)
  {
    TiledInside(t, lo, hi, s);
  }

  lemma {:induction false} BagParts(t: Tree)
    requires t.Node?
    ensures forall s :: s in Bag(t) <==> s in Bag(t.left) || s == t.span || s in Bag(t.right)
  {
  }

  /** On a free range, the search finds a neighbour with the same flags whenever there is one. */
  lemma {:induction false} AdjacentComplete(t: Tree, lo: int, hi: int, start: u64, end: u64, flags: u64)
    requires Tiled(t, lo, hi) && start < end && !AnyMeets(t, start, end)
    ensures FindAdjacent(t, start, end, flags).Some? <==> exists s :: s in Bag(t) && Touches(s, start, end, flags)
  {
    if t.Node? {
      BagParts(t);
      if end <= t.span.start {
        AdjacentComplete(t.left, lo, t.span.start, start, end, flags);
        forall s | s in Bag(t.right) ensures !Touches(s, start, end, flags) {
          OutsideTouchesNothing(t.right, t.span.end, hi, start, end, flags, s);
        }
      } else {
        AdjacentComplete(t.right, t.span.end, hi, start, end, flags);
        forall s | s in Bag(t.left) ensures !Touches(s, start, end, flags) {
          OutsideTouchesNothing(t.left, lo, t.span.start, start, end, flags, s);
        }
      }
    }
  }

  lemma {:induction false} TiledShrink(t: Tree, lo: int, hi: int, start: int, end: int)
    requires Tiled(t, lo, hi) && start < end && !AnyMeets(t, start, end)
    ensures end == hi && lo <= start ==> Tiled(t, lo, start)
    ensures start == lo && end <= hi ==> Tiled(t, end, hi)
  {
    if t.Node? {
      TiledBounds(t.left, lo, t.span.start);
      TiledBounds(t.right, t.span.end, hi);
      TiledShrink(t.left, lo, t.span.start, start, end);
      TiledShrink(t.right, t.span.end, hi, start, end);
    }
  }

  /** Extending a neighbour over a free range keeps the regions disjoint and in order. */
  lemma {:induction false} CoalesceKeepsTiled(t: Tree, lo: int, hi: int, start: u64, end: u64, flags: u64)
    requires Tiled(t, lo, hi) && lo <= start < end <= hi && !AnyMeets(t, start, end)
    ensures Tiled(Coalesce(t, start, end, flags), lo, hi)
  {
    if t.Node? {
      if Touches(t.span, start, end, flags) {
        TiledBounds(t.left, lo, t.span.start);
        TiledShrink(t.left, lo, t.span.start, start, end);
        TiledShrink(t.right, t.span.end, hi, start, end);
      } else if end <= t.span.start {
        CoalesceKeepsTiled(t.left, lo, t.span.start, start, end, flags);
      } else {
        CoalesceKeepsTiled(t.right, t.span.end, hi, start, end, flags);
      }
    }
  }

  /** When a neighbour is found, extending it covers exactly the requested addresses in addition. */
  lemma {:induction false} CoalesceCovers(t: Tree, lo: int, hi: int, start: u64, end: u64, flags: u64, a: int, f: u64)
    requires Tiled(t, lo, hi) && start < end && FindAdjacent(t, start, end, flags).Some?
    ensures Covers(Coalesce(t, start, end, flags), a, f) <==> Covers(t, a, f) || (start <= a < end && f == flags)
  {
    if !Touches(t.span, start, end, flags) {
      if end <= t.span.start {
        CoalesceCovers(t.left, lo, t.span.start, start, end, flags, a, f);
      } else {
        CoalesceCovers(t.right, t.span.end, hi, start, end, flags, a, f);
      }
    }
  }

  /** A neighbour found on a range that meets another region is extended into that region. */
  lemma {:induction false} CoalesceBreaksTiled(
    t: Tree, lo: int, hi: int, start: u64, end: u64, flags: u64, lo': int, hi': int)
    requires Tiled(t, lo, hi) && start < end && AnyMeets(t, start, end)
    requires FindAdjacent(t, start, end, flags).Some?
    ensures !Tiled(Coalesce(t, start, end, flags), lo', hi')
  {
    TiledBounds(t.left, lo, t.span.start);
    TiledBounds(t.right, t.span.end, hi);
    if end <= t.span.start {
      OutsideMeetsNothing(t.right, t.span.end, hi, start, end);
    } else {
      OutsideMeetsNothing(t.left, lo, t.span.start, start, end);
    }
    if Touches(t.span, start, end, flags) {
      var u := Coalesce(t, start, end, flags);
      if Tiled(u, lo', hi') {
        if end == t.span.start {
          OutsideMeetsNothing(u.left, lo', u.span.start, start, end);
        } else {
          OutsideMeetsNothing(u.right, u.span.end, hi', start, end);
        }
      }
    } else if end <= t.span.start {
      CoalesceBreaksTiled(t.left, lo, t.span.start, start, end, flags, lo', t.span.start);
    } else {
      CoalesceBreaksTiled(t.right, t.span.end, hi, start, end, flags, t.span.end, hi');
    }
  }

  // ---------------------------------------------------------------------------------------
  // The calls
  // ---------------------------------------------------------------------------------------

  /** The invariant of a process's region tree. */
  predicate Sound(t: Tree) {
    Avl(t) && Tiled(t, 0, USERSPACE_LIMIT)
  }

  lemma SoundSpans(t: Tree)
    requires Sound(t)
    ensures forall s :: s in Bag(t) ==> s.start < s.end
  {
    forall s | s in Bag(t) ensures s.start < s.end { TiledInside(t, 0, USERSPACE_LIMIT, s); }
  }

  /** A creation that succeeds on a free range adds exactly that range, on every path. */
  lemma CreateAddsRange(t: Tree, start: u64, end: u64, flags: u64, memory: bool, a: int, f: u64)
    requires Sound(t) && !AnyMeets(t, start, end)
    requires Create(t, start, end, flags, memory).1 == Ok
    ensures Sound(Create(t, start, end, flags, memory).0)
    ensures Covers(Create(t, start, end, flags, memory).0, a, f)
      <==> Covers(t, a, f) || (start <= a < end && f == flags)
  {
    if FindAdjacent(t, start, end, flags).Some? {
      CoalesceKeepsShape(t, start, end, flags);
      CoalesceKeepsTiled(t, 0, USERSPACE_LIMIT, start, end, flags);
      CoalesceCovers(t, 0, USERSPACE_LIMIT, start, end, flags, a, f);
    } else {
      OverlapsIsScan(t, 0, USERSPACE_LIMIT, start, end);
      InsertKeepsTiled(t, Span(start, end, flags), 0, USERSPACE_LIMIT);
      InsertCovers(t, Span(start, end, flags), a, f);
    }
  }

  /** A creation that does not report success, or meets a region with no neighbour, changes nothing. */
  lemma CreateUnchanged(t: Tree, start: u64, end: u64, flags: u64, memory: bool)
    requires Sound(t)
    ensures Create(t, start, end, flags, memory).1 != Ok ==> Create(t, start, end, flags, memory).0 == t
    ensures start < end && AnyMeets(t, start, end) && FindAdjacent(t, start, end, flags).None?
      ==> Create(t, start, end, flags, memory).0 == t
  {
    if start < end { OverlapsIsScan(t, 0, USERSPACE_LIMIT, start, end); }
  }

  /** Some region with the same flags touches the range. */
  ghost predicate HasNeighbour(t: Tree, start: u64, end: u64, flags: u64) {
    exists s :: s in Bag(t) && Touches(s, start, end, flags)
  }

  /** When a creation succeeds: not on bad arguments, and not when a new node is needed and cannot be had. */
  lemma CreateOkExactly(t: Tree, start: u64, end: u64, flags: u64, memory: bool)
    requires Sound(t)
    ensures var r, bad := Create(t, start, end, flags, memory).1,
        start % 4096 != 0 || end % 4096 != 0 || end <= start || end > 0x8000_0000_0000_0000;
      && (r == BadArgs <==> bad)
      && (r == Ok <==> !bad && (memory || AnyMeets(t, start, end) || HasNeighbour(t, start, end, flags)))
  {
    if !BadRange(start, end) {
      OverlapsIsScan(t, 0, USERSPACE_LIMIT, start, end);
      if !AnyMeets(t, start, end) { AdjacentComplete(t, 0, USERSPACE_LIMIT, start, end, flags); }
    }
  }

  /** One region that touches the range with the same flags has grown over it. */
  ghost predicate OneGrown(before: multiset<Span>, after: multiset<Span>, start: u64, end: u64, flags: u64) {
    exists s :: s in before && Touches(s, start, end, flags)
      && after == before - multiset{s} + multiset{Extend(s, start, end)}
  }

  lemma {:induction false} BagCount(l: Tree, m: Span, h: int, r: Tree, x: Span)
    ensures Bag(Node(l, m, h, r))[x] == Bag(l)[x] + (if x == m then 1 else 0) + Bag(r)[x]
  {
  }

  lemma {:induction false} CoalesceCount(t: Tree, start: u64, end: u64, flags: u64, x: Span)
    requires FindAdjacent(t, start, end, flags).Some?
    ensures var s := FindAdjacent(t, start, end, flags).value;
      && Bag(t)[s] > 0 && Touches(s, start, end, flags)
      && Bag(Coalesce(t, start, end, flags))[x] ==
        Bag(t)[x] - (if x == s then 1 else 0) + (if x == Extend(s, start, end) then 1 else 0)
  {
    var s, u := FindAdjacent(t, start, end, flags).value, Coalesce(t, start, end, flags);
    BagCount(t.left, t.span, t.height, t.right, x);
    BagCount(t.left, t.span, t.height, t.right, s);
    BagCount(u.left, u.span, u.height, u.right, x);
    if !Touches(t.span, start, end, flags) {
      if end <= t.span.start {
        CoalesceCount(t.left, start, end, flags, x);
      } else {
        CoalesceCount(t.right, start, end, flags, x);
      }
    }
  }

  lemma CoalesceBag(t: Tree, start: u64, end: u64, flags: u64)
    requires FindAdjacent(t, start, end, flags).Some?
    ensures OneGrown(Bag(t), Bag(Coalesce(t, start, end, flags)), start, end, flags)
  {
    var s := FindAdjacent(t, start, end, flags).value;
    var b, e, b' := Bag(t), Extend(s, start, end), Bag(Coalesce(t, start, end, flags));
    CoalesceCount(t, start, end, flags, s);
    forall x ensures b'[x] == b[x] - (if x == s then 1 else 0) + (if x == e then 1 else 0) {
      CoalesceCount(t, start, end, flags, x);
    }
    SwapOne(b, b', s, e);
  }

  lemma SwapOne(b: multiset<Span>, b': multiset<Span>, s: Span, e: Span)
    requires b[s] > 0 && forall x :: b'[x] == b[x] - (if x == s then 1 else 0) + (if x == e then 1 else 0)
    ensures b' == b - multiset{s} + multiset{e}
  {
    forall x ensures b'[x] == (b - multiset{s} + multiset{e})[x] {}
  }

  /** The regions after a creation on a free range: one more, unless a neighbour has grown over the range. */
  lemma CreateStores(t: Tree, start: u64, end: u64, flags: u64, memory: bool)
    requires Sound(t) && Create(t, start, end, flags, memory).1 == Ok && !AnyMeets(t, start, end)
    ensures var b, b' := Bag(t), Bag(Create(t, start, end, flags, memory).0);
      if HasNeighbour(t, start, end, flags) then OneGrown(b, b', start, end, flags)
      else b' == b + multiset{Span(start, end, flags)}
  {
    OverlapsIsScan(t, 0, USERSPACE_LIMIT, start, end);
    AdjacentComplete(t, 0, USERSPACE_LIMIT, start, end, flags);
    if FindAdjacent(t, start, end, flags).Some? {
      CoalesceBag(t, start, end, flags);
    } else {
      InsertBag(t, Span(start, end, flags));
    }
  }

  /** The condition a caller can check: the range is free, or no neighbour would be extended into it. */
  predicate SafeRequest(t: Tree, start: u64, end: u64, flags: u64) {
    BadRange(start, end) || !Overlaps(t, start, end) || FindAdjacent(t, start, end, flags).None?
  }

  /** Creation keeps the tree sound exactly when the request is safe. */
  lemma CreateSoundExact(t: Tree, start: u64, end: u64, flags: u64, memory: bool)
    requires Sound(t)
    ensures Sound(Create(t, start, end, flags, memory).0) <==> SafeRequest(t, start, end, flags)
  {
    if !BadRange(start, end) {
      OverlapsIsScan(t, 0, USERSPACE_LIMIT, start, end);
      if FindAdjacent(t, start, end, flags).Some? {
        if Overlaps(t, start, end) {
          CoalesceBreaksTiled(t, 0, USERSPACE_LIMIT, start, end, flags, 0, USERSPACE_LIMIT);
        } else {
          CoalesceKeepsShape(t, start, end, flags);
          CoalesceKeepsTiled(t, 0, USERSPACE_LIMIT, start, end, flags);
        }
      } else if !Overlaps(t, start, end) {
        InsertKeepsTiled(t, Span(start, end, flags), 0, USERSPACE_LIMIT);
      }
    }
  }

  /** Two 4 KiB regions with a gap; asking for the gap and the second one merges the first over both. */
  lemma CreateCanOverlap()
    ensures
      var a, b := Span(0x1000, 0x2000, 1), Span(0x3000, 0x4000, 1);
      var t := Node(Leaf, a, 2, Node(Leaf, b, 1, Leaf));
      var (u, r) := Create(t, 0x2000, 0x4000, 1, true);
      Sound(t) && r == Ok && !Sound(u) && u.span == Span(0x1000, 0x4000, 1) && b in Bag(u)
  {
    var b := Span(0x3000, 0x4000, 1);
    var right := Node(Leaf, b, 1, Leaf);
    assert Avl(right) && Tiled(right, 0x2000, USERSPACE_LIMIT) && b in Bag(right);
  }

  /** Destruction keeps the tree sound and uncovers exactly the addresses of the region at `start`. */
  lemma DestroyUncovers(t: Tree, start: u64, a: int, f: u64)
    requires Sound(t) && Destroy(t, start).1 == Ok
    ensures Sound(Destroy(t, start).0)
    ensures Covers(Destroy(t, start).0, a, f)
      <==> exists s :: s in Bag(t) && s.start != start && Contains(s, a) && s.flags == f
  {
    RemoveKeepsTiled(t, start, 0, USERSPACE_LIMIT);
    TiledIsOrdered(t, 0, USERSPACE_LIMIT);
    CoversMeaning(Remove(t, start), a, f);
    forall s ensures s in Bag(Remove(t, start)) <==> s in Bag(t) && s.start != start {
      RemoveBag(t, start, -1, USERSPACE_LIMIT, s);
    }
  }

  /** A destruction is refused exactly on bad arguments; otherwise just the region at `start`, if any, is gone. */
  lemma DestroyExactly(t: Tree, start: u64, s: Span)
    requires Sound(t)
    ensures var (u, r) := Destroy(t, start);
      if start % 4096 != 0 || start >= 0x8000_0000_0000_0000 then r == BadArgs && u == t
      else r == Ok && Bag(u)[s] == if s.start == start then 0 else Bag(t)[s]
  {
    TiledIsOrdered(t, 0, USERSPACE_LIMIT);
    RemoveBag(t, start, -1, USERSPACE_LIMIT, s);
  }

  /** Destroying a region just created on its own restores the stored regions. */
  lemma CreateThenDestroy(t: Tree, start: u64, end: u64, flags: u64)
    requires Sound(t) && !BadRange(start, end) && !Overlaps(t, start, end)
    requires FindAdjacent(t, start, end, flags).None?
    ensures var u := Create(t, start, end, flags, true).0;
      Bag(u) == Bag(t) + multiset{Span(start, end, flags)} && Bag(Destroy(u, start).0) == Bag(t)
  {
    var s := Span(start, end, flags);
    var u := Insert(t, s);
    OverlapsIsScan(t, 0, USERSPACE_LIMIT, start, end);
    InsertKeepsTiled(t, s, 0, USERSPACE_LIMIT);
    TiledIsOrdered(u, 0, USERSPACE_LIMIT);
    InsertBag(t, s);
    AnyMeetsMeaning(t, start, end);
    SoundSpans(t);
    forall r ensures Bag(Remove(u, start))[r] == Bag(t)[r] {
      RemoveBag(u, start, -1, USERSPACE_LIMIT, r);
      if r in Bag(t) { assert !Meets(r, start, end); }
    }
  }

  // ---------------------------------------------------------------------------------------
  // Runs
  // ---------------------------------------------------------------------------------------

  datatype Call = CreateCall(start: u64, end: u64, flags: u64, memory: bool) | DestroyCall(at: u64)

  function Step(t: Tree, c: Call): Tree
    requires Avl(t)
  {
    match c
    case CreateCall(start, end, flags, memory) => Create(t, start, end, flags, memory).0
    case DestroyCall(at) => Destroy(t, at).0
  }

  lemma StepKeepsAvl(t: Tree, c: Call)
    requires Avl(t)
    ensures Avl(Step(t, c))
  {
    if c.CreateCall? { CoalesceKeepsShape(t, c.start, c.end, c.flags); }
  }

  function Run(t: Tree, calls: seq<Call>): (u: Tree)
    requires Avl(t)
    ensures Avl(u)
    decreases |calls|
  {
    if calls == [] then t else StepKeepsAvl(t, calls[0]); Run(Step(t, calls[0]), calls[1..])
  }

  /** Every creation of the run is a safe request at the moment it is made. */
  ghost predicate SafeRun(t: Tree, calls: seq<Call>)
    requires Avl(t)
    decreases |calls|
  {
    calls == [] ||
    (StepKeepsAvl(t, calls[0]);
     && (calls[0].CreateCall? ==> SafeRequest(t, calls[0].start, calls[0].end, calls[0].flags))
     && SafeRun(Step(t, calls[0]), calls[1..]))
  }

  /** Balance survives every run; disjointness survives every run of safe requests. */
  lemma {:induction false} RunKeepsSound(t: Tree, calls: seq<Call>)
    requires Sound(t) && SafeRun(t, calls)
    ensures Sound(Run(t, calls))
    decreases |calls|
  {
    if calls != [] {
      var c := calls[0];
      StepKeepsAvl(t, c);
      match c {
        case CreateCall(start, end, flags, memory) => CreateSoundExact(t, start, end, flags, memory);
        case DestroyCall(at) => RemoveKeepsTiled(t, at, 0, USERSPACE_LIMIT);
      }
      RunKeepsSound(Step(t, c), calls[1..]);
    }
  }
}
