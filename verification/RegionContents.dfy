/**
 What the region tree holds: search order, disjointness, lookup and overlap against a plain
 scan of all regions, and the effect of insertion and removal on the stored regions.
 */
module RegionContents {
  import opened Machine
  import opened RegionTrees

  /** All regions of the tree, with multiplicity. */
  ghost function Bag(t: Tree): multiset<Span> {
    if t.Leaf? then multiset{} else Bag(t.left) + multiset{t.span} + Bag(t.right)
  }

  /** Number of regions that start at `x`. */
  function StartCount(t: Tree, x: u64): nat {
    if t.Leaf? then 0 else StartCount(t.left, x) + (if t.span.start == x then 1 else 0) + StartCount(t.right, x)
  }

  /** Strict search order on start addresses, all inside the open interval (lo, hi). */
  predicate Ordered(t: Tree, lo: int, hi: int) {
    t.Leaf? || (lo < t.span.start < hi && Ordered(t.left, lo, t.span.start) && Ordered(t.right, t.span.start, hi))
  }

  /** Nonempty, pairwise disjoint regions in address order, all inside [lo, hi). */
  predicate Tiled(t: Tree, lo: int, hi: int) {
    if t.Leaf? then lo <= hi
    else t.span.start < t.span.end && Tiled(t.left, lo, t.span.start) && Tiled(t.right, t.span.end, hi)
  }

  predicate Contains(s: Span, a: int) {
    s.start <= a < s.end
  }

  predicate Meets(s: Span, start: int, end: int) {
    start < s.end && end > s.start
  }

  /** A full scan: some region covers address `a` with flags `f`. */
  predicate Covers(t: Tree, a: int, f: u64) {
    t.Node? && (Covers(t.left, a, f) || (Contains(t.span, a) && t.span.flags == f) || Covers(t.right, a, f))
  }

  lemma {:induction false} CoversMeaning(t: Tree, a: int, f: u64)
    ensures Covers(t, a, f) <==> exists s :: s in Bag(t) && Contains(s, a) && s.flags == f
  {
    if t.Node? {
      CoversMeaning(t.left, a, f);
      CoversMeaning(t.right, a, f);
      assert t.span in Bag(t);
    }
  }

  // ---------------------------------------------------------------------------------------
  // Rotations move nodes but not regions
  // ---------------------------------------------------------------------------------------

  /** Everything this module says about a tree's regions, at one choice of bounds and address. */
  ghost predicate SameRegions(t: Tree, u: Tree, lo: int, hi: int, a: int, f: u64, x: u64) {
    && Bag(t) == Bag(u)
    && StartCount(t, x) == StartCount(u, x)
    && Ordered(t, lo, hi) == Ordered(u, lo, hi)
    && Tiled(t, lo, hi) == Tiled(u, lo, hi)
    && Covers(t, a, f) == Covers(u, a, f)
  }

  lemma RotateRightBag(t: Tree)
    requires t.Node? && t.left.Node?
    ensures Bag(t) == Bag(RotateRight(t))
  {
    assert RotateRight(t).right == Join(t.left.right, t.span, t.right);
  }

  lemma RotateRightSame(t: Tree, lo: int, hi: int, a: int, f: u64, x: u64)
    requires t.Node? && t.left.Node?
    ensures SameRegions(t, RotateRight(t), lo, hi, a, f, x)
  {
    RotateRightBag(t);
    assert RotateRight(t).right == Join(t.left.right, t.span, t.right);
  }

  lemma RotateLeftSame(t: Tree, lo: int, hi: int, a: int, f: u64, x: u64)
    requires t.Node? && t.right.Node?
    ensures SameRegions(t, RotateLeft(t), lo, hi, a, f, x)
  {
    assert RotateLeft(t).left == Join(t.left, t.span, t.right.left);
  }

  lemma InsertFixupSame(t: Tree, start: u64, lo: int, hi: int, a: int, f: u64, x: u64)
    requires t.Node?
    requires Balance(t) > 1 ==> t.left.Node? && (start >= t.left.span.start ==> t.left.right.Node?)
    requires Balance(t) < -1 ==> t.right.Node? && (start < t.right.span.start ==> t.right.left.Node?)
    ensures SameRegions(t, InsertFixup(t, start), lo, hi, a, f, x)
  {
    if Balance(t) > 1 {
      if start < t.left.span.start {
        RotateRightSame(t, lo, hi, a, f, x);
      } else {
        DoubleRightSame(t, lo, hi, a, f, x);
      }
    } else if Balance(t) < -1 {
      if start >= t.right.span.start {
        RotateLeftSame(t, lo, hi, a, f, x);
      } else {
        DoubleLeftSame(t, lo, hi, a, f, x);
      }
    }
  }

  lemma RemoveFixupSame(t: Tree, lo: int, hi: int, a: int, f: u64, x: u64)
    requires t.Node?
    requires Balance(t) > 1 ==> t.left.Node? && (Balance(t.left) < 0 ==> t.left.right.Node?)
    requires Balance(t) < -1 ==> t.right.Node? && (Balance(t.right) > 0 ==> t.right.left.Node?)
    ensures SameRegions(t, RemoveFixup(t), lo, hi, a, f, x)
  {
    if Balance(t) > 1 {
      if Balance(t.left) >= 0 { RotateRightSame(t, lo, hi, a, f, x); } else { DoubleRightSame(t, lo, hi, a, f, x); }
    } else if Balance(t) < -1 {
      if Balance(t.right) <= 0 { RotateLeftSame(t, lo, hi, a, f, x); } else { DoubleLeftSame(t, lo, hi, a, f, x); }
    }
  }

  lemma DoubleRightSame(t: Tree, lo: int, hi: int, a: int, f: u64, x: u64)
    requires t.Node? && t.left.Node? && t.left.right.Node?
    ensures SameRegions(t, RotateRight(t.(left := RotateLeft(t.left))), lo, hi, a, f, x)
  {
    var u := t.(left := RotateLeft(t.left));
    RotateLeftSame(t.left, lo, t.span.start, a, f, x);
    RotateRightSame(u, lo, hi, a, f, x);
  }

  lemma DoubleLeftSame(t: Tree, lo: int, hi: int, a: int, f: u64, x: u64)
    requires t.Node? && t.right.Node? && t.right.left.Node?
    ensures SameRegions(t, RotateLeft(t.(right := RotateRight(t.right))), lo, hi, a, f, x)
  {
    var u := t.(right := RotateRight(t.right));
    RotateRightSame(t.right, t.span.start, hi, a, f, x);
    RotateRightSame(t.right, t.span.end, hi, a, f, x);
    RotateLeftSame(u, lo, hi, a, f, x);
  }

  // ---------------------------------------------------------------------------------------
  // Insertion
  // ---------------------------------------------------------------------------------------

  /** The root after the recursive call and before any rotation. */
  function InsertBelow(t: Tree, s: Span): (r: Tree)
    requires Avl(t) && Acceptable(s) && t.Node?
    ensures r.Node?
  {
    if s.start < t.span.start then Join(Insert(t.left, s), t.span, t.right)
    else Join(t.left, t.span, Insert(t.right, s))
  }

  lemma InsertUnfold(t: Tree, s: Span, lo: int, hi: int, a: int, f: u64, x: u64)
    requires Avl(t) && Acceptable(s) && t.Node?
    ensures SameRegions(InsertBelow(t, s), Insert(t, s), lo, hi, a, f, x)
  {
    if s.start < t.span.start {
      InsertedLeft(t, Insert(t.left, s), s.start);
    } else {
      InsertedRight(t, Insert(t.right, s), s.start);
    }
    InsertFixupSame(InsertBelow(t, s), s.start, lo, hi, a, f, x);
  }

  /** Insertion adds exactly one region. */
  lemma {:induction false} InsertBag(t: Tree, s: Span)
    requires Avl(t) && Acceptable(s)
    ensures Bag(Insert(t, s)) == Bag(t) + multiset{s}
  {
    if t.Node? {
      InsertUnfold(t, s, 0, 0, 0, 0, 0);
      if s.start < t.span.start { InsertBag(t.left, s); } else { InsertBag(t.right, s); }
    }
  }

  lemma {:induction false} InsertCount(t: Tree, s: Span, x: u64)
    requires Avl(t) && Acceptable(s)
    ensures StartCount(Insert(t, s), x) == StartCount(t, x) + if x == s.start then 1 else 0
  {
    if t.Node? {
      InsertUnfold(t, s, 0, 0, 0, 0, x);
      if s.start < t.span.start { InsertCount(t.left, s, x); } else { InsertCount(t.right, s, x); }
    }
  }

  lemma {:induction false} OrderedCount(t: Tree, lo: int, hi: int, x: u64)
    requires Ordered(t, lo, hi)
    ensures StartCount(t, x) <= 1 && (StartCount(t, x) == 1 ==> lo < x < hi)
  {
    if t.Node? {
      OrderedCount(t.left, lo, t.span.start, x);
      OrderedCount(t.right, t.span.start, hi, x);
    }
  }

  lemma {:induction false} InsertKeepsOrder(t: Tree, s: Span, lo: int, hi: int)
    requires Avl(t) && Acceptable(s) && Ordered(t, lo, hi) && lo < s.start < hi
    requires StartCount(t, s.start) == 0
    ensures Ordered(Insert(t, s), lo, hi)
  {
    if t.Node? {
      InsertUnfold(t, s, lo, hi, 0, 0, 0);
      var below := InsertBelow(t, s);
      assert s.start != t.span.start;
      if s.start < t.span.start {
        InsertKeepsOrder(t.left, s, lo, t.span.start);
      } else {
        InsertKeepsOrder(t.right, s, t.span.start, hi);
      }
      assert Ordered(below, lo, hi);
    } else {
      assert Insert(t, s) == Node(Leaf, s, 1, Leaf);
      assert Ordered(Leaf, lo, s.start) && Ordered(Leaf, s.start, hi);
    }
  }

  /** Insertion keeps strict order exactly when no stored region has the same start. */
  lemma InsertOrderExact(t: Tree, s: Span, lo: int, hi: int)
    requires Avl(t) && Acceptable(s) && Ordered(t, lo, hi) && lo < s.start < hi
    ensures Ordered(Insert(t, s), lo, hi) <==> StartCount(t, s.start) == 0
  {
    InsertCount(t, s, s.start);
    if Ordered(Insert(t, s), lo, hi) {
      OrderedCount(Insert(t, s), lo, hi, s.start);
    }
    if StartCount(t, s.start) == 0 {
      InsertKeepsOrder(t, s, lo, hi);
    }
  }

  /** Some stored region meets the range [start, end): a scan of every region. */
  predicate AnyMeets(t: Tree, start: int, end: int) {
    t.Node? && (AnyMeets(t.left, start, end) || Meets(t.span, start, end) || AnyMeets(t.right, start, end))
  }

  lemma {:induction false} AnyMeetsMeaning(t: Tree, start: int, end: int)
    ensures AnyMeets(t, start, end) <==> exists s :: s in Bag(t) && Meets(s, start, end)
  {
    if t.Node? {
      AnyMeetsMeaning(t.left, start, end);
      AnyMeetsMeaning(t.right, start, end);
      assert t.span in Bag(t);
    }
  }

  lemma {:induction false} InsertKeepsTiled(t: Tree, s: Span, lo: int, hi: int)
    requires Avl(t) && Acceptable(s) && Tiled(t, lo, hi) && lo <= s.start && s.end <= hi
    requires !AnyMeets(t, s.start, s.end)
    ensures Tiled(Insert(t, s), lo, hi)
  {
    if t.Node? {
      InsertUnfold(t, s, lo, hi, 0, 0, 0);
      if s.start < t.span.start {
        InsertKeepsTiled(t.left, s, lo, t.span.start);
      } else {
        InsertKeepsTiled(t.right, s, t.span.end, hi);
      }
    }
  }

  lemma {:induction false} InsertCovers(t: Tree, s: Span, a: int, f: u64)
    requires Avl(t) && Acceptable(s)
    ensures Covers(Insert(t, s), a, f) <==> Covers(t, a, f) || (Contains(s, a) && s.flags == f)
  {
    if t.Node? {
      InsertUnfold(t, s, 0, 0, a, f, 0);
      if s.start < t.span.start { InsertCovers(t.left, s, a, f); } else { InsertCovers(t.right, s, a, f); }
    }
  }

  // ---------------------------------------------------------------------------------------
  // Removal
  // ---------------------------------------------------------------------------------------

  /** The root after the recursive call and before any rotation, where there is one. */
  function RemoveBelow(t: Tree, start: u64): (r: Tree)
    requires Avl(t) && t.Node?
    ensures start != t.span.start ==> r.Node?
  {
    if start < t.span.start then Join(Remove(t.left, start), t.span, t.right)
    else if start > t.span.start then Join(t.left, t.span, Remove(t.right, start))
    else if t.left.Leaf? then t.right
    else if t.right.Leaf? then t.left
    else Join(t.left, MinSpan(t.right), Remove(t.right, MinSpan(t.right).start))
  }

  lemma RemoveUnfold(t: Tree, start: u64, lo: int, hi: int, a: int, f: u64, x: u64)
    requires Avl(t) && t.Node?
    ensures SameRegions(RemoveBelow(t, start), Remove(t, start), lo, hi, a, f, x)
  {
    if start < t.span.start {
      RemovedFrom(t, Remove(t.left, start), t.span, t.right);
      RemoveFixupSame(RemoveBelow(t, start), lo, hi, a, f, x);
    } else if start > t.span.start {
      RemovedFrom(t, t.left, t.span, Remove(t.right, start));
      RemoveFixupSame(RemoveBelow(t, start), lo, hi, a, f, x);
    } else if t.left.Node? && t.right.Node? {
      var next := MinSpan(t.right);
      RemovedFrom(t, t.left, next, Remove(t.right, next.start));
      RemoveFixupSame(RemoveBelow(t, start), lo, hi, a, f, x);
    }
  }

  lemma {:induction false} OrderedWiden(t: Tree, lo: int, hi: int, lo': int, hi': int)
    requires Ordered(t, lo, hi) && lo' <= lo && hi <= hi'
    ensures Ordered(t, lo', hi')
  {
    if t.Node? {
      OrderedWiden(t.left, lo, t.span.start, lo', t.span.start);
      OrderedWiden(t.right, t.span.start, hi, t.span.start, hi');
    }
  }

  lemma {:induction false} OrderedStarts(t: Tree, lo: int, hi: int, s: Span)
    requires Ordered(t, lo, hi) && s in Bag(t)
    ensures lo < s.start < hi
  {
    if s != t.span {
      if s in Bag(t.left) {
        OrderedStarts(t.left, lo, t.span.start, s);
      } else {
        OrderedStarts(t.right, t.span.start, hi, s);
      }
    }
  }

  lemma {:induction false} OrderedMin(t: Tree, lo: int, hi: int)
    requires Ordered(t, lo, hi) && t.Node?
    ensures lo < MinSpan(t).start < hi && MinSpan(t).start <= t.span.start && MinSpan(t) in Bag(t)
  {
    if t.left.Node? { OrderedMin(t.left, lo, t.span.start); }
  }

  lemma {:induction false} BagAtNode(t: Tree, lo: int, hi: int, s: Span)
    requires Ordered(t, lo, hi) && t.Node?
    ensures Bag(t)[s] == Bag(t.left)[s] + (if s == t.span then 1 else 0) + Bag(t.right)[s]
    ensures s.start >= t.span.start ==> Bag(t.left)[s] == 0
    ensures s.start <= t.span.start ==> Bag(t.right)[s] == 0
  {
    if s in Bag(t.left) { OrderedStarts(t.left, lo, t.span.start, s); }
    if s in Bag(t.right) { OrderedStarts(t.right, t.span.start, hi, s); }
  }

  lemma RemoveSameBag(t: Tree, start: u64)
    requires Avl(t) && t.Node?
    ensures Bag(Remove(t, start)) == Bag(RemoveBelow(t, start))
  {
    RemoveUnfold(t, start, 0, 0, 0, 0, 0);
  }

  lemma {:induction false} LeftBag(t: Tree, lo: int, hi: int, l: Tree, start: u64, s: Span)
    requires Ordered(t, lo, hi) && t.Node? && start < t.span.start
    requires Bag(l)[s] == if s.start == start then 0 else Bag(t.left)[s]
    ensures Bag(Join(l, t.span, t.right))[s] == if s.start == start then 0 else Bag(t)[s]
  {
    BagAtNode(t, lo, hi, s);
    BagOfJoin(l, t.span, t.right, s);
  }

  lemma {:induction false} RightBag(t: Tree, lo: int, hi: int, r: Tree, start: u64, s: Span)
    requires Ordered(t, lo, hi) && t.Node? && start > t.span.start
    requires Bag(r)[s] == if s.start == start then 0 else Bag(t.right)[s]
    ensures Bag(Join(t.left, t.span, r))[s] == if s.start == start then 0 else Bag(t)[s]
  {
    BagAtNode(t, lo, hi, s);
    BagOfJoin(t.left, t.span, r, s);
  }

  /** In a strictly ordered tree, removal takes out the region with that start and nothing else. */
  lemma {:induction false} RemoveBag(t: Tree, start: u64, lo: int, hi: int, s: Span)
    requires Avl(t) && Ordered(t, lo, hi)
    ensures Bag(Remove(t, start))[s] == if s.start == start then 0 else Bag(t)[s]
  {
    if t.Node? {
      RemoveSameBag(t, start);
      if start < t.span.start {
        RemoveBag(t.left, start, lo, t.span.start, s);
        LeftBag(t, lo, hi, Remove(t.left, start), start, s);
      } else if start > t.span.start {
        RemoveBag(t.right, start, t.span.start, hi, s);
        RightBag(t, lo, hi, Remove(t.right, start), start, s);
      } else if t.left.Node? && t.right.Node? {
        var next := MinSpan(t.right);
        RemoveBag(t.right, next.start, t.span.start, hi, s);
        SuccessorBag(t, lo, hi, Remove(t.right, next.start), s);
      } else {
        BagAtNode(t, lo, hi, s);
      }
    }
  }

  /** Copying the successor over the removed region and deleting it below loses nothing else. */
  lemma {:induction false} SuccessorBag(t: Tree, lo: int, hi: int, r: Tree, s: Span)
    requires Ordered(t, lo, hi) && t.Node? && t.right.Node?
    requires Bag(r)[s] == if s.start == MinSpan(t.right).start then 0 else Bag(t.right)[s]
    ensures Bag(Join(t.left, MinSpan(t.right), r))[s] == if s.start == t.span.start then 0 else Bag(t)[s]
  {
    var next := MinSpan(t.right);
    BagAtNode(t, lo, hi, s);
    BagOfJoin(t.left, next, r, s);
    OrderedMin(t.right, t.span.start, hi);
    if s.start == next.start {
      OrderedUnique(t.right, t.span.start, hi, next, s);
    }
  }

  lemma {:induction false} BagOfJoin(l: Tree, m: Span, r: Tree, s: Span)
    ensures Bag(Join(l, m, r))[s] == Bag(l)[s] + (if s == m then 1 else 0) + Bag(r)[s]
  {
  }

  lemma {:induction false} OrderedUnique(t: Tree, lo: int, hi: int, r: Span, s: Span)
    requires Ordered(t, lo, hi) && r in Bag(t) && r.start == s.start
    ensures Bag(t)[s] == if s == r then 1 else 0
  {
    forall u | u in Bag(t.left) ensures u.start < t.span.start { OrderedStarts(t.left, lo, t.span.start, u); }
    forall u | u in Bag(t.right) ensures t.span.start < u.start { OrderedStarts(t.right, t.span.start, hi, u); }
    if r in Bag(t.left) {
      OrderedUnique(t.left, lo, t.span.start, r, s);
    } else if r in Bag(t.right) {
      OrderedUnique(t.right, t.span.start, hi, r, s);
    }
  }

  lemma {:induction false} RemoveKeepsOrder(t: Tree, start: u64, lo: int, hi: int)
    requires Avl(t) && Ordered(t, lo, hi)
    ensures Ordered(Remove(t, start), lo, hi)
    ensures t.Node? && start == MinSpan(t).start ==> Ordered(Remove(t, start), start, hi)
  {
    if t.Node? {
      OrderedMin(t, lo, hi);
      RemoveUnfold(t, start, lo, hi, 0, 0, 0);
      RemoveUnfold(t, start, start, hi, 0, 0, 0);
      if start < t.span.start {
        RemoveKeepsOrder(t.left, start, lo, t.span.start);
      } else if start > t.span.start {
        RemoveKeepsOrder(t.right, start, t.span.start, hi);
      } else if t.left.Leaf? {
        OrderedWiden(t.right, t.span.start, hi, lo, hi);
      } else if t.right.Leaf? {
        OrderedMin(t.left, lo, t.span.start);
        OrderedWiden(t.left, lo, t.span.start, lo, hi);
      } else {
        var next := MinSpan(t.right);
        OrderedMin(t.left, lo, t.span.start);
        OrderedMin(t.right, t.span.start, hi);
        RemoveKeepsOrder(t.right, next.start, t.span.start, hi);
        OrderedWiden(t.left, lo, t.span.start, lo, next.start);
      }
    }
  }

  lemma {:induction false} TiledBounds(t: Tree, lo: int, hi: int)
    requires Tiled(t, lo, hi)
    ensures lo <= hi
    ensures t.Node? ==> lo <= MinSpan(t).start <= t.span.start && MinSpan(t).start < MinSpan(t).end <= hi
    ensures t.Node? && t.left.Node? ==> MinSpan(t).end <= t.span.start
  {
    if t.Node? {
      TiledBounds(t.left, lo, t.span.start);
      TiledBounds(t.right, t.span.end, hi);
    }
  }

  lemma {:induction false} TiledWiden(t: Tree, lo: int, hi: int, lo': int, hi': int)
    requires Tiled(t, lo, hi) && lo' <= lo && hi <= hi'
    ensures Tiled(t, lo', hi')
  {
    if t.Node? {
      TiledWiden(t.left, lo, t.span.start, lo', t.span.start);
      TiledWiden(t.right, t.span.end, hi, t.span.end, hi');
    }
  }

  /** Disjoint regions have distinct, ordered starts. */
  lemma {:induction false} TiledIsOrdered(t: Tree, lo: int, hi: int)
    requires Tiled(t, lo, hi)
    ensures Ordered(t, lo - 1, hi)
  {
    if t.Node? {
      TiledBounds(t.left, lo, t.span.start);
      TiledBounds(t.right, t.span.end, hi);
      TiledIsOrdered(t.left, lo, t.span.start);
      TiledIsOrdered(t.right, t.span.end, hi);
      OrderedWiden(t.right, t.span.end - 1, hi, t.span.start, hi);
    }
  }

  lemma {:induction false} RemoveKeepsTiled(t: Tree, start: u64, lo: int, hi: int)
    requires Avl(t) && Tiled(t, lo, hi)
    ensures Tiled(Remove(t, start), lo, hi)
    ensures t.Node? && start == MinSpan(t).start ==> Tiled(Remove(t, start), MinSpan(t).end, hi)
  {
    if t.Node? {
      TiledBounds(t, lo, hi);
      TiledBounds(t.left, lo, t.span.start);
      TiledBounds(t.right, t.span.end, hi);
      RemoveUnfold(t, start, lo, hi, 0, 0, 0);
      RemoveUnfold(t, start, MinSpan(t).end, hi, 0, 0, 0);
      if start < t.span.start {
        RemoveKeepsTiled(t.left, start, lo, t.span.start);
      } else if start > t.span.start {
        RemoveKeepsTiled(t.right, start, t.span.end, hi);
      } else if t.left.Leaf? {
        TiledWiden(t.right, t.span.end, hi, lo, hi);
      } else if t.right.Leaf? {
        TiledWiden(t.left, lo, t.span.start, lo, hi);
      } else {
        var next := MinSpan(t.right);
        RemoveKeepsTiled(t.right, next.start, t.span.end, hi);
        TiledWiden(t.left, lo, t.span.start, lo, next.start);
      }
    }
  }

  // ---------------------------------------------------------------------------------------
  // Searches
  // ---------------------------------------------------------------------------------------

  /** region_tree_lookup. */
  function Lookup(t: Tree, a: int): Option<Span> {
    if t.Leaf? then None
    else if a < t.span.start then Lookup(t.left, a)
    else if a >= t.span.end then Lookup(t.right, a)
    else Some(t.span)
  }

  lemma {:induction false} TiledInside(t: Tree, lo: int, hi: int, s: Span)
    requires Tiled(t, lo, hi) && s in Bag(t)
    ensures lo <= s.start < s.end <= hi
  {
    TiledBounds(t.left, lo, t.span.start);
    TiledBounds(t.right, t.span.end, hi);
    if s != t.span {
      if s in Bag(t.left) {
        TiledInside(t.left, lo, t.span.start, s);
      } else {
        TiledInside(t.right, t.span.end, hi, s);
      }
    }
  }

  /** On disjoint regions the search finds precisely the region that contains the address. */
  lemma {:induction false} LookupIsScan(t: Tree, lo: int, hi: int, a: int, s: Span)
    requires Tiled(t, lo, hi)
    ensures Lookup(t, a) == Some(s) <==> s in Bag(t) && Contains(s, a)
  {
    if t.Node? {
      LookupIsScan(t.left, lo, t.span.start, a, s);
      LookupIsScan(t.right, t.span.end, hi, a, s);
      if s in Bag(t.left) { TiledInside(t.left, lo, t.span.start, s); }
      if s in Bag(t.right) { TiledInside(t.right, t.span.end, hi, s); }
    }
  }

  /** region_tree_overlaps. */
  predicate Overlaps(t: Tree, start: int, end: int) {
    t.Node? &&
    if Meets(t.span, start, end) then true
    else if end <= t.span.start then Overlaps(t.left, start, end)
    else Overlaps(t.right, start, end)
  }

  lemma {:induction false} OutsideMeetsNothing(t: Tree, lo: int, hi: int, start: int, end: int)
    requires Tiled(t, lo, hi) && (end <= lo || hi <= start)
    ensures !AnyMeets(t, start, end)
  {
    if t.Node? {
      TiledBounds(t.left, lo, t.span.start);
      TiledBounds(t.right, t.span.end, hi);
      OutsideMeetsNothing(t.left, lo, t.span.start, start, end);
      OutsideMeetsNothing(t.right, t.span.end, hi, start, end);
    }
  }

  /** On disjoint regions the guided overlap search agrees with a scan of all regions. */
  lemma {:induction false} OverlapsIsScan(t: Tree, lo: int, hi: int, start: int, end: int)
    requires Tiled(t, lo, hi) && start < end
    ensures Overlaps(t, start, end) <==> AnyMeets(t, start, end)
  {
    if t.Node? && !Meets(t.span, start, end) {
      if end <= t.span.start {
        OverlapsIsScan(t.left, lo, t.span.start, start, end);
        OutsideMeetsNothing(t.right, t.span.end, hi, start, end);
      } else {
        OverlapsIsScan(t.right, t.span.end, hi, start, end);
        OutsideMeetsNothing(t.left, lo, t.span.start, start, end);
      }
    }
  }
}
