/**
 The AVL tree of memory regions in kernel/structs/region_tree.c, as a value. The functions take
 the decisions the C code takes, including comparing the new start (not the child's balance)
 when an insertion rebalances. `RegionHeap` runs the same steps on heap nodes.
 */
module RegionTrees {
  import opened Machine

  const USERSPACE_LIMIT: int := 0x8000_0000_0000_0000

  /** The half-open address range of one region, with its flags. */
  datatype Span = Span(start: u64, end: u64, flags: u64)

  datatype Tree = Leaf | Node(left: Tree, span: Span, height: int, right: Tree)

  function Height(t: Tree): int {
    if t.Leaf? then 0 else t.height
  }

  function Max(a: int, b: int): int {
    if a > b then a else b
  }

  function Balance(t: Tree): int {
    if t.Leaf? then 0 else Height(t.left) - Height(t.right)
  }

  /** A node whose stored height is recomputed from its children. */
  function Join(l: Tree, s: Span, r: Tree): (t: Tree)
    ensures t.Node?
  {
    Node(l, s, Max(Height(l), Height(r)) + 1, r)
  }

  function RotateRight(t: Tree): Tree
    requires t.Node? && t.left.Node?
  {
    Join(t.left.left, t.left.span, Join(t.left.right, t.span, t.right))
  }

  function RotateLeft(t: Tree): Tree
    requires t.Node? && t.right.Node?
  {
    Join(Join(t.left, t.span, t.right.left), t.right.span, t.right.right)
  }

  predicate Acceptable(s: Span) {
    s.start < s.end <= USERSPACE_LIMIT
  }

  /** The rotations at the end of region_tree_insert, chosen by comparing start addresses. */
  function InsertFixup(t: Tree, start: u64): Tree
    requires t.Node?
    requires Balance(t) > 1 ==> t.left.Node? && (start >= t.left.span.start ==> t.left.right.Node?)
    requires Balance(t) < -1 ==> t.right.Node? && (start < t.right.span.start ==> t.right.left.Node?)
  {
    if Balance(t) > 1 && start < t.left.span.start then RotateRight(t)
    else if Balance(t) < -1 && start >= t.right.span.start then RotateLeft(t)
    else if Balance(t) > 1 then RotateRight(t.(left := RotateLeft(t.left)))
    else if Balance(t) < -1 then RotateLeft(t.(right := RotateRight(t.right)))
    else t
  }

  /** The rotations at the end of region_tree_remove, chosen by the child's balance. */
  function RemoveFixup(t: Tree): Tree
    requires t.Node?
    requires Balance(t) > 1 ==> t.left.Node? && (Balance(t.left) < 0 ==> t.left.right.Node?)
    requires Balance(t) < -1 ==> t.right.Node? && (Balance(t.right) > 0 ==> t.right.left.Node?)
  {
    if Balance(t) > 1 && Balance(t.left) >= 0 then RotateRight(t)
    else if Balance(t) > 1 then RotateRight(t.(left := RotateLeft(t.left)))
    else if Balance(t) < -1 && Balance(t.right) <= 0 then RotateLeft(t)
    else if Balance(t) < -1 then RotateLeft(t.(right := RotateRight(t.right)))
    else t
  }

  // ---------------------------------------------------------------------------------------
  // Shape: exact heights and balance
  // ---------------------------------------------------------------------------------------

  /** Stored heights are exact and siblings differ in height by at most one. */
  predicate Avl(t: Tree) {
    t.Leaf? ||
    (Avl(t.left) && Avl(t.right) && t.height == Max(Height(t.left), Height(t.right)) + 1 && -1 <= Balance(t) <= 1)
  }

  lemma {:induction false} HeightNonNegative(t: Tree)
    requires Avl(t)
    ensures Height(t) >= 0 && (Height(t) == 0 <==> t.Leaf?)
  {
    if t.Node? {
      HeightNonNegative(t.left);
      HeightNonNegative(t.right);
    }
  }

  lemma JoinAvl(l: Tree, s: Span, r: Tree)
    requires Avl(l) && Avl(r) && -1 <= Height(l) - Height(r) <= 1
    ensures Avl(Join(l, s, r))
  {
  }

  lemma SingleRight(l: Tree, s: Span, r: Tree)
    requires Avl(l) && Avl(r) && l.Node? && Height(l) == Height(r) + 2 && Balance(l) >= 0
    ensures var u := RotateRight(Join(l, s, r));
      Avl(u) && Height(u) == if Balance(l) == 0 then Height(l) + 1 else Height(l)
  {
    JoinAvl(l.right, s, r);
    JoinAvl(l.left, l.span, Join(l.right, s, r));
  }

  lemma SingleLeft(l: Tree, s: Span, r: Tree)
    requires Avl(l) && Avl(r) && r.Node? && Height(r) == Height(l) + 2 && Balance(r) <= 0
    ensures var u := RotateLeft(Join(l, s, r));
      Avl(u) && Height(u) == if Balance(r) == 0 then Height(r) + 1 else Height(r)
  {
    JoinAvl(l, s, r.left);
    JoinAvl(Join(l, s, r.left), r.span, r.right);
  }

  lemma DoubleRight(l: Tree, s: Span, r: Tree)
    requires Avl(l) && Avl(r) && l.Node? && Height(l) == Height(r) + 2 && Balance(l) < 0
    ensures l.right.Node?
    ensures var u := RotateRight(Node(RotateLeft(l), s, Join(l, s, r).height, r));
      Avl(u) && Height(u) == Height(l)
  {
    HeightNonNegative(r);
    HeightNonNegative(l.right);
    var m := l.right;
    JoinAvl(l.left, l.span, m.left);
    JoinAvl(m.right, s, r);
    JoinAvl(Join(l.left, l.span, m.left), m.span, Join(m.right, s, r));
  }

  lemma DoubleLeft(l: Tree, s: Span, r: Tree)
    requires Avl(l) && Avl(r) && r.Node? && Height(r) == Height(l) + 2 && Balance(r) > 0
    ensures r.left.Node?
    ensures var u := RotateLeft(Node(l, s, Join(l, s, r).height, RotateRight(r)));
      Avl(u) && Height(u) == Height(r)
  {
    HeightNonNegative(l);
    HeightNonNegative(r.left);
    var m := r.left;
    JoinAvl(l, s, m.left);
    JoinAvl(m.right, r.span, r.right);
    JoinAvl(Join(l, s, m.left), m.span, Join(m.right, r.span, r.right));
  }

  /** Insertion on an AVL tree; the contract carries what the caller's own rebalancing relies on. */
  function Insert(t: Tree, s: Span): (r: Tree)
    requires Avl(t) && Acceptable(s)
    ensures Avl(r) && r.Node? && Height(t) <= Height(r) <= Height(t) + 1
    ensures Height(r) > Height(t) && t.Node? ==>
      r.span == t.span && Height(r.left) - Height(r.right) == if s.start < t.span.start then 1 else -1
  {
    if t.Leaf? then Node(Leaf, s, 1, Leaf)
    else
      HeightNonNegative(t.left); HeightNonNegative(t.right);
      if s.start < t.span.start then
        var l := Insert(t.left, s);
        InsertedLeft(t, l, s.start);
        InsertFixup(Join(l, t.span, t.right), s.start)
      else
        var r := Insert(t.right, s);
        InsertedRight(t, r, s.start);
        InsertFixup(Join(t.left, t.span, r), s.start)
  }

  lemma InsertedLeft(t: Tree, l: Tree, start: u64)
    requires Avl(t) && t.Node? && Avl(l) && l.Node? && start < t.span.start
    requires Height(t.left) <= Height(l) <= Height(t.left) + 1
    requires Height(l) > Height(t.left) && t.left.Node? ==>
      l.span == t.left.span && Height(l.left) - Height(l.right) == if start < t.left.span.start then 1 else -1
    ensures var j := Join(l, t.span, t.right);
      && (Balance(j) > 1 && start >= j.left.span.start ==> j.left.right.Node?)
      && Balance(j) >= -1
      && (var r := InsertFixup(j, start);
          && Avl(r) && r.Node? && Height(t) <= Height(r) <= Height(t) + 1
          && (Height(r) > Height(t) ==> r.span == t.span && Height(r.left) - Height(r.right) == 1))
  {
    HeightNonNegative(t.left); HeightNonNegative(t.right);
    if Height(l) == Height(t.right) + 2 {
      if start < l.span.start {
        SingleRight(l, t.span, t.right);
      } else {
        DoubleRight(l, t.span, t.right);
      }
    }
  }

  lemma InsertedRight(t: Tree, r: Tree, start: u64)
    requires Avl(t) && t.Node? && Avl(r) && r.Node? && start >= t.span.start
    requires Height(t.right) <= Height(r) <= Height(t.right) + 1
    requires Height(r) > Height(t.right) && t.right.Node? ==>
      r.span == t.right.span && Height(r.left) - Height(r.right) == if start < t.right.span.start then 1 else -1
    ensures var j := Join(t.left, t.span, r);
      && (Balance(j) < -1 && start < j.right.span.start ==> j.right.left.Node?)
      && Balance(j) <= 1
      && (var u := InsertFixup(j, start);
          && Avl(u) && u.Node? && Height(t) <= Height(u) <= Height(t) + 1
          && (Height(u) > Height(t) ==> u.span == t.span && Height(u.left) - Height(u.right) == -1))
  {
    HeightNonNegative(t.left); HeightNonNegative(t.right);
    if Height(r) == Height(t.left) + 2 {
      if start >= r.span.start {
        SingleLeft(t.left, t.span, r);
      } else {
        DoubleLeft(t.left, t.span, r);
      }
    }
  }

  /** The leftmost region: min_value_node. */
  function MinSpan(t: Tree): Span
    requires t.Node?
  {
    if t.left.Leaf? then t.span else MinSpan(t.left)
  }

  /** Removal of the region that starts at `start`. */
  function Remove(t: Tree, start: u64): (r: Tree)
    requires Avl(t)
    ensures Avl(r) && Height(t) - 1 <= Height(r) <= Height(t)
  {
    if t.Leaf? then Leaf
    else
      HeightNonNegative(t.left); HeightNonNegative(t.right);
      if start < t.span.start then
        var l := Remove(t.left, start);
        RemovedFrom(t, l, t.span, t.right);
        RemoveFixup(Join(l, t.span, t.right))
      else if start > t.span.start then
        var r := Remove(t.right, start);
        RemovedFrom(t, t.left, t.span, r);
        RemoveFixup(Join(t.left, t.span, r))
      else if t.left.Leaf? then t.right
      else if t.right.Leaf? then t.left
      else
        var next := MinSpan(t.right);
        var r := Remove(t.right, next.start);
        RemovedFrom(t, t.left, next, r);
        RemoveFixup(Join(t.left, next, r))
  }

  /** One subtree lost at most one level: the fix-up restores balance and loses at most one more. */
  lemma RemovedFrom(t: Tree, l: Tree, s: Span, r: Tree)
    requires Avl(t) && t.Node? && Avl(l) && Avl(r)
    requires (l == t.left && Height(t.right) - 1 <= Height(r) <= Height(t.right)) ||
             (r == t.right && Height(t.left) - 1 <= Height(l) <= Height(t.left))
    ensures var j := Join(l, s, r);
      && (Balance(j) > 1 ==> l.Node? && (Balance(l) < 0 ==> l.right.Node?))
      && (Balance(j) < -1 ==> r.Node? && (Balance(r) > 0 ==> r.left.Node?))
      && Avl(RemoveFixup(j)) && Height(t) - 1 <= Height(RemoveFixup(j)) <= Height(t)
  {
    HeightNonNegative(l); HeightNonNegative(r);
    if Height(l) == Height(r) + 2 {
      if Balance(l) >= 0 { SingleRight(l, s, r); } else { DoubleRight(l, s, r); }
    } else if Height(r) == Height(l) + 2 {
      if Balance(r) <= 0 { SingleLeft(l, s, r); } else { DoubleLeft(l, s, r); }
    }
  }

  // ---------------------------------------------------------------------------------------
  // Height is logarithmic
  // ---------------------------------------------------------------------------------------

  function Size(t: Tree): nat {
    if t.Leaf? then 0 else Size(t.left) + 1 + Size(t.right)
  }

  /** The fewest nodes an AVL tree of height `h` can have: a Fibonacci-style recurrence. */
  function FewestNodes(h: nat): nat {
    if h == 0 then 0 else if h == 1 then 1 else FewestNodes(h - 1) + FewestNodes(h - 2) + 1
  }

  lemma {:induction false} FewestMonotone(h: nat)
    ensures FewestNodes(h) <= FewestNodes(h + 1)
  {
    if h >= 2 { FewestMonotone(h - 1); FewestMonotone(h - 2); }
  }

  lemma FewestOfSiblings(a: nat, b: nat)
    requires -1 <= a - b <= 1
    ensures FewestNodes(Max(a, b) + 1) <= FewestNodes(a) + FewestNodes(b) + 1
  {
    if a == b && a > 0 { FewestMonotone(a - 1); }
  }

  lemma {:induction false} AvlIsBushy(t: Tree)
    requires Avl(t)
    ensures Height(t) >= 0 && FewestNodes(Height(t)) <= Size(t)
  {
    HeightNonNegative(t);
    if t.Node? {
      AvlIsBushy(t.left);
      AvlIsBushy(t.right);
      FewestOfSiblings(Height(t.left), Height(t.right));
    }
  }

  lemma {:induction false} FewestGrows(h: nat)
    ensures Pow2(h / 2) <= FewestNodes(h) + 1
  {
    if h >= 2 {
      FewestGrows(h - 2);
      FewestMonotone(h - 2);
      assert h / 2 == (h - 2) / 2 + 1;
    }
  }

  /** A search path in a balanced tree is at most about twice the base-2 logarithm of its size. */
  lemma HeightIsLogarithmic(t: Tree)
    requires Avl(t)
    ensures Height(t) >= 0 && Pow2(Height(t) / 2) <= Size(t) + 1
  {
    AvlIsBushy(t);
    FewestGrows(Height(t));
  }
}
