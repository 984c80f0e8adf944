/**
 The region tree on heap nodes, as the kernel keeps it: rotations, insertion and removal rewrite
 the links, heights and bounds of `Region` objects in place. Each method is proved to do to the
 represented tree what the corresponding function of `RegionTrees` does, touching only the nodes
 of the tree it is given.
 */
module RegionHeap {
  import opened Machine
  import opened RegionTrees
  import opened RegionContents
  import opened RegionSyscalls

  class Region {
    var start: u64
    var end: u64
    var flags: u64
    var left: Region?
    var right: Region?
    var height: int

    constructor (start: u64, end: u64, flags: u64)
      ensures this.start == start && this.end == end && this.flags == flags
      ensures left == null && right == null && height == 1
    {
      this.start, this.end, this.flags := start, end, flags;
      left, right, height := null, null, 1;
    }
  }

  /** Which node sits where: the tree of node references. */
  datatype Shape = Nil | Cell(left: Shape, node: Region, right: Shape)

  ghost function Nodes(s: Shape): set<Region> {
    match s
    case Nil => {}
    case Cell(l, n, r) => Nodes(l) + {n} + Nodes(r)
  }

  /** The links below `root` form the tree `s`, with no node used twice. */
  ghost predicate Linked(root: Region?, s: Shape)
    reads Nodes(s)
  {
    match s
    case Nil => root == null
    case Cell(l, n, r) =>
      && root == n
      && n !in Nodes(l) && n !in Nodes(r) && Nodes(l) !! Nodes(r)
      && Linked(n.left, l) && Linked(n.right, r)
  }

  ghost function SpanOf(n: Region): Span
    reads n
  {
    Span(n.start, n.end, n.flags)
  }

  /** The tree value stored in the nodes of `s`. */
  ghost function Value(s: Shape): Tree
    reads Nodes(s)
  {
    match s
    case Nil => Leaf
    case Cell(l, n, r) => Node(Value(l), SpanOf(n), n.height, Value(r))
  }

  function HeightOf(n: Region?): int
    reads n
  {
    if n == null then 0 else n.height
  }

  lemma HeightAgrees(n: Region?, s: Shape)
    requires Linked(n, s)
    ensures HeightOf(n) == Height(Value(s))
  {
  }

  lemma {:induction false} NodesAllocated(s: Shape)
    ensures forall n :: n in Nodes(s) ==> allocated(n)
  {
    match s
    case Nil =>
    case Cell(l, n, r) =>
      NodesAllocated(l);
      NodesAllocated(r);
  }

  method RotateRightAt(y: Region, ghost s: Shape) returns (x: Region, ghost s': Shape)
    requires Linked(y, s) && s.left.Cell?
    modifies Nodes(s)
    ensures Linked(x, s') && Nodes(s') == Nodes(s)
    ensures old(Value(s).left.Node?) && Value(s') == RotateRight(old(Value(s)))
  {
    ghost var a, b, c := s.left.left, s.left.right, s.right;
    HeightAgrees(y.left.left, a);
    HeightAgrees(y.left.right, b);
    HeightAgrees(y.right, c);
    x := y.left;
    var t2 := x.right;
    x.right := y;
    y.left := t2;
    y.height := Max(HeightOf(y.left), HeightOf(y.right)) + 1;
    x.height := Max(HeightOf(x.left), HeightOf(x.right)) + 1;
    s' := Cell(a, x, Cell(b, y, c));
    assert Linked(y, s'.right);
    assert Value(a) == old(Value(a)) && Value(b) == old(Value(b)) && Value(c) == old(Value(c));
    assert Value(s'.right) == Join(old(Value(b)), old(SpanOf(y)), old(Value(c)));
  }

  method RotateLeftAt(x: Region, ghost s: Shape) returns (y: Region, ghost s': Shape)
    requires Linked(x, s) && s.right.Cell?
    modifies Nodes(s)
    ensures Linked(y, s') && Nodes(s') == Nodes(s)
    ensures old(Value(s).right.Node?) && Value(s') == RotateLeft(old(Value(s)))
  {
    ghost var a, b, c := s.left, s.right.left, s.right.right;
    HeightAgrees(x.left, a);
    HeightAgrees(x.right.left, b);
    HeightAgrees(x.right.right, c);
    y := x.right;
    var t2 := y.left;
    y.left := x;
    x.right := t2;
    x.height := Max(HeightOf(x.left), HeightOf(x.right)) + 1;
    y.height := Max(HeightOf(y.left), HeightOf(y.right)) + 1;
    s' := Cell(Cell(a, x, b), y, c);
    assert Linked(x, s'.left);
    assert Value(a) == old(Value(a)) && Value(b) == old(Value(b)) && Value(c) == old(Value(c));
    assert Value(s'.left) == Join(old(Value(a)), old(SpanOf(x)), old(Value(b)));
  }

  /** `node->left = rotate_left(node->left); return rotate_right(node);` */
  method DoubleRotateRight(n: Region, ghost s: Shape) returns (root: Region, ghost s': Shape)
    requires Linked(n, s) && s.left.Cell? && s.left.right.Cell?
    modifies Nodes(s)
    ensures Linked(root, s') && Nodes(s') == Nodes(s)
    ensures old(Value(s).left.Node? && Value(s).left.right.Node?)
    ensures Value(s') == RotateRight(old(Value(s)).(left := RotateLeft(old(Value(s).left))))
  {
    NodesAllocated(s);
    ghost var t := Value(s);
    assert Value(s.left).right == Value(s.left.right) && Value(s.left.right).Node?;
    var l, ls := RotateLeftAt(n.left, s.left);
    n.left := l;
    ghost var mid := Cell(ls, n, s.right);
    assert Linked(n, mid);
    assert Value(mid) == t.(left := RotateLeft(t.left));
    root, s' := RotateRightAt(n, mid);
  }

  /** `node->right = rotate_right(node->right); return rotate_left(node);` */
  method DoubleRotateLeft(n: Region, ghost s: Shape) returns (root: Region, ghost s': Shape)
    requires Linked(n, s) && s.right.Cell? && s.right.left.Cell?
    modifies Nodes(s)
    ensures Linked(root, s') && Nodes(s') == Nodes(s)
    ensures old(Value(s).right.Node? && Value(s).right.left.Node?)
    ensures Value(s') == RotateLeft(old(Value(s)).(right := RotateRight(old(Value(s).right))))
  {
    NodesAllocated(s);
    ghost var t := Value(s);
    assert Value(s.right).left == Value(s.right.left) && Value(s.right.left).Node?;
    var r, rs := RotateRightAt(n.right, s.right);
    n.right := r;
    ghost var mid := Cell(s.left, n, rs);
    assert Linked(n, mid);
    assert Value(mid) == t.(right := RotateRight(t.right));
    root, s' := RotateLeftAt(n, mid);
  }

  /** The four rotation cases at the end of region_tree_insert. */
  method FixAfterInsert(n: Region, start: u64, ghost s: Shape) returns (root: Region, ghost s': Shape)
    requires Linked(n, s)
    requires var t := Value(s);
      && (Balance(t) > 1 ==> t.left.Node? && (start >= t.left.span.start ==> t.left.right.Node?))
      && (Balance(t) < -1 ==> t.right.Node? && (start < t.right.span.start ==> t.right.left.Node?))
    modifies Nodes(s)
    ensures Linked(root, s') && Nodes(s') == Nodes(s)
    ensures Value(s') == InsertFixup(old(Value(s)), start)
  {
    HeightAgrees(n.left, s.left);
    HeightAgrees(n.right, s.right);
    var balance := HeightOf(n.left) - HeightOf(n.right);
    if balance > 1 && start < n.left.start {
      root, s' := RotateRightAt(n, s);
    } else if balance < -1 && start >= n.right.start {
      root, s' := RotateLeftAt(n, s);
    } else if balance > 1 {
      root, s' := DoubleRotateRight(n, s);
    } else if balance < -1 {
      root, s' := DoubleRotateLeft(n, s);
    } else {
      root, s' := n, s;
    }
  }

  /** region_tree_insert: links `region` into the tree below `n` and rebalances on the way up. */
  method InsertNode(n: Region?, region: Region, ghost s: Shape) returns (root: Region?, ghost s': Shape)
    requires Linked(n, s) && Avl(Value(s))
    requires region !in Nodes(s) && region.left == null && region.right == null && region.height == 1
    modifies Nodes(s), region
    ensures Linked(root, s')
    ensures Acceptable(old(SpanOf(region))) ==>
      Nodes(s') == Nodes(s) + {region} && Value(s') == Insert(old(Value(s)), old(SpanOf(region)))
    ensures !Acceptable(old(SpanOf(region))) ==> s' == s && Value(s') == old(Value(s))
    decreases s
  {
    if region.end <= region.start || region.end > USERSPACE_LIMIT {
      return n, s;
    }
    if n == null {
      s' := Cell(Nil, region, Nil);
      return region, s';
    }
    ghost var t := Value(s);
    ghost var span := SpanOf(region);
    var start := region.start;
    HeightNonNegative(t.left);
    HeightNonNegative(t.right);
    NodesAllocated(s);
    ghost var mid;
    if region.start < n.start {
      InsertedLeft(t, Insert(t.left, span), span.start);
      mid := InsertBelowLeft(n, region, s);
    } else {
      InsertedRight(t, Insert(t.right, span), span.start);
      mid := InsertBelowRight(n, region, s);
    }
    root, s' := FixAfterInsert(n, start, mid);
  }

  method InsertBelowLeft(n: Region, region: Region, ghost s: Shape) returns (ghost mid: Shape)
    requires Linked(n, s) && Avl(Value(s)) && Acceptable(SpanOf(region)) && region.start < n.start
    requires region !in Nodes(s) && region.left == null && region.right == null && region.height == 1
    modifies Nodes(s), region
    ensures Linked(n, mid) && Nodes(mid) == Nodes(s) + {region}
    ensures Value(mid) == Join(Insert(old(Value(s.left)), old(SpanOf(region))), old(SpanOf(n)), old(Value(s.right)))
    decreases s, 0
  {
    NodesAllocated(s.right);
    var l, ls := InsertNode(n.left, region, s.left);
    mid := AttachLeft(n, l, ls, s.right);
  }

  method InsertBelowRight(n: Region, region: Region, ghost s: Shape) returns (ghost mid: Shape)
    requires Linked(n, s) && Avl(Value(s)) && Acceptable(SpanOf(region)) && region.start >= n.start
    requires region !in Nodes(s) && region.left == null && region.right == null && region.height == 1
    modifies Nodes(s), region
    ensures Linked(n, mid) && Nodes(mid) == Nodes(s) + {region}
    ensures Value(mid) == Join(old(Value(s.left)), old(SpanOf(n)), Insert(old(Value(s.right)), old(SpanOf(region))))
    decreases s, 0
  {
    NodesAllocated(s.left);
    var r, rs := InsertNode(n.right, region, s.right);
    mid := AttachRight(n, s.left, r, rs);
  }

  /** Makes `l` the left child of `n` and recomputes the height of `n`. */
  method AttachLeft(n: Region, l: Region?, ghost ls: Shape, ghost rs: Shape) returns (ghost s: Shape)
    requires Linked(l, ls) && Linked(n.right, rs)
    requires n !in Nodes(ls) && n !in Nodes(rs) && Nodes(ls) !! Nodes(rs)
    modifies n`left, n`height
    ensures s == Cell(ls, n, rs) && Linked(n, s)
    ensures Value(s) == Join(old(Value(ls)), old(SpanOf(n)), old(Value(rs)))
  {
    HeightAgrees(l, ls);
    HeightAgrees(n.right, rs);
    n.left := l;
    n.height := 1 + Max(HeightOf(n.left), HeightOf(n.right));
    s := Cell(ls, n, rs);
  }

  method AttachRight(n: Region, ghost ls: Shape, r: Region?, ghost rs: Shape) returns (ghost s: Shape)
    requires Linked(n.left, ls) && Linked(r, rs)
    requires n !in Nodes(ls) && n !in Nodes(rs) && Nodes(ls) !! Nodes(rs)
    modifies n`right, n`height
    ensures s == Cell(ls, n, rs) && Linked(n, s)
    ensures Value(s) == Join(old(Value(ls)), old(SpanOf(n)), old(Value(rs)))
  {
    HeightAgrees(n.left, ls);
    HeightAgrees(r, rs);
    n.right := r;
    n.height := 1 + Max(HeightOf(n.left), HeightOf(n.right));
    s := Cell(ls, n, rs);
  }

  // ---------------------------------------------------------------------------------------
  // Removal
  // ---------------------------------------------------------------------------------------

  /** The four rotation cases at the end of region_tree_remove. */
  method FixAfterRemove(n: Region, ghost s: Shape) returns (root: Region, ghost s': Shape)
    requires Linked(n, s)
    requires var t := Value(s);
      && (Balance(t) > 1 ==> t.left.Node? && (Balance(t.left) < 0 ==> t.left.right.Node?))
      && (Balance(t) < -1 ==> t.right.Node? && (Balance(t.right) > 0 ==> t.right.left.Node?))
    modifies Nodes(s)
    ensures Linked(root, s') && Nodes(s') == Nodes(s)
    ensures Value(s') == RemoveFixup(old(Value(s)))
  {
    var balance := BalanceOf(n, s);
    if balance > 1 {
      assert Value(s.left).right == Value(s.left.right);
      var below := BalanceOf(n.left, s.left);
      if below >= 0 { root, s' := RotateRightAt(n, s); } else { root, s' := DoubleRotateRight(n, s); }
    } else if balance < -1 {
      assert Value(s.right).left == Value(s.right.left);
      var below := BalanceOf(n.right, s.right);
      if below <= 0 { root, s' := RotateLeftAt(n, s); } else { root, s' := DoubleRotateLeft(n, s); }
    } else {
      root, s' := n, s;
    }
  }

  function BalanceOf(n: Region, ghost s: Shape): (b: int)
    requires Linked(n, s)
    reads Nodes(s)
    ensures b == Balance(Value(s))
  {
    HeightAgrees(n.left, s.left);
    HeightAgrees(n.right, s.right);
    HeightOf(n.left) - HeightOf(n.right)
  }

  /** min_value_node. */
  method MinNode(n: Region, ghost s: Shape) returns (m: Region)
    requires Linked(n, s)
    ensures m in Nodes(s) && SpanOf(m) == MinSpan(Value(s))
  {
    m := n;
    ghost var cur := s;
    while m.left != null
      invariant Linked(m, cur) && Nodes(cur) <= Nodes(s)
      invariant MinSpan(Value(cur)) == MinSpan(Value(s))
      decreases cur
    {
      m := m.left;
      cur := cur.left;
    }
  }

  /** region_tree_remove. */
  method RemoveNode(n: Region?, start: u64, ghost s: Shape) returns (root: Region?, ghost s': Shape)
    requires Linked(n, s) && Avl(Value(s))
    modifies Nodes(s)
    ensures Linked(root, s') && Nodes(s') <= Nodes(s)
    ensures Value(s') == Remove(old(Value(s)), start)
    decreases s, 2
  {
    if n == null {
      return null, s;
    }
    ghost var t := Value(s);
    HeightNonNegative(t.left);
    HeightNonNegative(t.right);
    ghost var mid;
    if start < n.start {
      RemovedFrom(t, Remove(t.left, start), t.span, t.right);
      mid := RemoveBelowLeft(n, start, s);
    } else if start > n.start {
      RemovedFrom(t, t.left, t.span, Remove(t.right, start));
      mid := RemoveBelowRight(n, start, s);
    } else if n.left == null || n.right == null {
      if n.left != null {
        return n.left, s.left;
      } else {
        return n.right, s.right;
      }
    } else {
      RemovedFrom(t, t.left, MinSpan(t.right), Remove(t.right, MinSpan(t.right).start));
      mid := ReplaceBySuccessor(n, s);
    }
    root, s' := FixAfterRemove(n, mid);
  }

  method RemoveBelowLeft(n: Region, start: u64, ghost s: Shape) returns (ghost mid: Shape)
    requires Linked(n, s) && Avl(Value(s))
    modifies Nodes(s)
    ensures Linked(n, mid) && Nodes(mid) <= Nodes(s)
    ensures Value(mid) == Join(Remove(old(Value(s.left)), start), old(SpanOf(n)), old(Value(s.right)))
    decreases s, 0
  {
    NodesAllocated(s.right);
    var l, ls := RemoveNode(n.left, start, s.left);
    mid := AttachLeft(n, l, ls, s.right);
  }

  method RemoveBelowRight(n: Region, start: u64, ghost s: Shape) returns (ghost mid: Shape)
    requires Linked(n, s) && Avl(Value(s))
    modifies Nodes(s)
    ensures Linked(n, mid) && Nodes(mid) <= Nodes(s)
    ensures Value(mid) == Join(old(Value(s.left)), old(SpanOf(n)), Remove(old(Value(s.right)), start))
    decreases s, 0
  {
    NodesAllocated(s.left);
    var r, rs := RemoveNode(n.right, start, s.right);
    mid := AttachRight(n, s.left, r, rs);
  }

  /** Two children: copy the successor's region over this node and remove it from the right subtree. */
  method ReplaceBySuccessor(n: Region, ghost s: Shape) returns (ghost mid: Shape)
    requires Linked(n, s) && Avl(Value(s)) && n.right != null
    modifies Nodes(s)
    ensures Linked(n, mid) && Nodes(mid) <= Nodes(s)
    ensures s.right.Cell? && old(Value(s.right)).Node?
    ensures var right := old(Value(s.right));
      Value(mid) == Join(old(Value(s.left)), MinSpan(right), Remove(right, MinSpan(right).start))
    decreases s, 1
  {
    CopySuccessor(n, s);
    mid := RemoveBelowRight(n, n.start, s);
  }

  method CopySuccessor(n: Region, ghost s: Shape)
    requires Linked(n, s) && n.right != null
    modifies n`start, n`end, n`flags
    ensures Linked(n, s) && s.right.Cell?
    ensures Value(s.left) == old(Value(s.left)) && Value(s.right) == old(Value(s.right))
    ensures Value(s) == Node(old(Value(s.left)), MinSpan(old(Value(s.right))), old(n.height), old(Value(s.right)))
  {
    NodesAllocated(s.left);
    NodesAllocated(s.right);
    var temp := MinNode(n.right, s.right);
    assert Value(s.left) == old(Value(s.left)) && Value(s.right) == old(Value(s.right));
    n.start, n.end, n.flags := temp.start, temp.end, temp.flags;
  }

  // ---------------------------------------------------------------------------------------
  // Searches
  // ---------------------------------------------------------------------------------------

  /** region_tree_lookup. */
  method LookupNode(n: Region?, addr: u64, ghost s: Shape) returns (found: Region?)
    requires Linked(n, s)
    ensures Lookup(Value(s), addr) == if found == null then None else Some(SpanOf(found))
    ensures found != null ==> found in Nodes(s)
  {
    found := n;
    ghost var cur := s;
    while found != null && !(found.start <= addr < found.end)
      invariant Linked(found, cur) && Nodes(cur) <= Nodes(s)
      invariant Lookup(Value(cur), addr) == Lookup(Value(s), addr)
      decreases cur
    {
      if addr < found.start {
        found, cur := found.left, cur.left;
      } else {
        found, cur := found.right, cur.right;
      }
    }
  }

  /** region_tree_overlaps. */
  method OverlapsNode(n: Region?, start: u64, end: u64, ghost s: Shape) returns (hit: bool)
    requires Linked(n, s)
    ensures hit == Overlaps(Value(s), start, end)
  {
    var node := n;
    ghost var cur := s;
    while node != null
      invariant Linked(node, cur)
      invariant Overlaps(Value(cur), start, end) == Overlaps(Value(s), start, end)
      decreases cur
    {
      if start < node.end && end > node.start {
        return true;
      }
      if end <= node.start {
        node, cur := node.left, cur.left;
      } else {
        node, cur := node.right, cur.right;
      }
    }
    return false;
  }

  /** The node at which the adjacency search stops with a hit. */
  ghost function Locate(s: Shape, start: u64, end: u64, flags: u64): (n: Region?)
    reads Nodes(s)
    ensures n != null ==> n in Nodes(s) && Touches(SpanOf(n), start, end, flags)
    ensures FindAdjacent(Value(s), start, end, flags) == if n == null then None else Some(SpanOf(n))
  {
    match s
    case Nil => null
    case Cell(l, n, r) =>
      if Touches(SpanOf(n), start, end, flags) then n
      else if end <= n.start then Locate(l, start, end, flags)
      else if start >= n.end then Locate(r, start, end, flags)
      else null
  }

  /** region_tree_find_adjacent. */
  method FindAdjacentNode(n: Region?, start: u64, end: u64, flags: u64, ghost s: Shape) returns (found: Region?)
    requires Linked(n, s)
    ensures found == Locate(s, start, end, flags)
  {
    found := n;
    ghost var cur := s;
    while found != null
      invariant Linked(found, cur)
      invariant Locate(cur, start, end, flags) == Locate(s, start, end, flags)
      decreases cur
    {
      if end == found.start && flags == found.flags {
        return;
      }
      if start == found.end && flags == found.flags {
        return;
      }
      if end <= found.start {
        found, cur := found.left, cur.left;
      } else if start >= found.end {
        found, cur := found.right, cur.right;
      } else {
        return null;
      }
    }
  }

  ghost function Top(s: Shape): Region? {
    if s.Nil? then null else s.node
  }

  /** Extending the located node's bounds, and nothing else, coalesces the represented tree. */
  twostate lemma {:induction false} ExtendInPlace(s: Shape, new start: u64, new end: u64, new flags: u64)
    requires old(Linked(Top(s), s)) && old(Locate(s, start, end, flags)) != null
    requires forall n :: n in Nodes(s) ==> old(allocated(n))
    requires var x := old(Locate(s, start, end, flags));
      && x.left == old(x.left) && x.right == old(x.right) && x.height == old(x.height)
      && SpanOf(x) == Extend(old(SpanOf(x)), start, end)
      && forall n :: n in Nodes(s) && n != x ==> unchanged(n)
    ensures Linked(Top(s), s)
    ensures Value(s) == Coalesce(old(Value(s)), start, end, flags)
  {
    var Cell(l, n, r) := s;
    if old(Touches(SpanOf(n), start, end, flags)) {
      assert Linked(n.left, l) && Linked(n.right, r);
      assert Value(l) == old(Value(l)) && Value(r) == old(Value(r));
    } else if end <= old(n.start) {
      ExtendInPlace(l, start, end, flags);
      assert Linked(n.right, r) && Value(r) == old(Value(r));
    } else {
      ExtendInPlace(r, start, end, flags);
      assert Linked(n.left, l) && Value(l) == old(Value(l));
    }
  }

  /** The part of a process that the region system calls touch. */
  class Process {
    var regions: Region?
    ghost var shape: Shape

    ghost predicate Valid()
      reads this, Nodes(shape)
    {
      Linked(regions, shape) && Avl(Value(shape))
    }

    constructor ()
      ensures Valid() && Value(shape) == Leaf && Nodes(shape) == {}
    {
      regions, shape := null, Nil;
    }

    /** The create_region system call. */
    method CreateRegion(start: u64, end: u64, flags: u64, memory: bool) returns (result: Result)
      requires Valid()
      modifies this, Nodes(shape)
      ensures Valid() && fresh(Nodes(shape) - old(Nodes(shape)))
      ensures (Value(shape), result) == Create(old(Value(shape)), start, end, flags, memory)
    {
      if start % PAGE_SIZE != 0 || end % PAGE_SIZE != 0 || end <= start
        || start >= USERSPACE_LIMIT || end > USERSPACE_LIMIT
      {
        return BadArgs;
      }
      ghost var t := Value(shape);
      NodesAllocated(shape);
      var adjacent := FindAdjacentNode(regions, start, end, flags, shape);
      if adjacent != null {
        assert adjacent in Nodes(shape);
        ExtendRegion(adjacent, start, end, flags);
        return Ok;
      }
      var overlaps := OverlapsNode(regions, start, end, shape);
      assert Nodes(shape) - old(Nodes(shape)) == {};
      if overlaps {
        return Ok;
      }
      if !memory {
        return Failure;
      }
      label before:
      InsertRegion(start, end, flags);
      forall n | n in Nodes(shape) && n !in old(Nodes(shape)) ensures fresh(n) {
        assert fresh@before(n);
      }
      return Ok;
    }

    method ExtendRegion(adjacent: Region, start: u64, end: u64, flags: u64)
      requires Valid() && start < end && Locate(shape, start, end, flags) == adjacent
      modifies adjacent
      ensures Valid()
      ensures Value(shape) == Coalesce(old(Value(shape)), start, end, flags)
    {
      NodesAllocated(shape);
      CoalesceKeepsShape(Value(shape), start, end, flags);
      if end == adjacent.start {
        adjacent.start := start;
      } else if start == adjacent.end {
        adjacent.end := end;
      }
      ExtendInPlace(shape, start, end, flags);
    }

    method InsertRegion(start: u64, end: u64, flags: u64)
      requires Valid() && start < end <= USERSPACE_LIMIT
      modifies this, Nodes(shape)
      ensures Valid() && fresh(Nodes(shape) - old(Nodes(shape)))
      ensures Value(shape) == Insert(old(Value(shape)), Span(start, end, flags))
    {
      NodesAllocated(shape);
      var region := new Region(start, end, flags);
      AddRegion(region);
    }

    method AddRegion(region: Region)
      requires Valid() && region !in Nodes(shape) && Acceptable(SpanOf(region))
      requires region.left == null && region.right == null && region.height == 1
      modifies this, Nodes(shape), region
      ensures Valid() && Nodes(shape) == old(Nodes(shape)) + {region}
      ensures Value(shape) == Insert(old(Value(shape)), old(SpanOf(region)))
    {
      regions, shape := InsertNode(regions, region, shape);
    }

    /** The destroy_region system call. */
    method DestroyRegion(start: u64) returns (result: Result)
      requires Valid()
      modifies this, Nodes(shape)
      ensures Valid() && Nodes(shape) <= old(Nodes(shape))
      ensures (Value(shape), result) == Destroy(old(Value(shape)), start)
    {
      if start % PAGE_SIZE != 0 || start >= USERSPACE_LIMIT {
        return BadArgs;
      }
      regions, shape := RemoveNode(regions, start, shape);
      return Ok;
    }
  }
}
