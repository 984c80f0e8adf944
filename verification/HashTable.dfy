/**
 The open-addressing hash table of kernel/structs/hash.c: linear probing, key 0 marks an
 empty slot, the table doubles when 3/4 full, and a removal clears one slot and re-inserts
 the rest of the probe cluster in place.

 The first half is about the slot array as a value; the class `HashTable` at the end runs the
 source's loops on a heap array and is proved against a finite map.
 */
module HashTables {
  import opened Machine

  /** A page holds 256 sixteen-byte entries. */
  const ENTRIES_PER_PAGE: nat := 256

  datatype Entry = Entry(key: u64, data: u64)

  const EMPTY: Entry := Entry(0, 0)

  // ---------------------------------------------------------------------------------------
  // The slot array as a value
  // ---------------------------------------------------------------------------------------

  function Home(key: u64, cap: nat): (h: nat)
    requires cap > 0
    ensures h < cap
  {
    key % cap
  }

  ghost predicate Unique(t: seq<Entry>) {
    forall p, q :: 0 <= p < |t| && 0 <= q < |t| && t[p].key == t[q].key != 0 ==> p == q
  }

  /** No empty slot lies between the home slot of the key stored at `p` and `p` itself. */
  ghost predicate Reachable(t: seq<Entry>, p: nat)
    requires p < |t|
  {
    var h := Home(t[p].key, |t|);
    forall q :: 0 <= q < |t| && Off(h, q, |t|) < Off(h, p, |t|) ==> t[q].key != 0
  }

  /** The probe invariant: a walk from any stored key's home slot meets it before any empty slot. */
  ghost predicate Probed(t: seq<Entry>) {
    && |t| > 0
    && Unique(t)
    && forall p :: 0 <= p < |t| && t[p].key != 0 ==> Reachable(t, p)
  }

  /** `n` is the first empty slot on the walk from `h`. */
  ghost predicate FirstHole(t: seq<Entry>, h: nat, n: nat) {
    && h < |t| && n < |t| && t[n].key == 0
    && forall q :: 0 <= q < |t| && Off(h, q, |t|) < Off(h, n, |t|) ==> t[q].key != 0
  }

  /** `pos` is the first slot on the walk for `key` that holds `key` or is empty. */
  ghost predicate FirstStop(t: seq<Entry>, key: u64, pos: nat) {
    && pos < |t| && (t[pos].key == key || t[pos].key == 0)
    && forall q :: 0 <= q < |t| && Off(Home(key, |t|), q, |t|) < Off(Home(key, |t|), pos, |t|)
         ==> t[q].key != key && t[q].key != 0
  }

  /** The finite map a slot array stands for. */
  ghost function Contents(t: seq<Entry>): (m: map<u64, u64>) {
    if t == [] then map[]
    else
      var last := t[|t| - 1];
      var m := Contents(t[..|t| - 1]);
      if last.key == 0 then m else m[last.key := last.data]
  }

  lemma {:induction false} InContents(t: seq<Entry>, p: nat)
    requires Unique(t) && p < |t| && t[p].key != 0
    ensures t[p].key in Contents(t) && Contents(t)[t[p].key] == t[p].data
  {
    if p < |t| - 1 {
      assert t[..|t| - 1][p] == t[p];
      assert t[|t| - 1].key != t[p].key;
      InContents(t[..|t| - 1], p);
    }
  }

  lemma {:induction false} FromContents(t: seq<Entry>, k: u64) returns (p: nat)
    requires k in Contents(t)
    ensures k != 0 && p < |t| && t[p] == Entry(k, Contents(t)[k])
  {
    if t[|t| - 1].key == k && k != 0 {
      p := |t| - 1;
    } else {
      p := FromContents(t[..|t| - 1], k);
    }
  }

  lemma {:induction false} NotInContents(t: seq<Entry>, k: u64)
    requires forall p :: 0 <= p < |t| && t[p].key != 0 ==> t[p].key != k
    ensures k !in Contents(t)
  {
    if t != [] {
      NotInContents(t[..|t| - 1], k);
    }
  }

  /** A pair is in the map exactly when some slot holds it. */
  lemma ContentsMeaning(t: seq<Entry>, k: u64, v: u64)
    requires Unique(t)
    ensures (k in Contents(t) && Contents(t)[k] == v) <==> (k != 0 && Entry(k, v) in t)
  {
    if k in Contents(t) && Contents(t)[k] == v {
      var p := FromContents(t, k);
    }
    if k != 0 && Entry(k, v) in t {
      var p :| 0 <= p < |t| && t[p] == Entry(k, v);
      InContents(t, p);
    }
  }

  ghost predicate HasHole(t: seq<Entry>) {
    exists e :: 0 <= e < |t| && t[e].key == 0
  }

  /** Pigeonhole: a table has an empty slot exactly when it holds fewer keys than slots. */
  lemma {:induction false} LoadLeavesHole(t: seq<Entry>)
    requires Unique(t)
    ensures |Contents(t)| <= |t|
    ensures |Contents(t)| < |t| <==> HasHole(t)
  {
    if t != [] {
      var s, last := t[..|t| - 1], t[|t| - 1];
      LoadLeavesHole(s);
      assert HasHole(t) <==> HasHole(s) || last.key == 0 by {
        assert forall p :: 0 <= p < |s| ==> s[p] == t[p];
      }
      if last.key != 0 { NotInContents(s, last.key); }
    }
  }

  /** A walk that meets an empty slot before `key` proves `key` absent. */
  lemma AbsentAtHole(t: seq<Entry>, key: u64, e: nat)
    requires Probed(t) && e < |t| && t[e].key == 0
    requires forall q :: 0 <= q < |t| && Off(Home(key, |t|), q, |t|) < Off(Home(key, |t|), e, |t|) ==> t[q].key != key
    ensures key !in Contents(t)
  {
    forall p | 0 <= p < |t| && t[p].key != 0 ensures t[p].key != key {
      assert Reachable(t, p);
    }
    NotInContents(t, key);
  }

  /** The walk for `key` stops at `key` exactly when the map has it, and there finds its value. */
  lemma ProbeAnswers(t: seq<Entry>, key: u64, pos: nat)
    requires Probed(t) && FirstStop(t, key, pos)
    ensures key in Contents(t) <==> t[pos].key != 0
    ensures key in Contents(t) ==> Contents(t)[key] == t[pos].data
    ensures t[pos].key == 0 ==> FirstHole(t, Home(key, |t|), pos)
  {
    if t[pos].key == 0 {
      AbsentAtHole(t, key, pos);
    } else {
      InContents(t, pos);
    }
  }

  /** Filling the first empty slot of a key's walk adds exactly that key. */
  lemma PlaceKeepsProbed(t: seq<Entry>, key: u64, data: u64, e: nat)
    requires Probed(t) && key != 0 && key !in Contents(t)
    requires FirstHole(t, Home(key, |t|), e)
    ensures Probed(t[e := Entry(key, data)])
    ensures Contents(t[e := Entry(key, data)]) == Contents(t)[key := data]
  {
    var t' := t[e := Entry(key, data)];
    forall p | 0 <= p < |t| && t[p].key != 0 ensures t[p].key != key { InContents(t, p); }
    forall p | 0 <= p < |t'| && t'[p].key != 0 ensures Reachable(t', p) {
      if p != e { assert Reachable(t, p); }
    }
    PlaceContents(t, key, data, e);
  }

  lemma {:induction false} PlaceContents(t: seq<Entry>, key: u64, data: u64, e: nat)
    requires key != 0 && key !in Contents(t)
    requires e < |t| && t[e].key == 0
    ensures Contents(t[e := Entry(key, data)]) == Contents(t)[key := data]
  {
    var s := t[..|t| - 1];
    var t' := t[e := Entry(key, data)];
    if e < |s| {
      assert t'[..|t'| - 1] == s[e := Entry(key, data)];
      PlaceContents(s, key, data, e);
    } else {
      assert t'[..|t'| - 1] == s;
    }
  }

  lemma {:induction false} ClearContents(t: seq<Entry>, e: nat)
    requires Unique(t) && e < |t| && t[e].key != 0
    ensures Contents(t[e := EMPTY]) == Contents(t) - {t[e].key}
  {
    var s := t[..|t| - 1];
    var t' := t[e := EMPTY];
    if e < |s| {
      assert t'[..|t'| - 1] == s[e := EMPTY];
      assert s[e] == t[e] && t[|t| - 1].key != t[e].key;
      ClearContents(s, e);
    } else {
      assert t'[..|t'| - 1] == s;
      NotInContents(s, t[e].key);
    }
  }

  // ---------------------------------------------------------------------------------------
  // Removal: clearing one slot and re-inserting the rest of its cluster
  // ---------------------------------------------------------------------------------------

  /**
   The state of the cluster rehash when the scan stands at `j`: slot `e` is the empty slot that
   ends the cluster, everything from `j` up to `e` is still occupied, entries outside that range
   are reachable, and an entry inside it can only be cut off by holes between `pos` and `j`.
   Positions are compared by their distance from the cleared slot `pos`.
   */
  ghost predicate Rehashing(t: seq<Entry>, pos: nat, j: nat, e: nat) {
    && pos < |t| && j < |t| && e < |t|
    && Unique(t)
    && 0 < Off(pos, j, |t|) <= Off(pos, e, |t|)
    && t[e].key == 0
    && forall p :: 0 <= p < |t| ==> SlotSound(t, pos, j, e, p)
  }

  ghost predicate SlotSound(t: seq<Entry>, pos: nat, j: nat, e: nat, p: nat)
    requires pos < |t| && j < |t| && e < |t| && p < |t|
  {
    if Off(pos, j, |t|) <= Off(pos, p, |t|) < Off(pos, e, |t|) then
      t[p].key != 0 && OnlyHolesBehind(t, pos, j, p)
    else
      t[p].key != 0 ==> Reachable(t, p)
  }

  /** Every empty slot on the walk to the entry at `p` lies between `pos` and the scan index `j`. */
  ghost predicate OnlyHolesBehind(t: seq<Entry>, pos: nat, j: nat, p: nat)
    requires pos < |t| && j < |t| && p < |t|
  {
    var h := Home(t[p].key, |t|);
    forall q :: 0 <= q < |t| && Off(h, q, |t|) < Off(h, p, |t|) && t[q].key == 0 ==> Off(pos, q, |t|) < Off(pos, j, |t|)
  }

  /** The nearest empty slot clockwise of `pos`, other than `pos` itself. */
  lemma ClusterEnd(t: seq<Entry>, pos: nat) returns (e: nat)
    requires pos < |t| && t[pos].key != 0 && HasHole(t)
    ensures e < |t| && t[e].key == 0 && 0 < Off(pos, e, |t|)
    ensures forall p :: 0 <= p < |t| && Off(pos, p, |t|) < Off(pos, e, |t|) ==> t[p].key != 0
  {
    e :| 0 <= e < |t| && t[e].key == 0;
    while exists p :: 0 <= p < |t| && t[p].key == 0 && Off(pos, p, |t|) < Off(pos, e, |t|)
      invariant e < |t| && t[e].key == 0
      decreases Off(pos, e, |t|)
    {
      var p :| 0 <= p < |t| && t[p].key == 0 && Off(pos, p, |t|) < Off(pos, e, |t|);
      e := p;
    }
  }

  /** Clearing a slot of a sound table starts the rehash in a sound state. */
  lemma RehashBegins(t: seq<Entry>, pos: nat, j: nat, e: nat)
    requires Probed(t) && pos < |t| && t[pos].key != 0
    requires e < |t| && t[e].key == 0
    requires forall p :: 0 <= p < |t| && Off(pos, p, |t|) < Off(pos, e, |t|) ==> t[p].key != 0
    requires j < |t| && Off(pos, j, |t|) == 1
    ensures Rehashing(t[pos := EMPTY], pos, j, e)
  {
    var t' := t[pos := EMPTY];
    forall p | 0 <= p < |t'| ensures SlotSound(t', pos, j, e, p) {
      if t'[p].key != 0 { assert Reachable(t, p); }
    }
  }

  /** The entry taken out at the scan index never goes past it. */
  lemma RehashStaysBehind(t: seq<Entry>, pos: nat, j: nat, e: nat, n: nat)
    requires Rehashing(t, pos, j, e) && j != e
    requires FirstHole(t[j := EMPTY], Home(t[j].key, |t|), n)
    ensures n == j || (t[n].key == 0 && Off(pos, n, |t|) < Off(pos, j, |t|))
  {
    assert SlotSound(t, pos, j, e, j);
    assert t[j := EMPTY][j].key == 0;
    if n != j { assert t[n] == t[j := EMPTY][n]; }
  }

  /** A walk that avoids `j` and stops before the hole `n` is filled stays free of empty slots. */
  lemma MoveKeepsWalk(t: seq<Entry>, j: nat, n: nat, p: nat)
    requires j < |t| && n < |t| && p < |t| && p != j && p != n
    requires t[p].key != 0 && t[j].key != 0 && Reachable(t, p)
    requires var h := Home(t[p].key, |t|); Off(h, p, |t|) <= Off(h, j, |t|)
    ensures Reachable(t[j := EMPTY][n := t[j]], p)
  {
  }

  /** A walk through `j` that ends outside the cluster would cross the empty slot `e`. */
  lemma WalkAvoidsCluster(pos: nat, j: nat, e: nat, h: nat, p: nat, cap: nat)
    requires pos < cap && j < cap && e < cap && h < cap && p < cap
    requires 0 < Off(pos, j, cap) < Off(pos, e, cap) && p != e
    requires !(Off(pos, j, cap) <= Off(pos, p, cap) < Off(pos, e, cap))
    requires Off(h, p, cap) <= Off(h, e, cap)
    ensures Off(h, p, cap) <= Off(h, j, cap)
  {
  }

  /** What happens to any other slot `p` when the entry at `j` moves back to the hole `n`. */
  lemma SlotAdvances(t: seq<Entry>, pos: nat, j: nat, e: nat, n: nat, j': nat, p: nat)
    requires pos < |t| && j < |t| && e < |t| && n < |t| && j' < |t| && p < |t|
    requires t[e].key == 0 && t[j].key != 0 && 0 < Off(pos, j, |t|) < Off(pos, e, |t|)
    requires n == j || (t[n].key == 0 && Off(pos, n, |t|) < Off(pos, j, |t|))
    requires Off(pos, j', |t|) == Off(pos, j, |t|) + 1
    requires SlotSound(t, pos, j, e, p) && p != j && p != n
    ensures SlotSound(t[j := EMPTY][n := t[j]], pos, j', e, p)
  {
    var t' := t[j := EMPTY][n := t[j]];
    assert t'[p] == t[p];
    if Off(pos, j', |t|) <= Off(pos, p, |t|) < Off(pos, e, |t|) {
      assert forall q :: 0 <= q < |t| && t'[q].key == 0 ==> q == j || t[q].key == 0;
    } else if t[p].key != 0 {
      WalkAvoidsCluster(pos, j, e, Home(t[p].key, |t|), p, |t|);
      MoveKeepsWalk(t, j, n, p);
    }
  }

  /**
   One iteration of the rehash: take the entry at `j` out and put it in the first empty slot `n`
   of its own walk. The invariant moves on by one slot.
   */
  lemma RehashAdvances(t: seq<Entry>, pos: nat, j: nat, e: nat, n: nat, j': nat)
    requires Rehashing(t, pos, j, e) && j != e
    requires FirstHole(t[j := EMPTY], Home(t[j].key, |t|), n)
    requires j' < |t| && Off(pos, j', |t|) == Off(pos, j, |t|) + 1
    ensures Rehashing(t[j := EMPTY][n := t[j]], pos, j', e)
  {
    RehashStaysBehind(t, pos, j, e, n);
    assert SlotSound(t, pos, j, e, j);
    var t' := t[j := EMPTY][n := t[j]];
    forall p | 0 <= p < |t| ensures SlotSound(t', pos, j', e, p) {
      if p != j && p != n {
        SlotAdvances(t, pos, j, e, n, j', p);
      } else if p == n {
        assert Reachable(t', n);
      }
    }
  }

  /** When the scan meets the end of the cluster the probe invariant holds again. */
  lemma RehashEnds(t: seq<Entry>, pos: nat, j: nat, e: nat)
    requires Rehashing(t, pos, j, e) && t[j].key == 0
    ensures j == e && Probed(t)
  {
    assert SlotSound(t, pos, j, e, j);
    forall p | 0 <= p < |t| && t[p].key != 0 ensures Reachable(t, p) {
      assert SlotSound(t, pos, j, e, p);
    }
  }

  /** Moving one entry to an empty slot does not change the map. */
  lemma MoveContents(t: seq<Entry>, j: nat, n: nat)
    requires Unique(t) && j < |t| && n < |t| && t[j].key != 0
    requires t[j := EMPTY][n].key == 0
    ensures Contents(t[j := EMPTY][n := t[j]]) == Contents(t)
  {
    ClearContents(t, j);
    InContents(t, j);
    PlaceContents(t[j := EMPTY], t[j].key, t[j].data, n);
    assert Contents(t) == (Contents(t) - {t[j].key})[t[j].key := t[j].data];
  }

  // ---------------------------------------------------------------------------------------
  // The specification: a finite map with a capacity
  // ---------------------------------------------------------------------------------------

  /** What a caller can observe: the map, and the capacity that decides when memory is needed. */
  datatype Model = Model(m: map<u64, u64>, cap: nat)

  datatype Op =
    | Insert(key: u64, value: u64, memory: bool)   // memory: whether a needed resize gets its blocks
    | Lookup(key: u64)
    | Remove(key: u64)

  datatype Reply = Done(ok: bool) | Pointer(value: u64)

  /** The load test `size + 1 > (size_t)(capacity * 0.75)`. */
  predicate MustGrow(size: nat, cap: nat) {
    size + 1 > 3 * cap / 4
  }

  function Apply(s: Model, op: Op): (Model, Reply) {
    match op
    case Insert(key, value, memory) =>
      if MustGrow(|s.m|, s.cap) && !memory then
        (s, Done(false))
      else
        var cap := if MustGrow(|s.m|, s.cap) then 2 * s.cap else s.cap;
        if key == 0 || key in s.m then (Model(s.m, cap), Done(false))
        else (Model(s.m[key := value], cap), Done(true))
    case Lookup(key) =>
      (s, Pointer(if key in s.m then s.m[key] else 0))
    case Remove(key) =>
      (Model(s.m - {key}, s.cap), Pointer(if key in s.m then s.m[key] else 0))
  }

  function Replies(s: Model, ops: seq<Op>): (r: seq<Reply>)
    ensures |r| == |ops|
    decreases |ops|
  {
    if ops == [] then [] else [Apply(s, ops[0]).1] + Replies(Apply(s, ops[0]).0, ops[1..])
  }

  function Final(s: Model, ops: seq<Op>): (s': Model)
    decreases |ops|
  {
    if ops == [] then s else Final(Apply(s, ops[0]).0, ops[1..])
  }

  /** Key 0 is never stored and the load stays at or below 3/4 of a whole number of pages. */
  ghost predicate Loaded(s: Model) {
    && 0 !in s.m
    && s.cap > 0 && s.cap % ENTRIES_PER_PAGE == 0
    && 4 * |s.m| <= 3 * s.cap
  }

  lemma ClearedCard(t: seq<Entry>, pos: nat)
    requires Unique(t) && pos < |t| && t[pos].key != 0
    ensures Contents(t[pos := EMPTY]) == Contents(t) - {t[pos].key}
    ensures |Contents(t[pos := EMPTY])| == |Contents(t)| - 1
  {
    ClearContents(t, pos);
    InContents(t, pos);
    RemoveCard(Contents(t), t[pos].key);
  }

  lemma RemoveCard(m: map<u64, u64>, k: u64)
    requires k in m
    ensures |m - {k}| == |m| - 1
  {
    assert m == (m - {k})[k := m[k]];
  }

  lemma ApplyKeepsLoaded(s: Model, op: Op)
    requires Loaded(s)
    ensures Loaded(Apply(s, op).0)
  {
    if op.Remove? && op.key in s.m {
      RemoveCard(s.m, op.key);
    } else if op.Remove? {
      assert s.m - {op.key} == s.m;
    }
  }

  lemma {:induction false} RunKeepsLoaded(s: Model, ops: seq<Op>)
    requires Loaded(s)
    ensures Loaded(Final(s, ops))
    decreases |ops|
  {
    if ops != [] {
      ApplyKeepsLoaded(s, ops[0]);
      RunKeepsLoaded(Apply(s, ops[0]).0, ops[1..]);
    }
  }

  lemma {:induction false} RunSnoc(s: Model, ops: seq<Op>, op: Op)
    ensures Final(s, ops + [op]) == Apply(Final(s, ops), op).0
    ensures Replies(s, ops + [op]) == Replies(s, ops) + [Apply(Final(s, ops), op).1]
    decreases |ops|
  {
    if ops != [] {
      assert (ops + [op])[1..] == ops[1..] + [op];
      RunSnoc(Apply(s, ops[0]).0, ops[1..], op);
    }
  }

  // ---------------------------------------------------------------------------------------
  // What a run must answer, read off its calls and answers alone
  // ---------------------------------------------------------------------------------------

  /** The value last given to `key`: by the last accepted insertion with no removal after it, or from before. */
  function Stored(m: map<u64, u64>, ops: seq<Op>, replies: seq<Reply>, key: u64): Option<u64>
    requires |ops| == |replies|
    decreases |ops|
  {
    if ops == [] then (if key in m then Some(m[key]) else None)
    else
      var n := |ops| - 1;
      if ops[n].Insert? && ops[n].key == key && replies[n] == Done(true) then Some(ops[n].value)
      else if ops[n].Remove? && ops[n].key == key then None
      else Stored(m, ops[..n], replies[..n], key)
  }

  /** The keys inserted with success and not removed since. */
  function Present(m: map<u64, u64>, ops: seq<Op>, replies: seq<Reply>): set<u64>
    requires |ops| == |replies|
    decreases |ops|
  {
    if ops == [] then m.Keys
    else
      var n := |ops| - 1;
      var before := Present(m, ops[..n], replies[..n]);
      if ops[n].Insert? && replies[n] == Done(true) then before + {ops[n].key}
      else if ops[n].Remove? then before - {ops[n].key}
      else before
  }

  /** Slots: an insertion that would load more than 3/4 of them doubles them, if there is memory. */
  function Slots(m: map<u64, u64>, cap: nat, ops: seq<Op>, replies: seq<Reply>): nat
    requires |ops| == |replies|
    decreases |ops|
  {
    if ops == [] then cap
    else
      var n := |ops| - 1;
      var before := Slots(m, cap, ops[..n], replies[..n]);
      if ops[n].Insert? && ops[n].memory && 4 * (|Present(m, ops[..n], replies[..n])| + 1) > 3 * before then 2 * before
      else before
  }

  /**
   The answer to call `k`: an insertion succeeds exactly when its key is neither 0 nor present and either
   3/4 of the slots suffice or there is memory; a lookup or a removal answers the value last stored.
   */
  predicate Answered(m: map<u64, u64>, cap: nat, ops: seq<Op>, replies: seq<Reply>, k: nat)
    requires |ops| == |replies| && k < |ops|
  {
    var os, rs := ops[..k], replies[..k];
    match ops[k]
    case Insert(key, _, memory) =>
      var present := Present(m, os, rs);
      replies[k] == Done(key != 0 && key !in present && (memory || 4 * (|present| + 1) <= 3 * Slots(m, cap, os, rs)))
    case Lookup(key) => replies[k] == Pointer(Stored(m, os, rs, key).UnwrapOr(0))
    case Remove(key) => replies[k] == Pointer(Stored(m, os, rs, key).UnwrapOr(0))
  }

  /** The finite map `f` is what the run leaves. */
  ghost predicate Leaves(m: map<u64, u64>, cap: nat, ops: seq<Op>, replies: seq<Reply>, f: Model)
    requires |ops| == |replies|
  {
    && f.m.Keys == Present(m, ops, replies) && f.cap == Slots(m, cap, ops, replies)
    && forall key :: Stored(m, ops, replies, key) == if key in f.m then Some(f.m[key]) else None
  }

  lemma MustGrowExactly(size: nat, cap: nat)
    ensures MustGrow(size, cap) <==> 4 * (size + 1) > 3 * cap
  {
  }

  lemma {:induction false} StoredNext(m: map<u64, u64>, ops: seq<Op>, replies: seq<Reply>, op: Op, r: Reply, key: u64)
    requires |ops| == |replies|
    ensures Stored(m, ops + [op], replies + [r], key) ==
      if op.Insert? && op.key == key && r == Done(true) then Some(op.value)
      else if op.Remove? && op.key == key then None else Stored(m, ops, replies, key)
  {
    assert (ops + [op])[..|ops|] == ops && (replies + [r])[..|ops|] == replies;
  }

  lemma {:induction false} LoadNext(m: map<u64, u64>, cap: nat, ops: seq<Op>, replies: seq<Reply>, op: Op, r: Reply)
    requires |ops| == |replies|
    ensures Present(m, ops + [op], replies + [r]) ==
      if op.Insert? && r == Done(true) then Present(m, ops, replies) + {op.key}
      else if op.Remove? then Present(m, ops, replies) - {op.key} else Present(m, ops, replies)
    ensures Slots(m, cap, ops + [op], replies + [r]) ==
      if op.Insert? && op.memory && 4 * (|Present(m, ops, replies)| + 1) > 3 * Slots(m, cap, ops, replies)
      then 2 * Slots(m, cap, ops, replies) else Slots(m, cap, ops, replies)
  {
    assert (ops + [op])[..|ops|] == ops && (replies + [r])[..|ops|] == replies;
  }

  lemma {:induction false} AnswerNext(s: Model, ops: seq<Op>, replies: seq<Reply>, f: Model, op: Op)
    requires |ops| == |replies| && Leaves(s.m, s.cap, ops, replies, f)
    ensures Answered(s.m, s.cap, ops + [op], replies + [Apply(f, op).1], |ops|)
  {
    assert (ops + [op])[..|ops|] == ops && (replies + [Apply(f, op).1])[..|ops|] == replies;
    assert |f.m.Keys| == |f.m|;
    MustGrowExactly(|f.m|, f.cap);
  }

  lemma {:induction false} LeavesNext(s: Model, ops: seq<Op>, replies: seq<Reply>, f: Model, op: Op)
    requires |ops| == |replies| && Leaves(s.m, s.cap, ops, replies, f)
    ensures Leaves(s.m, s.cap, ops + [op], replies + [Apply(f, op).1], Apply(f, op).0)
  {
    var r := Apply(f, op).1;
    assert |f.m.Keys| == |f.m|;
    MustGrowExactly(|f.m|, f.cap);
    LoadNext(s.m, s.cap, ops, replies, op, r);
    forall key
      ensures var g := Apply(f, op).0.m;
        Stored(s.m, ops + [op], replies + [r], key) == if key in g then Some(g[key]) else None
    {
      StoredNext(s.m, ops, replies, op, r, key);
    }
  }

  /** A run of the model leaves what its calls and answers say. */
  lemma {:induction false} RunLeaves(s: Model, ops: seq<Op>)
    ensures Leaves(s.m, s.cap, ops, Replies(s, ops), Final(s, ops))
    decreases |ops|
  {
    if ops != [] {
      var front, op := ops[..|ops| - 1], ops[|ops| - 1];
      assert ops == front + [op];
      RunLeaves(s, front);
      RunSnoc(s, front, op);
      LeavesNext(s, front, Replies(s, front), Final(s, front), op);
    }
  }

  lemma {:induction false} RepliesPrefix(s: Model, ops: seq<Op>, more: seq<Op>)
    ensures Replies(s, ops + more)[..|ops|] == Replies(s, ops)
    ensures Replies(s, ops + more)[|ops|..] == Replies(Final(s, ops), more)
    decreases |ops|
  {
    if ops == [] {
      assert ops + more == more;
    } else {
      assert (ops + more)[1..] == ops[1..] + more;
      RepliesPrefix(Apply(s, ops[0]).0, ops[1..], more);
    }
  }

  /** Every answer of a run is the right one. */
  lemma RunAnswers(s: Model, ops: seq<Op>, k: nat)
    requires k < |ops|
    ensures Answered(s.m, s.cap, ops, Replies(s, ops), k)
  {
    var os, replies := ops[..k], Replies(s, ops);
    assert ops == os + ops[k..];
    RepliesPrefix(s, os, ops[k..]);
    assert replies[k] == replies[|os|..][0] == Apply(Final(s, os), ops[k]).1;
    RunLeaves(s, os);
    AnswerNext(s, os, Replies(s, os), Final(s, os), ops[k]);
    var rs := Replies(s, os) + [replies[k]];
    assert (os + [ops[k]])[..k] == os && rs[..k] == replies[..k];
  }

  ghost predicate AllAnswered(m: map<u64, u64>, cap: nat, ops: seq<Op>, replies: seq<Reply>) {
    |ops| == |replies| && forall k :: 0 <= k < |ops| ==> Answered(m, cap, ops, replies, k)
  }

  lemma RunIsRight(s: Model, ops: seq<Op>)
    ensures AllAnswered(s.m, s.cap, ops, Replies(s, ops)) && Leaves(s.m, s.cap, ops, Replies(s, ops), Final(s, ops))
  {
    RunLeaves(s, ops);
    forall k | 0 <= k < |ops| ensures Answered(s.m, s.cap, ops, Replies(s, ops), k) { RunAnswers(s, ops, k); }
  }

  lemma EmptyTable(t: seq<Entry>)
    requires |t| > 0 && forall p :: 0 <= p < |t| ==> t[p] == EMPTY
    ensures Probed(t) && Contents(t) == map[]
  {
    forall k ensures k !in Contents(t) { NotInContents(t, k); }
  }

  /** `(j + 1) % cap` is one step further from `pos`, unless the ring closes. */
  lemma NextOnRing(pos: nat, j: nat, e: nat, cap: nat)
    requires pos < cap && j < cap && e < cap && Off(pos, j, cap) < Off(pos, e, cap)
    ensures 0 <= (j + 1) % cap < cap
    ensures Off(pos, (j + 1) % cap, cap) == Off(pos, j, cap) + 1
  {
    RingStep(j, 1, cap);
  }

  // ---------------------------------------------------------------------------------------
  // The table itself
  // ---------------------------------------------------------------------------------------

  /** The loop `for (n = 0; n < capacity; n++)` that looks for the first empty slot from `home`. */
  method FindHole(a: array<Entry>, home: nat) returns (n: nat)
    requires home < a.Length && HasHole(a[..])
    ensures FirstHole(a[..], home, n)
  {
    var i := 0;
    RingStep(home, i, a.Length);
    n := home;
    while a[n].key != 0
      decreases a.Length - i
      invariant i < a.Length && n == (home + i) % a.Length && Off(home, n, a.Length) == i
      invariant forall q :: 0 <= q < a.Length && Off(home, q, a.Length) < i ==> a[q].key != 0
    {
      i := i + 1;
      assert i < a.Length by {
        var e :| 0 <= e < a.Length && a[e].key == 0;
        assert Off(home, e, a.Length) >= i;
      }
      RingStep(home, i, a.Length);
      n := (home + i) % a.Length;
    }
  }

  /**
   The walk shared by hash_table_insert, hash_table_lookup and hash_table_remove: from the home
   slot, stop at the first slot that holds `key` or is empty.
   */
  method Probe(a: array<Entry>, key: u64) returns (pos: nat)
    requires a.Length > 0 && HasHole(a[..])
    ensures FirstStop(a[..], key, pos)
  {
    var index := key % a.Length;
    var i := 0;
    RingStep(index, i, a.Length);
    pos := index;
    while a[pos].key != key && a[pos].key != 0
      invariant i < a.Length && pos == (index + i) % a.Length && Off(index, pos, a.Length) == i
      invariant forall q :: 0 <= q < a.Length && Off(index, q, a.Length) < i ==> a[q].key != key && a[q].key != 0
      decreases a.Length - i
    {
      i := i + 1;
      assert i < a.Length by {
        var e :| 0 <= e < a.Length && a[e].key == 0;
        assert Off(index, e, a.Length) >= i;
      }
      RingStep(index, i, a.Length);
      pos := (index + i) % a.Length;
    }
  }

  /** The probe-and-store loop: puts a new pair in the first empty slot of its walk. */
  method PlaceInto(a: array<Entry>, entry: Entry)
    requires Probed(a[..]) && HasHole(a[..])
    requires entry.key != 0 && entry.key !in Contents(a[..])
    modifies a
    ensures Probed(a[..]) && Contents(a[..]) == old(Contents(a[..]))[entry.key := entry.data]
  {
    ghost var t := a[..];
    var n := FindHole(a, entry.key % a.Length);
    PlaceKeepsProbed(t, entry.key, entry.data, n);
    a[n] := entry;
    assert a[..] == t[n := entry];
  }

  /** The copy of the first `i` entries has room for the next, and not its key. */
  lemma PrefixLeavesRoom(t: seq<Entry>, i: nat, u: seq<Entry>)
    requires Unique(t) && i < |t| < |u| && t[i].key != 0 && Probed(u) && Contents(u) == Contents(t[..i])
    ensures t[i].key !in Contents(u) && HasHole(u)
  {
    NotInContents(t[..i], t[i].key);
    LoadLeavesHole(t[..i]);
    LoadLeavesHole(u);
  }

  /** Twice the pages are twice the slots, and no more loaded. */
  lemma DoubledLoad(s: Model)
    requires Loaded(s)
    ensures s.cap / ENTRIES_PER_PAGE * 2 * ENTRIES_PER_PAGE == 2 * s.cap && Loaded(Model(s.m, 2 * s.cap))
  {
  }

  /** The rehash loop of hash_table_resize. */
  method CopyAll(from: array<Entry>, to: array<Entry>)
    requires from != to && from.Length < to.Length && Unique(from[..])
    requires Probed(to[..]) && Contents(to[..]) == map[]
    modifies to
    ensures Probed(to[..]) && Contents(to[..]) == Contents(from[..])
  {
    ghost var t := from[..];
    for i := 0 to from.Length
      invariant from[..] == t && Probed(to[..]) && Contents(to[..]) == Contents(t[..i])
    {
      assert t[..i + 1][..i] == t[..i];
      if from[i].key != 0 {
        PrefixLeavesRoom(t, i, to[..]);
        PlaceInto(to, from[i]);
      }
    }
    assert t[..from.Length] == t;
  }

  /** Fresh storage of `newCapacity` slots holding the same pairs. */
  method Doubled(a: array<Entry>, newCapacity: nat) returns (bigger: array<Entry>)
    requires Unique(a[..]) && a.Length < newCapacity
    ensures fresh(bigger) && bigger.Length == newCapacity
    ensures Probed(bigger[..]) && Contents(bigger[..]) == Contents(a[..])
  {
    bigger := new Entry[newCapacity](_ => EMPTY);
    EmptyTable(bigger[..]);
    CopyAll(a, bigger);
  }

  class HashTable {
    var entries: array<Entry>
    var capacity: nat
    var size: nat

    ghost predicate Valid()
      reads this, entries
    {
      && capacity == entries.Length
      && Probed(entries[..])
      && size == |Contents(entries[..])|
      && Loaded(Abs())
    }

    ghost function Abs(): Model
      reads this, entries
    {
      Model(Contents(entries[..]), capacity)
    }

    constructor (numPages: nat)
      requires numPages > 0
      ensures Valid() && fresh(entries)
      ensures Abs() == Model(map[], numPages * ENTRIES_PER_PAGE)
    {
      entries := new Entry[numPages * ENTRIES_PER_PAGE](_ => EMPTY);
      capacity := numPages * ENTRIES_PER_PAGE;
      size := 0;
      new;
      EmptyTable(entries[..]);
    }

    /** hash_table_lookup. */
    method Lookup(key: u64) returns (result: u64)
      requires Valid()
      ensures result == if key in Abs().m then Abs().m[key] else 0
    {
      ghost var t := entries[..];
      LoadLeavesHole(t);
      var pos := Probe(entries, key);
      ProbeAnswers(t, key, pos);
      result := if entries[pos].key == 0 then 0 else entries[pos].data;
    }

    /** hash_table_resize: re-inserts every entry into an array of twice the pages. */
    method Grow()
      requires Valid()
      modifies this
      ensures Valid() && fresh(entries)
      ensures Abs() == Model(old(Abs()).m, 2 * old(capacity)) && size == old(size)
    {
      DoubledLoad(old(Abs()));
      var newPages := capacity / ENTRIES_PER_PAGE * 2;
      var bigger := Doubled(entries, newPages * ENTRIES_PER_PAGE);
      entries, capacity := bigger, newPages * ENTRIES_PER_PAGE;
    }

    /** hash_table_insert; `memory` says whether the block allocator can serve a resize. */
    method Insert(key: u64, value: u64, memory: bool) returns (ok: bool)
      requires Valid()
      modifies this, entries
      ensures Valid() && (entries == old(entries) || fresh(entries))
      ensures ok <==> key != 0 && key !in old(Abs()).m && (memory || 4 * (old(size) + 1) <= 3 * old(capacity))
      ensures Abs().m == if ok then old(Abs()).m[key := value] else old(Abs()).m
      ensures capacity == if memory && 4 * (old(size) + 1) > 3 * old(capacity) then 2 * old(capacity) else old(capacity)
      ensures MustGrow(old(size), old(capacity)) && !memory ==> unchanged(this) && entries[..] == old(entries[..])
    {
      if size + 1 > 3 * capacity / 4 {
        if !memory {
          return false;
        }
        Grow();
      }
      ok := Put(key, value);
    }

    /** The probe loop of hash_table_insert, once there is room. */
    method Put(key: u64, value: u64) returns (ok: bool)
      requires Valid() && 4 * (size + 1) <= 3 * capacity
      modifies entries, `size
      ensures Valid()
      ensures ok == (key != 0 && key !in old(Abs()).m)
      ensures Abs().m == if ok then old(Abs()).m[key := value] else old(Abs()).m
    {
      ghost var t := entries[..];
      LoadLeavesHole(t);
      var pos := Probe(entries, key);
      ProbeAnswers(t, key, pos);
      if entries[pos].key == key {
        return false;
      }
      PlaceKeepsProbed(t, key, value, pos);
      entries[pos] := Entry(key, value);
      assert entries[..] == t[pos := Entry(key, value)];
      size := size + 1;
      ok := true;
    }

    /** hash_table_remove. */
    method Remove(key: u64) returns (result: u64)
      requires Valid()
      modifies entries, `size
      ensures Valid()
      ensures key !in Abs().m && capacity == old(capacity)
      ensures forall k :: k in Abs().m <==> k in old(Abs()).m && k != key
      ensures forall k :: k in Abs().m ==> Abs().m[k] == old(Abs()).m[k]
      ensures result == if key in old(Abs()).m then old(Abs()).m[key] else 0
    {
      ghost var t := entries[..];
      LoadLeavesHole(t);
      var pos := Probe(entries, key);
      ProbeAnswers(t, key, pos);
      if entries[pos].key == 0 {
        assert Contents(t) - {key} == Contents(t);
        return 0;
      }
      result := entries[pos].data;
      RemoveAt(pos);
    }

    /** Clears an occupied slot and rehashes the cluster that follows it. */
    method RemoveAt(pos: nat)
      requires Valid() && pos < capacity && entries[pos].key != 0
      modifies entries, `size
      ensures Valid()
      ensures Abs().m == old(Abs()).m - {old(entries[pos].key)}
    {
      var j;
      ghost var e;
      j, e := ClearSlot(pos);
      ghost var m := Contents(entries[..]);
      while entries[j].key != 0
        invariant Rehashing(entries[..], pos, j, e)
        invariant Contents(entries[..]) == m && size == |m|
        decreases Off(pos, e, capacity) - Off(pos, j, capacity)
      {
        j := RehashOne(pos, j, e);
      }
      RehashEnds(entries[..], pos, j, e);
    }

    /** Clears the slot of the removed key and starts the scan right after it. */
    method ClearSlot(pos: nat) returns (j: nat, ghost e: nat)
      requires Valid() && pos < capacity && entries[pos].key != 0
      modifies entries, `size
      ensures Rehashing(entries[..], pos, j, e)
      ensures Contents(entries[..]) == old(Abs()).m - {old(entries[pos].key)}
      ensures size == |Contents(entries[..])| == old(size) - 1
    {
      ghost var t := entries[..];
      LoadLeavesHole(t);
      e := ClusterEnd(t, pos);
      ClearedCard(t, pos);
      entries[pos] := EMPTY;
      assert entries[..] == t[pos := EMPTY];
      size := size - 1;
      RingStep(pos, 1, capacity);
      j := (pos + 1) % capacity;
      RehashBegins(t, pos, j, e);
    }

    /** One turn of the rehash loop: takes the entry at `j` out, re-inserts it, moves on. */
    method RehashOne(pos: nat, j: nat, ghost e: nat) returns (j': nat)
      requires capacity == entries.Length && Rehashing(entries[..], pos, j, e) && entries[j].key != 0
      requires size == |Contents(entries[..])|
      modifies entries, `size
      ensures Rehashing(entries[..], pos, j', e) && Off(pos, j', capacity) == Off(pos, j, capacity) + 1
      ensures Contents(entries[..]) == old(Contents(entries[..])) && size == old(size)
      ensures forall p :: 0 <= p < capacity && Off(pos, j, capacity) < Off(pos, p, capacity) ==>
        entries[p] == old(entries[p])
    {
      ghost var t := entries[..];
      var entry := entries[j];
      InContents(t, j);
      entries[j] := EMPTY;
      size := size - 1;
      assert entries[..] == t[j := EMPTY];
      assert entries[..][j].key == 0;
      var n := FindHole(entries, entry.key % capacity);
      RehashStaysBehind(t, pos, j, e, n);
      MoveContents(t, j, n);
      entries[n] := entry;
      size := size + 1;
      assert entries[..] == t[j := EMPTY][n := t[j]];
      NextOnRing(pos, j, e, capacity);
      j' := (j + 1) % capacity;
      RehashAdvances(t, pos, j, e, n, j');
    }

    /** One call. */
    method Perform(op: Op) returns (reply: Reply)
      requires Valid()
      modifies this, entries
      ensures Valid() && (entries == old(entries) || fresh(entries)) && (Abs(), reply) == Apply(old(Abs()), op)
    {
      MustGrowExactly(size, capacity);
      match op
      case Insert(key, value, memory) =>
        var ok := Insert(key, value, memory);
        reply := Done(ok);
      case Lookup(key) =>
        var value := Lookup(key);
        reply := Pointer(value);
      case Remove(key) =>
        var value := Remove(key);
        reply := Pointer(value);
        assert Abs().m == old(Abs()).m - {key};
    }

    /** Any run of calls is answered exactly as the finite map answers it, and that is what its history says. */
    method Run(ops: seq<Op>) returns (replies: seq<Reply>)
      requires Valid()
      modifies this, entries
      ensures Valid() && replies == Replies(old(Abs()), ops) && Abs() == Final(old(Abs()), ops)
      ensures AllAnswered(old(Abs()).m, old(capacity), ops, replies)
      ensures Leaves(old(Abs()).m, old(capacity), ops, replies, Abs())
    {
      replies := [];
      ghost var start := Abs();
      assert ops[..0] == [];
      for i := 0 to |ops|
        invariant Valid() && (entries == old(entries) || fresh(entries))
        invariant replies == Replies(start, ops[..i]) && Abs() == Final(start, ops[..i])
      {
        RunSnoc(start, ops[..i], ops[i]);
        assert ops[..i + 1] == ops[..i] + [ops[i]];
        var reply := Perform(ops[i]);
        replies := replies + [reply];
      }
      assert ops[..|ops|] == ops;
      RunIsRight(start, ops);
    }
  }

  /** hash_table_create; `slab` and `blocks` say which of its allocations succeed. No pages means no blocks. */
  method Create(numPages: nat, slab: bool, blocks: bool, lock: bool) returns (t: HashTable?)
    ensures t != null <==> slab && blocks && lock && numPages > 0
    ensures t != null ==> fresh(t) && fresh(t.entries) && t.Valid()
    ensures t != null ==> t.Abs() == Model(map[], numPages * 256)
  {
    if !slab || !blocks || numPages == 0 || !lock {
      return null;
    }
    t := new HashTable(numPages);
  }
}
