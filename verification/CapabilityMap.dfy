/**
 The capability map of kernel/capabilities/map.c: open addressing with linear probing, deletion by
 tombstone, doubling when live entries exceed 3/4 of the slots, and a clean-up that rebuilds the
 table. Results hold for every hash function. Every walk needs a vacant slot to stop at, but the
 load test counts live entries only, so vacancy is a precondition and is tracked exactly.
 */
module CapabilityMaps {
  import opened Machine

  const INITIAL_CAPACITY: nat := 64

  type Hash = u64 -> nat

  datatype Slot = Slot(key: u64, value: u64, occupied: bool, tombstone: bool) {
    predicate Live() { occupied && !tombstone }
  }

  const VACANT: Slot := Slot(0, 0, false, false)

  // ---------------------------------------------------------------------------------------
  // The slot array as a value
  // ---------------------------------------------------------------------------------------

  function Home(hash: Hash, key: u64, cap: nat): (h: nat)
    requires cap > 0
    ensures h < cap
  {
    hash(key) % cap
  }

  ghost predicate Unique(t: seq<Slot>) {
    forall p, q :: 0 <= p < |t| && 0 <= q < |t| && t[p].Live() && t[q].Live() && t[p].key == t[q].key ==> p == q
  }

  /** Every slot on the walk from `h` before `n` is marked occupied. */
  ghost predicate Packed(t: seq<Slot>, h: nat, n: nat)
    requires h < |t| && n < |t|
  {
    forall q :: 0 <= q < |t| && Off(h, q, |t|) < Off(h, n, |t|) ==> t[q].occupied
  }

  /** The probe invariant: the walk from a live key's home slot meets it before any vacant slot. */
  ghost predicate Probed(hash: Hash, t: seq<Slot>) {
    && |t| > 0 && Unique(t)
    && forall p :: 0 <= p < |t| && t[p].Live() ==> Packed(t, Home(hash, t[p].key, |t|), p)
  }

  function Contents(t: seq<Slot>): (m: map<u64, u64>) {
    if t == [] then map[]
    else
      var last, m := t[|t| - 1], Contents(t[..|t| - 1]);
      if last.Live() then m[last.key := last.value] else m
  }

  lemma {:induction false} InContents(t: seq<Slot>, p: nat)
    requires Unique(t) && p < |t| && t[p].Live()
    ensures t[p].key in Contents(t) && Contents(t)[t[p].key] == t[p].value
  {
    if p < |t| - 1 {
      assert t[..|t| - 1][p] == t[p];
      InContents(t[..|t| - 1], p);
    }
  }

  lemma {:induction false} NotInContents(t: seq<Slot>, k: u64)
    requires forall p :: 0 <= p < |t| && t[p].Live() ==> t[p].key != k
    ensures k !in Contents(t)
  {
    if t != [] { NotInContents(t[..|t| - 1], k); }
  }

  /** A slot that held no live entry gets one with a new key. */
  lemma {:induction false} FillContents(t: seq<Slot>, e: nat, s: Slot)
    requires e < |t| && !t[e].Live() && s.Live() && s.key !in Contents(t)
    ensures Contents(t[e := s]) == Contents(t)[s.key := s.value]
  {
    var r, t' := t[..|t| - 1], t[e := s];
    if e < |r| {
      assert t'[..|t'| - 1] == r[e := s];
      FillContents(r, e, s);
    } else {
      assert t'[..|t'| - 1] == r;
    }
  }

  /** A live entry is retired. */
  lemma {:induction false} RetireContents(t: seq<Slot>, e: nat, s: Slot)
    requires Unique(t) && e < |t| && t[e].Live() && !s.Live()
    ensures Contents(t[e := s]) == Contents(t) - {t[e].key}
  {
    var r, t' := t[..|t| - 1], t[e := s];
    if e < |r| {
      assert t'[..|t'| - 1] == r[e := s];
      assert r[e] == t[e];
      RetireContents(r, e, s);
    } else {
      assert t'[..|t'| - 1] == r;
      NotInContents(r, t[e].key);
    }
  }

  /** The number of slots never used since the table was built. */
  function Vacancies(t: seq<Slot>): nat {
    if t == [] then 0 else Vacancies(t[..|t| - 1]) + if t[|t| - 1].occupied then 0 else 1
  }

  lemma {:induction false} VacanciesUpdate(t: seq<Slot>, e: nat, s: Slot)
    requires e < |t| && s.occupied
    ensures Vacancies(t[e := s]) == Vacancies(t) - if t[e].occupied then 0 else 1
  {
    var r, t' := t[..|t| - 1], t[e := s];
    if e < |r| {
      assert t'[..|t'| - 1] == r[e := s];
      VacanciesUpdate(r, e, s);
    } else {
      assert t'[..|t'| - 1] == r;
    }
  }

  lemma {:induction false} VacancyExists(t: seq<Slot>)
    ensures Vacancies(t) > 0 <==> exists e :: 0 <= e < |t| && !t[e].occupied
  {
    if t != [] {
      var r := t[..|t| - 1];
      VacancyExists(r);
      assert forall p :: 0 <= p < |r| ==> r[p] == t[p];
      if Vacancies(r) > 0 {
        var e :| 0 <= e < |r| && !r[e].occupied;
        assert !t[e].occupied;
      }
    }
  }

  lemma {:induction false} NoVacancy(t: seq<Slot>)
    requires forall p :: 0 <= p < |t| ==> t[p].occupied
    ensures Vacancies(t) == 0
  {
    if t != [] { NoVacancy(t[..|t| - 1]); }
  }

  ghost predicate NoTombstones(t: seq<Slot>) {
    forall p :: 0 <= p < |t| && t[p].occupied ==> !t[p].tombstone
  }

  /** Without tombstones, vacant slots and live entries make up the table. */
  lemma {:induction false} VacanciesComplement(t: seq<Slot>)
    requires Unique(t) && NoTombstones(t)
    ensures Vacancies(t) + |Contents(t)| == |t|
  {
    if t != [] {
      var r, last := t[..|t| - 1], t[|t| - 1];
      VacanciesComplement(r);
      if last.Live() { NotInContents(r, last.key); }
    }
  }

  lemma {:induction false} LiveAtMost(t: seq<Slot>)
    ensures |Contents(t)| <= |t|
  {
    if t != [] { LiveAtMost(t[..|t| - 1]); }
  }

  // ---------------------------------------------------------------------------------------
  // Walks
  // ---------------------------------------------------------------------------------------

  /** `pos` is the first slot on the walk for `key` that is vacant or holds `key` live. */
  ghost predicate FirstStop(hash: Hash, t: seq<Slot>, key: u64, pos: nat) {
    && 0 < |t| && pos < |t| && (!t[pos].occupied || (t[pos].Live() && t[pos].key == key))
    && Packed(t, Home(hash, key, |t|), pos)
    && forall q :: 0 <= q < |t| && Off(Home(hash, key, |t|), q, |t|) < Off(Home(hash, key, |t|), pos, |t|)
         ==> !(t[q].Live() && t[q].key == key)
  }

  /** The walk ends at the key exactly when the map has it. */
  lemma StopAnswers(hash: Hash, t: seq<Slot>, key: u64, pos: nat)
    requires Probed(hash, t) && FirstStop(hash, t, key, pos)
    ensures key in Contents(t) <==> t[pos].occupied
    ensures key in Contents(t) ==> Contents(t)[key] == t[pos].value
  {
    if t[pos].occupied {
      InContents(t, pos);
    } else {
      forall p | 0 <= p < |t| && t[p].Live() ensures t[p].key != key {
        assert Packed(t, Home(hash, t[p].key, |t|), p);
      }
      NotInContents(t, key);
    }
  }

  /** The walk for a key stops if and only if some slot is vacant or the key is there. */
  lemma WalkStopsExactly(hash: Hash, t: seq<Slot>, key: u64)
    requires Probed(hash, t)
    ensures (exists pos :: FirstStop(hash, t, key, pos)) <==> Vacancies(t) > 0 || key in Contents(t)
  {
    VacancyExists(t);
    if Vacancies(t) > 0 || key in Contents(t) {
      var e := SomeStop(t, key);
      var pos := FirstOf(hash, t, key, e);
    } else {
      forall p | 0 <= p < |t| && t[p].Live() ensures t[p].key != key { InContents(t, p); }
    }
  }

  predicate Stops(s: Slot, key: u64) {
    !s.occupied || (s.Live() && s.key == key)
  }

  lemma SomeStop(t: seq<Slot>, key: u64) returns (e: nat)
    requires Unique(t) && (Vacancies(t) > 0 || key in Contents(t))
    ensures e < |t| && Stops(t[e], key)
  {
    VacancyExists(t);
    if Vacancies(t) > 0 {
      e :| 0 <= e < |t| && !t[e].occupied;
    } else {
      if forall p :: 0 <= p < |t| && t[p].Live() ==> t[p].key != key { NotInContents(t, key); }
      e :| 0 <= e < |t| && t[e].Live() && t[e].key == key;
    }
  }

  lemma FirstOf(hash: Hash, t: seq<Slot>, key: u64, e: nat) returns (pos: nat)
    requires e < |t| && Stops(t[e], key)
    ensures FirstStop(hash, t, key, pos)
  {
    var h := Home(hash, key, |t|);
    pos := e;
    while exists p :: 0 <= p < |t| && Stops(t[p], key) && Off(h, p, |t|) < Off(h, pos, |t|)
      invariant pos < |t| && Stops(t[pos], key)
      decreases Off(h, pos, |t|)
    {
      var p :| 0 <= p < |t| && Stops(t[p], key) && Off(h, p, |t|) < Off(h, pos, |t|);
      pos := p;
    }
  }

  /** A new key may go into any slot without a live entry that its walk reaches over occupied slots. */
  lemma FillKeepsProbed(hash: Hash, t: seq<Slot>, at: nat, s: Slot)
    requires Probed(hash, t) && at < |t| && !t[at].Live() && s.Live() && s.key !in Contents(t)
    requires Packed(t, Home(hash, s.key, |t|), at)
    ensures Probed(hash, t[at := s]) && Contents(t[at := s]) == Contents(t)[s.key := s.value]
  {
    var t' := t[at := s];
    forall p | 0 <= p < |t| && t[p].Live() ensures t[p].key != s.key { InContents(t, p); }
    forall p | 0 <= p < |t'| && t'[p].Live() ensures Packed(t', Home(hash, t'[p].key, |t'|), p) {
      if p != at { assert Packed(t, Home(hash, t[p].key, |t|), p); }
    }
    FillContents(t, at, s);
  }

  lemma RetireKeepsProbed(hash: Hash, t: seq<Slot>, at: nat)
    requires Probed(hash, t) && at < |t| && t[at].Live()
    ensures var t' := t[at := t[at].(tombstone := true, value := 0)];
      Probed(hash, t') && Contents(t') == Contents(t) - {t[at].key} && Vacancies(t') == Vacancies(t)
  {
    var s := t[at].(tombstone := true, value := 0);
    var t' := t[at := s];
    forall p | 0 <= p < |t'| && t'[p].Live() ensures Packed(t', Home(hash, t'[p].key, |t'|), p) {
      assert Packed(t, Home(hash, t[p].key, |t|), p);
    }
    RetireContents(t, at, s);
    VacanciesUpdate(t, at, s);
  }

  lemma UpdateKeepsProbed(hash: Hash, t: seq<Slot>, at: nat, value: u64)
    requires Probed(hash, t) && at < |t| && t[at].Live()
    ensures var t' := t[at := t[at].(value := value)];
      Probed(hash, t') && Contents(t') == Contents(t)[t[at].key := value] && Vacancies(t') == Vacancies(t)
  {
    var s := t[at].(value := value);
    var t' := t[at := s];
    RetireKeepsProbed(hash, t, at);
    var gone := t[at := t[at].(tombstone := true, value := 0)];
    assert Packed(t, Home(hash, s.key, |t|), at);
    FillKeepsProbed(hash, gone, at, s);
    assert gone[at := s] == t';
    VacanciesUpdate(t, at, s);
    assert Contents(t)[s.key := value] == (Contents(t) - {s.key})[s.key := value];
  }

  /** Where insertion puts a new key: the first tombstone of its walk, or else the vacant slot that ends it. */
  ghost predicate Target(hash: Hash, t: seq<Slot>, key: u64, at: nat) {
    && 0 < |t| && at < |t| && !t[at].Live() && Packed(t, Home(hash, key, |t|), at)
    && forall q :: 0 <= q < |t| && Off(Home(hash, key, |t|), q, |t|) < Off(Home(hash, key, |t|), at, |t|)
         ==> t[q].Live()
  }

  lemma EmptyTable(hash: Hash, t: seq<Slot>)
    requires |t| > 0 && forall p :: 0 <= p < |t| ==> t[p] == VACANT
    ensures Probed(hash, t) && Contents(t) == map[] && Vacancies(t) == |t| && NoTombstones(t)
  {
    forall k ensures k !in Contents(t) { NotInContents(t, k); }
    VacanciesComplement(t);
  }

  // ---------------------------------------------------------------------------------------
  // The map itself
  // ---------------------------------------------------------------------------------------

  /** No slot on the walk from `h` before `i` stops the walk for `key`. */
  ghost predicate Passed(t: seq<Slot>, key: u64, h: nat, i: nat)
    requires h < |t| && i < |t|
  {
    forall q :: 0 <= q < |t| && Off(h, q, |t|) < Off(h, i, |t|) ==> !Stops(t[q], key)
  }

  /** `m` is the first tombstone on the walk from `h` before `i`; |t| means there is none. */
  ghost predicate Marked(t: seq<Slot>, h: nat, i: nat, m: nat)
    requires h < |t| && i < |t| && m <= |t|
  {
    && (m < |t| ==> t[m].tombstone && Off(h, m, |t|) < Off(h, i, |t|))
    && var limit := if m < |t| then m else i;
       forall q :: 0 <= q < |t| && Off(h, q, |t|) < Off(h, limit, |t|) ==> t[q].Live()
  }

  /** `(i + 1) % cap` is one step on; the slots before it are those before `i`, and `i`. */
  lemma NextOnWalk(h: nat, i: nat, e: nat, cap: nat)
    requires h < cap && i < cap && e < cap && i != e && Off(h, i, cap) <= Off(h, e, cap)
    ensures var j := (i + 1) % cap; (
      && 0 <= j < cap && Off(h, j, cap) == Off(h, i, cap) + 1 <= Off(h, e, cap)
      && forall q :: 0 <= q < cap && Off(h, q, cap) < Off(h, j, cap) ==> q == i || Off(h, q, cap) < Off(h, i, cap))
  {
    RingStep(i, 1, cap);
  }

  lemma MarkNext(t: seq<Slot>, h: nat, i: nat, m: nat, j: nat)
    requires h < |t| && i < |t| && j < |t| && m <= |t| && Marked(t, h, i, m) && t[i].occupied
    requires Off(h, j, |t|) == Off(h, i, |t|) + 1
    requires forall q :: 0 <= q < |t| && Off(h, q, |t|) < Off(h, j, |t|) ==> q == i || Off(h, q, |t|) < Off(h, i, |t|)
    ensures Marked(t, h, j, if t[i].tombstone && m == |t| then i else m)
  {
  }

  lemma TargetFound(hash: Hash, t: seq<Slot>, key: u64, i: nat, m: nat)
    requires 0 < |t| && i < |t| && m <= |t| && !t[i].occupied
    requires Passed(t, key, Home(hash, key, |t|), i) && Marked(t, Home(hash, key, |t|), i, m)
    ensures FirstStop(hash, t, key, i) && Target(hash, t, key, if m != |t| then m else i)
  {
  }

  /** The loop shared by capability_map_lookup and capability_map_delete. */
  method Walk(hash: Hash, a: array<Slot>, key: u64, ghost e: nat) returns (i: nat)
    requires e < a.Length && Stops(a[e], key)
    ensures FirstStop(hash, a[..], key, i)
  {
    ghost var t, h := a[..], Home(hash, key, a.Length);
    i := hash(key) % a.Length;
    while a[i].occupied
      invariant i < a.Length && Off(h, i, a.Length) <= Off(h, e, a.Length) && Passed(t, key, h, i)
      decreases a.Length - Off(h, i, a.Length)
    {
      if !a[i].tombstone && a[i].key == key {
        return;
      }
      NextOnWalk(h, i, e, a.Length);
      i := (i + 1) % a.Length;
    }
  }

  /** The loop of capability_map_insert, which also remembers the first tombstone it passes. */
  method WalkToInsert(hash: Hash, a: array<Slot>, key: u64, ghost e: nat) returns (i: nat, at: nat)
    requires e < a.Length && Stops(a[e], key)
    ensures FirstStop(hash, a[..], key, i)
    ensures !a[i].occupied ==> Target(hash, a[..], key, at)
  {
    ghost var t, h := a[..], Home(hash, key, a.Length);
    var tombstone: nat := a.Length; // stands for SIZE_MAX
    i := hash(key) % a.Length;
    while a[i].occupied
      invariant i < a.Length && Off(h, i, a.Length) <= Off(h, e, a.Length) && Passed(t, key, h, i)
      invariant tombstone <= a.Length && Marked(t, h, i, tombstone)
      decreases a.Length - Off(h, i, a.Length)
    {
      if !a[i].tombstone && a[i].key == key {
        at := i;
        return;
      }
      NextOnWalk(h, i, e, a.Length);
      MarkNext(t, h, i, tombstone, (i + 1) % a.Length);
      if a[i].tombstone && tombstone == a.Length {
        tombstone := i;
      }
      i := (i + 1) % a.Length;
    }
    TargetFound(hash, t, key, i, tombstone);
    at := if tombstone != a.Length then tombstone else i;
  }

  /** Puts a live entry with a new key into a table without tombstones, as the loop of resize does. */
  method Place(hash: Hash, a: array<Slot>, s: Slot)
    requires Probed(hash, a[..]) && NoTombstones(a[..]) && |Contents(a[..])| < a.Length
    requires s.Live() && s.key !in Contents(a[..])
    modifies a
    ensures Probed(hash, a[..]) && NoTombstones(a[..])
    ensures Contents(a[..]) == old(Contents(a[..]))[s.key := s.value]
  {
    ghost var t := a[..];
    VacanciesComplement(t);
    ghost var e := SomeStop(t, s.key);
    var j := Walk(hash, a, s.key, e);
    StopAnswers(hash, t, s.key, j);
    FillKeepsProbed(hash, t, j, s);
    a[j] := s;
    assert a[..] == t[j := s];
  }

  /** The copy loop of resize. */
  method Rebuild(hash: Hash, from: array<Slot>, newCapacity: nat) returns (to: array<Slot>)
    requires Unique(from[..]) && |Contents(from[..])| <= newCapacity && newCapacity > 0
    ensures fresh(to) && to.Length == newCapacity && Probed(hash, to[..])
    ensures Contents(to[..]) == Contents(from[..]) && NoTombstones(to[..])
  {
    to := new Slot[newCapacity](_ => VACANT);
    EmptyTable(hash, to[..]);
    ghost var t := from[..];
    for i := 0 to from.Length
      invariant from[..] == t && Probed(hash, to[..]) && NoTombstones(to[..]) && Contents(to[..]) == Contents(t[..i])
    {
      assert t[..i + 1][..i] == t[..i];
      if from[i].occupied && !from[i].tombstone {
        NotInContents(t[..i], t[i].key);
        FewerBefore(t, i);
        Place(hash, to, from[i]);
      }
    }
    assert t[..from.Length] == t;
  }

  /** Before a live slot there are fewer live entries than in the whole table. */
  lemma {:induction false} FewerBefore(t: seq<Slot>, i: nat)
    requires Unique(t) && i < |t| && t[i].Live()
    ensures |Contents(t[..i])| < |Contents(t)|
  {
    var r := t[..|t| - 1];
    if i == |r| {
      NotInContents(r, t[i].key);
    } else {
      assert r[..i] == t[..i] && r[i] == t[i];
      FewerBefore(r, i);
    }
  }

  /** The load test `(size + 1) / capacity > 0.75`. */
  predicate MustGrow(size: nat, cap: nat) {
    4 * (size + 1) > 3 * cap
  }

  class CapabilityMap {
    const hash: Hash
    var entries: array<Slot>
    var capacity: nat
    var size: nat

    ghost predicate Valid()
      reads this, entries
    {
      && capacity == entries.Length && Probed(hash, entries[..])
      && size == |Contents(entries[..])| && 4 * size <= 3 * capacity
    }

    ghost function Abs(): map<u64, u64>
      reads this, entries
    {
      Contents(entries[..])
    }

    ghost function Vacant(): nat
      reads this, entries
    {
      Vacancies(entries[..])
    }

    /** capability_map_init, once its memory has been allocated. */
    constructor (hash: Hash)
      ensures Valid() && fresh(entries) && this.hash == hash
      ensures Abs() == map[] && capacity == INITIAL_CAPACITY && entries[..] == seq(INITIAL_CAPACITY, _ => VACANT)
      ensures Vacant() == INITIAL_CAPACITY
    {
      this.hash := hash;
      entries := new Slot[INITIAL_CAPACITY](_ => VACANT);
      capacity := INITIAL_CAPACITY;
      size := 0;
      new;
      EmptyTable(hash, entries[..]);
    }

    /** resize; afterwards every slot without a live entry is vacant. */
    method Resize(newCapacity: nat, memory: bool) returns (ok: bool)
      requires Valid() && capacity <= newCapacity
      modifies this
      ensures Valid() && ok == memory && Abs() == old(Abs()) && size == old(size)
      ensures !ok ==> entries == old(entries) && capacity == old(capacity)
      ensures ok ==> fresh(entries) && capacity == newCapacity && NoTombstones(entries[..])
      ensures ok ==> Vacant() == capacity - size > 0
    {
      if !memory {
        return false;
      }
      var bigger := Rebuild(hash, entries, newCapacity);
      VacanciesComplement(bigger[..]);
      entries, capacity := bigger, newCapacity;
      ok := true;
    }

    /** capability_map_cleanup: works even when no slot is vacant, and changes nothing in the map. */
    method Cleanup(memory: bool) returns (ok: bool)
      requires Valid()
      modifies this
      ensures Valid() && ok == memory && Abs() == old(Abs()) && capacity == old(capacity)
      ensures !ok ==> entries == old(entries)
      ensures ok ==> fresh(entries) && NoTombstones(entries[..]) && Vacant() == capacity - size > 0
    {
      ok := Resize(capacity, memory);
    }

    /** capability_map_lookup. */
    method Lookup(key: u64) returns (value: u64)
      requires Valid() && (Vacant() > 0 || key in Abs())
      ensures value == if key in Abs() then Abs()[key] else 0
    {
      ghost var e := SomeStop(entries[..], key);
      var i := Walk(hash, entries, key, e);
      StopAnswers(hash, entries[..], key, i);
      value := if entries[i].occupied then entries[i].value else 0;
    }

    /** capability_map_delete. */
    method Delete(key: u64) returns (ok: bool)
      requires Valid() && (Vacant() > 0 || key in Abs())
      modifies entries, `size
      ensures Valid() && ok == (key in old(Abs())) && Abs() == old(Abs()) - {key} && Vacant() == old(Vacant())
      ensures !ok ==> entries[..] == old(entries[..])
      ensures ok ==> Retired(old(entries[..]), key, entries[..])
    {
      ghost var t := entries[..];
      ghost var e := SomeStop(entries[..], key);
      var i := Walk(hash, entries, key, e);
      StopAnswers(hash, t, key, i);
      if !entries[i].occupied {
        assert Contents(t) - {key} == Contents(t);
        return false;
      }
      RetireKeepsProbed(hash, t, i);
      assert Contents(t) == (Contents(t) - {key})[key := t[i].value];
      entries[i] := entries[i].(tombstone := true, value := 0);
      assert entries[..] == t[i := t[i].(tombstone := true, value := 0)];
      size := size - 1;
      ok := true;
    }

    /** capability_map_insert. */
    method Insert(key: u64, value: u64, memory: bool) returns (ok: bool)
      requires Valid() && (Vacant() > 0 || key in Abs() || MustGrow(size, capacity))
      modifies this, entries
      ensures Valid() && (entries == old(entries) || fresh(entries))
      ensures ok == (4 * (old(size) + 1) <= 3 * old(capacity) || memory)
      ensures !MustGrow(old(size), old(capacity)) ==> entries == old(entries)
      ensures !ok ==> entries == old(entries) && entries[..] == old(entries[..]) && capacity == old(capacity)
      ensures ok ==> Abs() == old(Abs())[key := value]
      ensures ok ==>
        capacity == if 4 * (old(size) + 1) > 3 * old(capacity) then 2 * old(capacity) else old(capacity)
      ensures ok && MustGrow(old(size), old(capacity)) ==> Vacant() >= capacity - old(size) - 1
      ensures ok && !MustGrow(old(size), old(capacity)) ==> Stored(hash, old(entries[..]), key, value, entries[..])
    {
      if MustGrow(size, capacity) {
        var grown := Resize(capacity * 2, memory);
        if !grown {
          return false;
        }
      }
      Put(key, value);
      ok := true;
    }

    /** The part of capability_map_insert after the load test. */
    method Put(key: u64, value: u64)
      requires Valid() && !MustGrow(size, capacity) && (Vacant() > 0 || key in Abs())
      modifies entries, `size
      ensures Valid() && Abs() == old(Abs())[key := value]
      ensures Stored(hash, old(entries[..]), key, value, entries[..])
    {
      ghost var e := SomeStop(entries[..], key);
      var i, at := WalkToInsert(hash, entries, key, e);
      StopAnswers(hash, entries[..], key, i);
      if entries[i].occupied {
        Overwrite(i, value);
      } else {
        Fill(at, key, value);
      }
    }

    method Overwrite(i: nat, value: u64)
      requires Valid() && i < capacity && entries[i].Live()
      modifies entries
      ensures Valid() && Abs() == old(Abs())[old(entries[i].key) := value] && Vacant() == old(Vacant())
    {
      ghost var t := entries[..];
      UpdateKeepsProbed(hash, t, i, value);
      InContents(t, i);
      entries[i] := entries[i].(value := value);
      assert entries[..] == t[i := t[i].(value := value)];
    }

    method Fill(at: nat, key: u64, value: u64)
      requires Valid() && !MustGrow(size, capacity) && key !in Abs() && Target(hash, entries[..], key, at)
      modifies entries, `size
      ensures Valid() && Abs() == old(Abs())[key := value]
      ensures StoredAt(hash, old(entries[..]), key, value, entries[..], at)
    {
      ghost var t := entries[..];
      var s := Slot(key, value, true, false);
      FillKeepsProbed(hash, t, at, s);
      VacanciesUpdate(t, at, s);
      entries[at] := s;
      assert entries[..] == t[at := s];
      size := size + 1;
    }
  }

  /** The live entry of `key` has become a tombstone. */
  ghost predicate Retired(t: seq<Slot>, key: u64, t': seq<Slot>) {
    exists i: nat :: i < |t| && t[i].Live() && t[i].key == key && t' == t[i := t[i].(tombstone := true, value := 0)]
  }

  /** A new key has gone into slot `at`. */
  ghost predicate StoredAt(hash: Hash, t: seq<Slot>, key: u64, value: u64, t': seq<Slot>, at: nat) {
    && Target(hash, t, key, at) && t' == t[at := Slot(key, value, true, false)]
    && Vacancies(t') == Vacancies(t) - if t[at].occupied then 0 else 1
  }

  /** What an insertion without growth does to the slots, and to the number of vacant ones. */
  ghost predicate Stored(hash: Hash, t: seq<Slot>, key: u64, value: u64, t': seq<Slot>) {
    if key in Contents(t) then Vacancies(t') == Vacancies(t)
    else exists at: nat :: StoredAt(hash, t, key, value, t', at)
  }

  // ---------------------------------------------------------------------------------------
  // Whole runs
  // ---------------------------------------------------------------------------------------

  datatype Op =
    | Insert(key: u64, value: u64, memory: bool) // memory: whether a needed resize gets its blocks
    | Lookup(key: u64)
    | Delete(key: u64)
    | Cleanup(memory: bool)

  datatype Reply = Done(ok: bool) | Pointer(value: u64)

  /** The finite map with the capacity that decides when memory is needed. */
  datatype Plain = Plain(m: map<u64, u64>, cap: nat)

  function Act(s: Plain, op: Op): (Plain, Reply) {
    match op
    case Insert(key, value, memory) =>
      if !MustGrow(|s.m|, s.cap) then (Plain(s.m[key := value], s.cap), Done(true))
      else if memory then (Plain(s.m[key := value], 2 * s.cap), Done(true))
      else (s, Done(false))
    case Lookup(key) => (s, Pointer(if key in s.m then s.m[key] else 0))
    case Delete(key) => (Plain(s.m - {key}, s.cap), Done(key in s.m))
    case Cleanup(memory) => (s, Done(memory))
  }

  function Replies(s: Plain, ops: seq<Op>): (r: seq<Reply>)
    ensures |r| == |ops|
    decreases |ops|
  {
    if ops == [] then [] else [Act(s, ops[0]).1] + Replies(Act(s, ops[0]).0, ops[1..])
  }

  function Final(s: Plain, ops: seq<Op>): (s': Plain)
    decreases |ops|
  {
    if ops == [] then s else Final(Act(s, ops[0]).0, ops[1..])
  }

  lemma {:induction false} RunSnoc(s: Plain, ops: seq<Op>, op: Op)
    ensures Final(s, ops + [op]) == Act(Final(s, ops), op).0
    ensures Replies(s, ops + [op]) == Replies(s, ops) + [Act(Final(s, ops), op).1]
    decreases |ops|
  {
    if ops != [] {
      assert (ops + [op])[1..] == ops[1..] + [op];
      RunSnoc(Act(s, ops[0]).0, ops[1..], op);
    }
  }

  /** The call ends: some slot is vacant, the key is there, or the table is rebuilt first. */
  predicate Ends(t: seq<Slot>, op: Op) {
    match op
    case Insert(key, _, _) => Vacancies(t) > 0 || key in Contents(t) || MustGrow(|Contents(t)|, |t|)
    case Lookup(key) => Vacancies(t) > 0 || key in Contents(t)
    case Delete(key) => Vacancies(t) > 0 || key in Contents(t)
    case Cleanup(_) => true
  }

  /** A call ends exactly when its walk does, which an insertion that rebuilds the table first always does. */
  lemma EndsExactly(hash: Hash, t: seq<Slot>, op: Op)
    requires Probed(hash, t)
    ensures op.Cleanup? ==> Ends(t, op)
    ensures !op.Cleanup? ==> (Ends(t, op) <==>
      (op.Insert? && 4 * (|Contents(t)| + 1) > 3 * |t|) || exists pos :: FirstStop(hash, t, op.key, pos))
  {
    if !op.Cleanup? { WalkStopsExactly(hash, t, op.key); }
  }

  /** What a caller can reckon with: the map, the capacity, and a number of slots that must still be vacant. */
  datatype Model = Model(s: Plain, credit: nat)

  /** By the caller's reckoning the call ends. */
  predicate Ready(s: Model, op: Op) {
    match op
    case Insert(key, _, _) => s.credit > 0 || key in s.s.m || MustGrow(|s.s.m|, s.s.cap)
    case Lookup(key) => s.credit > 0 || key in s.s.m
    case Delete(key) => s.credit > 0 || key in s.s.m
    case Cleanup(_) => true
  }

  /** A new key may use up a vacant slot; a rebuilt table has as many as it has no live entries. */
  function Reckon(s: Model, op: Op): Model {
    var after := Act(s.s, op).0;
    match op
    case Insert(key, value, memory) =>
      if !MustGrow(|s.s.m|, s.s.cap) then Model(after, if key in s.s.m || s.credit == 0 then s.credit else s.credit - 1)
      else if memory then Model(after, Spare(after.cap, |s.s.m| + 1))
      else s
    case Lookup(_) => s
    case Delete(_) => Model(after, s.credit)
    case Cleanup(memory) => if memory then Model(after, Spare(s.s.cap, |s.s.m|)) else s
  }

  function Spare(cap: nat, used: nat): nat {
    if used <= cap then cap - used else 0
  }

  ghost predicate Covers(s: Model, c: CapabilityMap)
    reads c, c.entries
  {
    s.s == Plain(c.Abs(), c.capacity) && s.credit <= c.Vacant()
  }

  /** A reckoning that starts with fewer vacant slots ends with no more. */
  lemma ReckonLess(s: Model, op: Op, vacant: nat)
    requires s.credit <= vacant
    ensures Reckon(s, op).s == Reckon(Model(s.s, vacant), op).s == Act(s.s, op).0
    ensures Reckon(s, op).credit <= Reckon(Model(s.s, vacant), op).credit
  {
  }

  /** Every call that ends is answered as the finite map answers it, and leaves as many vacant slots as reckoned. */
  method Perform(c: CapabilityMap, op: Op) returns (reply: Reply)
    requires c.Valid() && Ends(c.entries[..], op)
    modifies c, c.entries
    ensures c.Valid() && (c.entries == old(c.entries) || fresh(c.entries))
    ensures (Plain(c.Abs(), c.capacity), reply) == Act(old(Plain(c.Abs(), c.capacity)), op)
    ensures Covers(Reckon(Model(old(Plain(c.Abs(), c.capacity)), old(c.Vacant())), op), c)
  {
    LiveAtMost(c.entries[..]);
    match op
    case Insert(key, value, memory) =>
      var ok := c.Insert(key, value, memory);
      reply := Done(ok);
    case Lookup(key) =>
      var value := c.Lookup(key);
      reply := Pointer(value);
    case Delete(key) =>
      var ok := c.Delete(key);
      reply := Done(ok);
    case Cleanup(memory) =>
      var ok := c.Cleanup(memory);
      reply := Done(ok);
  }

  /**
   Any run whatsoever: up to the first call that would never end, every call is answered exactly as
   the finite map answers it, across tombstone reuse, doublings and clean-ups.
   */
  method Run(c: CapabilityMap, ops: seq<Op>) returns (replies: seq<Reply>)
    requires c.Valid()
    modifies c, c.entries
    ensures c.Valid() && |replies| <= |ops|
    ensures replies == Replies(old(Plain(c.Abs(), c.capacity)), ops[..|replies|])
    ensures Plain(c.Abs(), c.capacity) == Final(old(Plain(c.Abs(), c.capacity)), ops[..|replies|])
    ensures |replies| < |ops| ==> !Ends(c.entries[..], ops[|replies|])
  {
    replies := [];
    ghost var start := Plain(c.Abs(), c.capacity);
    assert ops[..0] == [];
    for i := 0 to |ops|
      invariant c.Valid() && (c.entries == old(c.entries) || fresh(c.entries)) && |replies| == i
      invariant replies == Replies(start, ops[..i]) && Plain(c.Abs(), c.capacity) == Final(start, ops[..i])
    {
      if !Ends(c.entries[..], ops[i]) {
        return;
      }
      RunSnoc(start, ops[..i], ops[i]);
      assert ops[..i + 1] == ops[..i] + [ops[i]];
      var reply := Perform(c, ops[i]);
      replies := replies + [reply];
    }
  }

  predicate Safe(s: Model, ops: seq<Op>)
    decreases |ops|
  {
    ops == [] || (Ready(s, ops[0]) && Safe(Reckon(s, ops[0]), ops[1..]))
  }

  function Inserts(ops: seq<Op>): nat {
    if ops == [] then 0 else Inserts(ops[1..]) + if ops[0].Insert? then 1 else 0
  }

  /** A run with fewer insertions than vacant slots at its start is safe, whatever else it does. */
  lemma {:induction false} FewInsertsAreSafe(s: Model, ops: seq<Op>)
    requires s.s.cap >= 4 && 4 * |s.s.m| <= 3 * s.s.cap && s.credit + |s.s.m| <= s.s.cap && Inserts(ops) < s.credit
    ensures Safe(s, ops)
    decreases |ops|
  {
    if ops != [] {
      ReckonKeepsCredit(s, ops[0]);
      FewInsertsAreSafe(Reckon(s, ops[0]), ops[1..]);
    }
  }

  lemma ReckonKeepsCredit(s: Model, op: Op)
    requires s.s.cap >= 4 && 4 * |s.s.m| <= 3 * s.s.cap && 0 < s.credit && s.credit + |s.s.m| <= s.s.cap
    ensures var r := Reckon(s, op);
      && r.s.cap >= 4 && 4 * |r.s.m| <= 3 * r.s.cap && r.credit + |r.s.m| <= r.s.cap
      && r.credit >= s.credit - (if op.Insert? then 1 else 0)
  {
    if op.Delete? { FewerWithout(s.s.m, op.key); }
  }

  lemma FewerWithout(m: map<u64, u64>, k: u64)
    ensures |m - {k}| <= |m|
  {
    if k in m {
      assert m == (m - {k})[k := m[k]];
    } else {
      assert m - {k} == m;
    }
  }

  /** A run that a caller can reckon to be safe, without looking at the slots, ends and is answered in full. */
  method ReckonedRun(c: CapabilityMap, ops: seq<Op>, ghost s: Model) returns (replies: seq<Reply>)
    requires c.Valid() && Covers(s, c) && Safe(s, ops)
    modifies c, c.entries
    ensures c.Valid() && replies == Replies(s.s, ops) && Plain(c.Abs(), c.capacity) == Final(s.s, ops)
    decreases |ops|
  {
    if ops == [] {
      return [];
    }
    ReckonLess(s, ops[0], c.Vacant());
    var first := Perform(c, ops[0]);
    var rest := ReckonedRun(c, ops[1..], Reckon(s, ops[0]));
    replies := [first] + rest;
  }

  /** capability_map_init; `lock` and `blocks` say what the slab and block allocators can give. */
  method Init(hash: Hash, lock: bool, blocks: bool) returns (c: CapabilityMap?)
    ensures c != null <==> lock && blocks
    ensures c != null ==> fresh(c) && fresh(c.entries) && c.Valid() && c.hash == hash
    ensures c != null ==> c.Abs() == map[] && c.capacity == 64 == c.Vacant()
  {
    if !lock || !blocks {
      return null;
    }
    c := new CapabilityMap(hash);
  }

  /**
   The load test does not see tombstones: as many insert-and-delete pairs as there are slots, with
   keys of different home slots, leave a new map empty and without a single vacant slot.
   */
  method WearOut(c: CapabilityMap, keys: seq<u64>)
    requires c.Valid() && c.capacity == |keys| && |keys| >= 2
    requires forall p :: 0 <= p < |keys| ==> c.entries[p] == VACANT
    requires forall i :: 0 <= i < |keys| ==> c.hash(keys[i]) % |keys| == i
    modifies c, c.entries
    ensures c.Valid() && c.Abs() == map[] && c.capacity == old(c.capacity) && c.Vacant() == 0
  {
    EmptyTable(c.hash, c.entries[..]);
    for i := 0 to |keys|
      invariant c.Valid() && c.capacity == |keys| && c.entries == old(c.entries) && c.Abs() == map[]
      invariant forall p :: 0 <= p < i ==> c.entries[p].occupied
      invariant forall p :: i <= p < |keys| ==> c.entries[p] == VACANT
    {
      WearSlot(c, keys[i], i);
    }
    NoVacancy(c.entries[..]);
  }

  method WearSlot(c: CapabilityMap, key: u64, i: nat)
    requires c.Valid() && c.Abs() == map[] && i < c.capacity && c.capacity >= 2
    requires c.hash(key) % c.capacity == i && c.entries[i] == VACANT
    modifies c, c.entries
    ensures c.Valid() && c.Abs() == map[] && c.capacity == old(c.capacity) && c.entries == old(c.entries)
    ensures c.entries[i].occupied && forall p :: 0 <= p < c.capacity && p != i ==> c.entries[p] == old(c.entries[p])
  {
    ghost var t := c.entries[..];
    assert !t[i].occupied;
    VacancyExists(t);
    assert c.size == 0 && !MustGrow(c.size, c.capacity);
    var ok := c.Insert(key, 0, false);
    ghost var u := c.entries[..];
    ok := c.Delete(key);
    WornSlot(c.hash, t, key, i, u, c.entries[..]);
    assert forall p :: 0 <= p < |t| ==> c.entries[p] == c.entries[..][p];
  }

  lemma WornSlot(hash: Hash, t: seq<Slot>, key: u64, i: nat, u: seq<Slot>, v: seq<Slot>)
    requires 0 < |t| && i == Home(hash, key, |t|) && !t[i].Live() && key !in Contents(t)
    requires Stored(hash, t, key, 0, u) && Unique(u) && Retired(u, key, v)
    ensures v == t[i := Slot(key, 0, true, true)]
  {
    var at: nat :| StoredAt(hash, t, key, 0, u, at);
    assert Off(i, i, |t|) == 0;
    assert at == i && u[i] == Slot(key, 0, true, false);
    var j: nat :| j < |u| && u[j].Live() && u[j].key == key && v == u[j := u[j].(tombstone := true, value := 0)];
    assert j == i;
  }
}
