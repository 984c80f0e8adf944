/**
 The intrusive priority queue of kernel/structs/pq.c. A queue is a chain of tasks through their own
 `next` field, lowest `prio` value first and first-come within one value. It is proved to be one
 FIFO lane per priority value: a push appends to one lane and a pop takes from the lowest lane.
 */
module TaskQueues {
  import opened Machine

  datatype TaskState = Blocked | Ready | Running

  /** A task; `cls` and `prio` are fixed when it is created. */
  class Task {
    const cls: nat
    const prio: nat
    var next: Task?
    var state: TaskState
    var tsRemain: nat

    constructor (cls: nat, prio: nat)
      ensures this.cls == cls && this.prio == prio && state == Ready && tsRemain == 10 && next == null
    {
      this.cls, this.prio, next, state, tsRemain := cls, prio, null, Ready, 10;
    }
  }

  ghost predicate Sorted(q: seq<Task>) {
    forall i, j :: 0 <= i < j < |q| ==> q[i].prio <= q[j].prio
  }

  /** How many tasks at the front are not behind a newcomer of priority `prio`. */
  function Ahead(q: seq<Task>, prio: nat): (n: nat)
    ensures n <= |q| && (n < |q| ==> prio < q[n].prio)
    ensures forall i :: 0 <= i < n ==> q[i].prio <= prio
  {
    if q == [] || prio < q[0].prio then 0 else 1 + Ahead(q[1..], prio)
  }

  function Push(q: seq<Task>, t: Task): (r: seq<Task>)
    ensures |r| == |q| + 1
    ensures var n := Ahead(q, t.prio);
      r[n] == t && (forall k {:trigger r[k]} :: 0 <= k < n ==> r[k] == q[k])
      && (forall k {:trigger r[k]} :: n < k < |r| ==> r[k] == q[k - 1])
  {
    var n := Ahead(q, t.prio);
    q[..n] + [t] + q[n..]
  }

  /** Those of priority `p`, in queue order. */
  function Lane(q: seq<Task>, p: nat): seq<Task> {
    if q == [] then [] else Only(q[0], p) + Lane(q[1..], p)
  }

  function Only(t: Task, p: nat): seq<Task> {
    if t.prio == p then [t] else []
  }

  lemma {:induction false} LaneConcat(q: seq<Task>, r: seq<Task>, p: nat)
    ensures Lane(q + r, p) == Lane(q, p) + Lane(r, p)
  {
    if q == [] {
      assert q + r == r;
    } else {
      assert (q + r)[0] == q[0] && (q + r)[1..] == q[1..] + r;
      LaneConcat(q[1..], r, p);
      Assoc(Only(q[0], p), Lane(q[1..], p), Lane(r, p));
    }
  }

  lemma {:induction false} LaneAbove(q: seq<Task>, p: nat)
    requires forall i :: 0 <= i < |q| ==> q[i].prio != p
    ensures Lane(q, p) == []
  {
    if q != [] { LaneAbove(q[1..], p); }
  }

  lemma {:induction false} PushSorted(q: seq<Task>, t: Task)
    requires Sorted(q)
    ensures Sorted(Push(q, t))
  {
    var n, r := Ahead(q, t.prio), Push(q, t);
    forall k | n <= k < |q| ensures t.prio <= q[k].prio { assert n < k ==> q[n].prio <= q[k].prio; }
    forall i, j | 0 <= i < j < |r| ensures r[i].prio <= r[j].prio {
      assert i != n && j != n ==> r[i] == q[if i < n then i else i - 1] && r[j] == q[if j < n then j else j - 1];
    }
  }

  lemma {:induction false} BeyondIsAbove(q: seq<Task>, prio: nat)
    requires Sorted(q)
    ensures forall k :: Ahead(q, prio) <= k < |q| ==> prio < q[k].prio
  {
    var n := Ahead(q, prio);
    forall k | n <= k < |q| ensures prio < q[k].prio { assert n < k ==> q[n].prio <= q[k].prio; }
  }

  /** A push appends to the lane of its own priority and leaves every other lane alone. */
  lemma {:induction false} PushLane(q: seq<Task>, t: Task, p: nat)
    requires Sorted(q)
    ensures Lane(Push(q, t), p) == Lane(q, p) + Only(t, p)
  {
    var n := Ahead(q, t.prio);
    LaneBeyond(q, t.prio);
    LaneSplice(q[..n], t, q[n..], p);
    assert q[..n] + q[n..] == q;
  }

  lemma {:induction false} LaneSplice(a: seq<Task>, t: Task, b: seq<Task>, p: nat)
    requires Lane(b, t.prio) == []
    ensures Lane(a + [t] + b, p) == Lane(a + b, p) + Only(t, p)
  {
    LaneConcat(a, b, p);
    LaneInsert(a, t, b, p);
  }

  lemma {:induction false} LaneBeyond(q: seq<Task>, p: nat)
    requires Sorted(q)
    ensures Lane(q[Ahead(q, p)..], p) == []
  {
    BeyondIsAbove(q, p);
    LaneAbove(q[Ahead(q, p)..], p);
  }

  lemma {:induction false} LaneInsert(a: seq<Task>, t: Task, b: seq<Task>, p: nat)
    ensures Lane(a + [t] + b, p) == Lane(a, p) + Only(t, p) + Lane(b, p)
  {
    LaneConcat(a + [t], b, p);
    LaneConcat(a, [t], p);
    assert [t][1..] == [];
    assert Lane([t], p) == Only(t, p);
  }

  /** The head of a sorted queue heads the lowest nonempty lane. */
  lemma {:induction false} HeadLane(q: seq<Task>, p: nat)
    requires Sorted(q) && q != []
    ensures p < q[0].prio ==> Lane(q, p) == []
    ensures Lane(q, p) == Only(q[0], p) + Lane(q[1..], p)
  {
    if p < q[0].prio { LaneAbove(q, p); }
  }

  lemma {:induction false} SameHead(q: seq<Task>, r: seq<Task>)
    requires Sorted(q) && Sorted(r) && q != [] && r != [] && forall p: nat :: Lane(q, p) == Lane(r, p)
    ensures q[0] == r[0]
  {
    var a, b := q[0].prio, r[0].prio;
    assert Lane(q, a) == Lane(r, a) && Lane(q, b) == Lane(r, b);
    HeadLane(q, a);
    HeadLane(q, b);
    HeadLane(r, a);
    HeadLane(r, b);
    assert Lane(q, a)[0] == q[0] && Lane(r, b)[0] == r[0];
  }

  /** The lanes determine a sorted queue: nothing else about it is observable. */
  lemma {:induction false} LanesDetermine(q: seq<Task>, r: seq<Task>)
    requires Sorted(q) && Sorted(r) && forall p: nat :: Lane(q, p) == Lane(r, p)
    ensures q == r
  {
    assert q != [] ==> Lane(r, q[0].prio) == Lane(q, q[0].prio) && r != [];
    assert r != [] ==> Lane(q, r[0].prio) == Lane(r, r[0].prio) && q != [];
    if q != [] {
      SameHead(q, r);
      forall p: nat ensures Lane(q[1..], p) == Lane(r[1..], p) {
        assert Lane(q, p) == Lane(r, p);
        var front := Only(q[0], p);
        assert Lane(q[1..], p) == Lane(q, p)[|front|..];
        assert Lane(r[1..], p) == Lane(r, p)[|front|..];
      }
      LanesDetermine(q[1..], r[1..]);
    }
  }

  lemma PushMember(q: seq<Task>, t: Task, i: nat)
    requires i <= |q|
    ensures Push(q, t)[i] == t || Push(q, t)[i] in q
    ensures t in Push(q, t)
  {
    assert Push(q, t)[Ahead(q, t.prio)] == t;
  }

  lemma {:induction false} PushDistinct(q: seq<Task>, t: Task)
    requires Distinct(q) && t !in q
    ensures Distinct(Push(q, t))
    ensures forall u :: u in Push(q, t) <==> u in q || u == t
  {
    var n, r := Ahead(q, t.prio), Push(q, t);
    forall u | u in q ensures u in r {
      var i :| 0 <= i < |q| && q[i] == u;
      assert r[if i < n then i else i + 1] == u;
    }
    forall i, j | 0 <= i < j < |r| ensures r[i] != r[j] {
      assert i != n ==> r[i] == q[if i < n then i else i - 1];
      assert j != n ==> r[j] == q[if j < n then j else j - 1];
    }
  }

  // ---------------------------------------------------------------------------------------
  // The linked queue
  // ---------------------------------------------------------------------------------------

  ghost function TaskAt(q: seq<Task>, i: nat): Task? {
    if i < |q| then q[i] else null
  }

  /** The members of `q` are linked from `head` through `next`, in order. */
  ghost predicate Chain(head: Task?, q: seq<Task>)
    reads q`next
  {
    && Distinct(q) && head == TaskAt(q, 0)
    && forall i {:trigger q[i].next} :: 0 <= i < |q| ==> q[i].next == TaskAt(q, i + 1)
  }

  class TaskQueue {
    var head: Task?
    ghost var tasks: seq<Task>

    ghost predicate Valid()
      reads this, tasks`next
    {
      Chain(head, tasks) && Sorted(tasks)
    }

    /** A queue that is empty from the start. */
    constructor ()
      ensures Valid() && tasks == []
    {
      head, tasks := null, [];
    }

    /** task_pq_init on a queue in use: it is empty, whatever it held. */
    method Reset()
      modifies this
      ensures Valid() && tasks == []
    {
      head, tasks := null, [];
    }

    /** task_pq_push; a null task is ignored. */
    method Add(t: Task?)
      requires Valid() && t !in tasks
      modifies this, (if t == null then {} else {t})`next, tasks`next
      ensures Valid() && tasks == if t == null then old(tasks) else Push(old(tasks), t)
    {
      if t != null {
        Insert(t);
      }
    }

    method Insert(t: Task)
      requires Valid() && t !in tasks
      modifies this, t`next, tasks`next
      ensures Valid() && tasks == Push(old(tasks), t)
    {
      PushSorted(tasks, t);
      PushDistinct(tasks, t);
      if head == null || t.prio < head.prio {
        t.next := head;
        head := t;
        tasks := [t] + tasks;
        return;
      }
      var current: Task := head;
      ghost var i := 0;
      while current.next != null && current.next.prio <= t.prio
        invariant i < |tasks| && current == tasks[i] && i < Ahead(tasks, t.prio)
        decreases |tasks| - i
      {
        assert current.next == tasks[i + 1];
        current := current.next;
        i := i + 1;
      }
      LinkAfter(current, t, i);
    }

    method LinkAfter(current: Task, t: Task, ghost i: nat)
      requires Valid() && t !in tasks && i < |tasks| && current == tasks[i] && i + 1 == Ahead(tasks, t.prio)
      modifies `tasks, t`next, current`next
      ensures Valid() && tasks == Push(old(tasks), t)
    {
      PushSorted(tasks, t);
      PushDistinct(tasks, t);
      t.next := current.next;
      current.next := t;
      tasks := Push(tasks, t);
    }

    /** task_pq_pop. */
    method Take() returns (t: Task?)
      requires Valid()
      modifies this, tasks`next
      ensures Valid()
      ensures old(tasks) == [] ==> t == null && tasks == []
      ensures old(tasks) != [] ==> t == old(tasks)[0] && tasks == old(tasks)[1..] && t.next == null
    {
      if head == null {
        return null;
      }
      t := head;
      head := head.next;
      t.next := null;
      tasks := tasks[1..];
    }
  }
}
