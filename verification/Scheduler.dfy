/**
 The prioritised round-robin scheduler of kernel/sched/prr.c for one processor, on values: a queue
 per class, the running task, and each task's state and remaining time slice. `SchedulerHeap` runs
 it on linked tasks.
 */
module Scheduler {
  import opened Machine
  import opened TaskQueues

  const DEFAULT_TIMESLICE: nat := 10

  /** Classes are 0 idle, 1 normal, 2 high, 3 realtime; larger numbers are invalid. */
  datatype Sched = Sched(
    queues: seq<seq<Task>>,
    total: nat,
    current: Task?,
    state: map<Task, TaskState>,
    slice: map<Task, nat>)

  ghost predicate WellFormed(s: Sched) {
    && |s.queues| == 4 && s.state.Keys == s.slice.Keys && (s.current == null || s.current in s.state)
    && forall c, i :: 0 <= c < 4 && 0 <= i < |s.queues[c]| ==> s.queues[c][i] in s.state
  }

  /** sched_enqueue_on; a task with an invalid class is dropped. */
  function Enqueue(s: Sched, t: Task): Sched
    requires |s.queues| == 4
  {
    if t.cls < 4 then s.(queues := s.queues[t.cls := Push(s.queues[t.cls], t)], total := s.total + 1) else s
  }

  /** The highest class with a queued task, or -1. */
  function Top(queues: seq<seq<Task>>): (c: int)
    requires |queues| == 4
    ensures -1 <= c < 4 && (c >= 0 ==> queues[c] != [])
    ensures forall d :: c < d < 4 ==> queues[d] == []
  {
    if queues[3] != [] then 3 else if queues[2] != [] then 2 else if queues[1] != [] then 1
    else if queues[0] != [] then 0 else -1
  }

  /** One tick off the running task's slice. */
  function Charge(s: Sched): Sched
    requires WellFormed(s)
  {
    if s.current != null && s.slice[s.current] > 0
    then s.(slice := s.slice[s.current := s.slice[s.current] - 1]) else s
  }

  /** Whether the (already charged) running task stays on against the candidate. */
  predicate Continues(s: Sched, candidate: Task)
    requires WellFormed(s)
  {
    && s.current != null && s.state[s.current] != Blocked && s.slice[s.current] > 0
    && !Preempts(candidate, s.current)
  }

  /** The candidate beats a running task that has time left. */
  predicate Preempts(candidate: Task, running: Task) {
    !(candidate.cls <= running.cls || (candidate.cls == running.cls && candidate.prio >= running.prio))
  }

  /** Takes the first task off queue `c`. */
  function Pop(s: Sched, c: nat): Sched
    requires |s.queues| == 4 && c < 4 && s.queues[c] != []
  {
    s.(queues := s.queues[c := s.queues[c][1..]], total := if s.total > 0 then s.total - 1 else 0)
  }

  /** Puts a still running task back into its queue. */
  function Requeue(s: Sched): Sched
    requires |s.queues| == 4 && (s.current == null || s.current in s.state)
  {
    if s.current != null && s.state[s.current] == Running
    then Enqueue(s.(state := s.state[s.current := Ready]), s.current) else s
  }

  function Dispatch(s: Sched, t: Task): Sched {
    s.(current := t, state := s.state[t := Running], slice := s.slice[t := DEFAULT_TIMESLICE])
  }

  /** sched_schedule. */
  function Schedule(s: Sched): Sched
    requires WellFormed(s)
  {
    var c := Top(s.queues);
    if c < 0 then s
    else
      var candidate := s.queues[c][0];
      if Continues(Charge(s), candidate) then Charge(s)
      else Dispatch(Requeue(Pop(Charge(s), c)), candidate)
  }

  // ---------------------------------------------------------------------------------------
  // Safety
  // ---------------------------------------------------------------------------------------

  /** Queue `c` is sorted, has no task twice, and holds exactly the members of `ready` of class `c`. */
  ghost predicate Lined(q: seq<Task>, c: nat, ready: set<Task>) {
    && Sorted(q) && Distinct(q) && (forall t :: t in q ==> t in ready && t.cls == c)
    && forall t :: t in ready && t.cls == c ==> t in q
  }

  /** The queues hold exactly the members of `ready`, each in the queue of its class, and `total` counts them. */
  ghost predicate Filed(s: Sched, ready: set<Task>) {
    && |s.queues| == 4 && (forall c :: 0 <= c < 4 ==> Lined(s.queues[c], c, ready))
    && (forall t :: t in ready ==> t.cls < 4)
    && s.total == |s.queues[0]| + |s.queues[1]| + |s.queues[2]| + |s.queues[3]|
  }

  ghost function ReadyTasks(s: Sched): set<Task> {
    set t | t in s.state && s.state[t] == Ready
  }

  /** What holds between a call of sched_block and the switch that follows it. */
  ghost predicate NearlySound(s: Sched) {
    && s.state.Keys == s.slice.Keys && Filed(s, ReadyTasks(s)) && (forall t :: t in s.state ==> t.cls < 4)
    && (s.current != null ==> s.current in s.state && s.state[s.current] != Ready)
    && forall t :: t in s.state && s.state[t] == Running ==> t == s.current
  }

  /**
   Ready tasks are in exactly the queue of their class, running and blocked tasks are in none, and
   only the running task has the processor.
   */
  ghost predicate Sound(s: Sched) {
    NearlySound(s) && (s.current != null ==> s.state[s.current] == Running)
  }

  lemma SoundIsWellFormed(s: Sched)
    requires NearlySound(s)
    ensures WellFormed(s)
  {
    forall c, i | 0 <= c < 4 && 0 <= i < |s.queues[c]| ensures s.queues[c][i] in s.state {
      assert Lined(s.queues[c], c, ReadyTasks(s));
      assert s.queues[c][i] in s.queues[c];
    }
  }

  lemma EnqueueFiles(s: Sched, t: Task, ready: set<Task>)
    requires Filed(s, ready) && t !in ready && t.cls < 4
    ensures Filed(Enqueue(s, t), ready + {t})
  {
    var s' := Enqueue(s, t);
    forall c | 0 <= c < 4 ensures Lined(s'.queues[c], c, ready + {t}) {
      assert Lined(s.queues[c], c, ready);
      if c == t.cls {
        PushSorted(s.queues[c], t);
        PushDistinct(s.queues[c], t);
      }
    }
  }

  lemma PopFiles(s: Sched, c: nat, ready: set<Task>)
    requires Filed(s, ready) && c < 4 && s.queues[c] != []
    ensures s.queues[c][0] in ready && s.queues[c][0].cls == c
    ensures Filed(Pop(s, c), ready - {s.queues[c][0]})
  {
    var q, t, s' := s.queues[c], s.queues[c][0], Pop(s, c);
    assert Lined(q, c, ready) && t in q;
    assert q == [t] + q[1..];
    forall d | 0 <= d < 4 ensures Lined(s'.queues[d], d, ready - {t}) {
      assert Lined(s.queues[d], d, ready);
    }
  }

  lemma TotalPositive(s: Sched, ready: set<Task>)
    requires Filed(s, ready)
    ensures s.total > 0 <==> Top(s.queues) >= 0
  {
  }

  lemma RequeueFiles(s: Sched)
    requires s.current != null && s.current in s.state && s.state[s.current] != Ready && s.current.cls < 4
    requires Filed(s, ReadyTasks(s))
    ensures Filed(Requeue(s), ReadyTasks(Requeue(s)))
  {
    var s' := Requeue(s);
    if s.state[s.current] == Running {
      EnqueueFiles(s.(state := s.state[s.current := Ready]), s.current, ReadyTasks(s));
      assert ReadyTasks(s') == ReadyTasks(s) + {s.current};
    }
  }

  /** The switch: the candidate leaves its queue and the old task, if still running, enters its own. */
  lemma SwitchSound(s: Sched, c: nat)
    requires NearlySound(s) && c < 4 && s.queues[c] != []
    ensures Sound(Dispatch(Requeue(Pop(s, c)), s.queues[c][0]))
  {
    var t := s.queues[c][0];
    PopFiles(s, c, ReadyTasks(s));
    var s' := Dispatch(Requeue(Pop(s, c)), t);
    SwitchFiles(s, c);
    assert s'.state.Keys == s.state.Keys && s'.slice.Keys == s.slice.Keys;
  }

  lemma SwitchFiles(s: Sched, c: nat)
    requires NearlySound(s) && c < 4 && s.queues[c] != []
    ensures var s' := Dispatch(Requeue(Pop(s, c)), s.queues[c][0]); Filed(s', ReadyTasks(s'))
  {
    var ready, t := ReadyTasks(s), s.queues[c][0];
    PopFiles(s, c, ready);
    // Put the candidate aside first: its state decides nothing in the remaining steps.
    var aside := Pop(s, c).(state := s.state[t := Running]);
    assert ReadyTasks(aside) == ready - {t};
    if s.current != null {
      RequeueFiles(aside);
    }
    SwitchAside(Pop(s, c), t);
    FiledSame(Requeue(aside), Dispatch(Requeue(Pop(s, c)), t));
  }

  lemma SwitchAside(s: Sched, t: Task)
    requires |s.queues| == 4 && (s.current != null ==> s.current in s.state && s.current != t)
    ensures var r, s' := Requeue(s.(state := s.state[t := Running])), Dispatch(Requeue(s), t);
      s'.queues == r.queues && s'.total == r.total && s'.state == r.state
  {
    if s.current != null {
      assert s.state[t := Running][s.current := Ready] == s.state[s.current := Ready][t := Running];
    }
  }

  lemma FiledSame(r: Sched, s: Sched)
    requires s.queues == r.queues && s.total == r.total && s.state == r.state && Filed(r, ReadyTasks(r))
    ensures Filed(s, ReadyTasks(s))
  {
    assert ReadyTasks(s) == ReadyTasks(r);
  }

  lemma ChargeNearlySound(s: Sched)
    requires NearlySound(s)
    ensures WellFormed(s) && NearlySound(Charge(s)) && Charge(s).queues == s.queues && Charge(s).state == s.state
    ensures Charge(s).current == s.current
  {
    SoundIsWellFormed(s);
    assert ReadyTasks(Charge(s)) == ReadyTasks(s);
  }

  /** sched_schedule keeps the queues right, and a blocked task loses the processor if any task is ready. */
  lemma ScheduleSound(s: Sched)
    requires NearlySound(s)
    ensures WellFormed(s) && NearlySound(Schedule(s))
    ensures Sound(s) || s.total > 0 ==> Sound(Schedule(s))
    ensures !Sound(s) && s.total == 0 ==> Schedule(s) == s
  {
    ChargeNearlySound(s);
    TotalPositive(s, ReadyTasks(s));
    var c := Top(s.queues);
    if c >= 0 {
      SwitchSound(Charge(s), c);
    }
  }

  // ---------------------------------------------------------------------------------------
  // Which task runs
  // ---------------------------------------------------------------------------------------

  /** Task `t` goes before `u`: a higher class, or the same class and a priority value no larger. */
  predicate Precedes(t: Task, u: Task) {
    t.cls > u.cls || (t.cls == u.cls && t.prio <= u.prio)
  }

  lemma TopPrecedes(s: Sched, u: Task)
    requires Filed(s, ReadyTasks(s)) && u in ReadyTasks(s)
    ensures var c := Top(s.queues); c >= 0 && Precedes(s.queues[c][0], u)
  {
    var c := Top(s.queues);
    assert Lined(s.queues[u.cls], u.cls, ReadyTasks(s));
    assert u in s.queues[u.cls];
    assert Lined(s.queues[c], c, ReadyTasks(s));
    assert s.queues[c][0] in s.queues[c];
  }

  /**
   The running task is replaced exactly when some task is ready and it is blocked, has no more than
   this tick left, or a ready task has a strictly higher class.
   */
  lemma SwitchExactly(s: Sched)
    requires NearlySound(s)
    ensures WellFormed(s)
    ensures Schedule(s).current != s.current <==>
      ReadyTasks(s) != {} && (s.current == null || s.state[s.current] == Blocked || s.slice[s.current] <= 1
        || exists u :: u in ReadyTasks(s) && u.cls > s.current.cls)
  {
    SoundIsWellFormed(s);
    var c := Top(s.queues);
    if c >= 0 {
      PopFiles(s, c, ReadyTasks(s));
      assert s.queues[c][0] in ReadyTasks(s);
      forall u | u in ReadyTasks(s) ensures u.cls <= c { TopPrecedes(s, u); }
    } else {
      forall u | u in s.state ensures u !in ReadyTasks(s) { assert Lined(s.queues[u.cls], u.cls, ReadyTasks(s)); }
    }
  }

  /**
   A switch gives a full slice to whichever has waited longest among those with the lowest
   priority value in the highest class that has a ready task.
   */
  lemma SwitchPicksFirst(s: Sched)
    requires NearlySound(s) && WellFormed(s) && Schedule(s).current != s.current
    ensures var next := Schedule(s).current;
      && next != null && next in ReadyTasks(s) && next.cls < 4 && Schedule(s).slice[next] == 10
      && (forall u :: u in ReadyTasks(s) ==> Precedes(next, u))
      && Lane(s.queues[next.cls], next.prio) == [next] + Lane(s.queues[next.cls][1..], next.prio)
  {
    var c := Top(s.queues);
    PopFiles(s, c, ReadyTasks(s));
    forall u | u in ReadyTasks(s) ensures Precedes(s.queues[c][0], u) { TopPrecedes(s, u); }
    assert Lined(s.queues[c], c, ReadyTasks(s));
    HeadLane(s.queues[c], s.queues[c][0].prio);
  }

  /** A task that stays on is charged one tick, unless nobody else is ready; nothing else changes. */
  lemma ChargedExactly(s: Sched)
    requires NearlySound(s) && WellFormed(s) && s.current != null && Schedule(s).current == s.current
    ensures Schedule(s) == s.(slice := if ReadyTasks(s) == {} || s.slice[s.current] == 0 then s.slice
      else s.slice[s.current := s.slice[s.current] - 1])
  {
    var c := Top(s.queues);
    if c >= 0 {
      PopFiles(s, c, ReadyTasks(s));
    } else {
      forall u | u in s.state ensures u !in ReadyTasks(s) { assert Lined(s.queues[u.cls], u.cls, ReadyTasks(s)); }
    }
  }

  /** The tasks of class `c` and priority `p` that wait, in their order. */
  function Waiters(s: Sched, c: nat, p: nat): seq<Task>
    requires |s.queues| == 4 && c < 4
  {
    Lane(s.queues[c], p)
  }

  /** The task if it is of class `c` and priority `p`. */
  function If(t: Task, c: nat, p: nat): seq<Task> {
    if t.cls == c then Only(t, p) else []
  }

  /** Enqueueing puts a task behind all that wait with its class and priority, and changes no other line. */
  lemma EnqueueLast(s: Sched, t: Task, ready: set<Task>, c: nat, p: nat)
    requires Filed(s, ready) && t.cls < 4 && c < 4
    ensures Waiters(Enqueue(s, t), c, p) == Waiters(s, c, p) + If(t, c, p)
  {
    assert Lined(s.queues[c], c, ready);
    if c == t.cls { PushLane(s.queues[c], t, p); }
  }

  lemma PopLines(s: Sched, top: nat, ready: set<Task>, c: nat, p: nat)
    requires Filed(s, ready) && top < 4 && s.queues[top] != [] && c < 4
    ensures s.queues[top][0].cls == top && |Pop(s, top).queues| == 4
    ensures If(s.queues[top][0], c, p) + Waiters(Pop(s, top), c, p) == Waiters(s, c, p)
  {
    assert Lined(s.queues[top], top, ready);
    assert s.queues[top][0] in s.queues[top];
    HeadLane(s.queues[top], p);
  }

  /** The old task, if it still runs. */
  function Ousted(s: Sched, c: nat, p: nat): seq<Task>
    requires s.current == null || s.current in s.state
  {
    if s.current != null && s.state[s.current] == Running then If(s.current, c, p) else []
  }

  lemma RequeueLines(s: Sched, ready: set<Task>, c: nat, p: nat)
    requires Filed(s, ready) && c < 4 && (s.current != null ==> s.current in s.state && s.current.cls < 4)
    ensures |Requeue(s).queues| == 4 && Waiters(Requeue(s), c, p) == Waiters(s, c, p) + Ousted(s, c, p)
  {
    if s.current != null && s.state[s.current] == Running {
      EnqueueLast(s.(state := s.state[s.current := Ready]), s.current, ready, c, p);
    }
  }

  /** What a switch does to the lines: the next task leaves its own, and the old one, if it still runs, goes behind. */
  lemma SwitchLines(s: Sched, c: nat, p: nat)
    requires NearlySound(s) && WellFormed(s) && Schedule(s).current != s.current && c < 4
    ensures var next, s' := Schedule(s).current, Schedule(s);
      next != null && |s'.queues| == 4 && If(next, c, p) + Waiters(s', c, p) == Waiters(s, c, p) + Ousted(s, c, p)
  {
    ChargeNearlySound(s);
    LinesOfSwitch(Charge(s), Top(s.queues), c, p);
  }

  lemma LinesOfSwitch(s: Sched, top: nat, c: nat, p: nat)
    requires NearlySound(s) && top < 4 && s.queues[top] != [] && c < 4
    ensures var next, r := s.queues[top][0], Requeue(Pop(s, top));
      |r.queues| == 4 && If(next, c, p) + Waiters(r, c, p) == Waiters(s, c, p) + Ousted(s, c, p)
  {
    var ready, t, r := ReadyTasks(s), s.queues[top][0], Pop(s, top);
    PopLines(s, top, ready, c, p);
    PopFiles(s, top, ready);
    RequeueLines(r, ready - {t}, c, p);
    Assoc(If(t, c, p), Waiters(r, c, p), Ousted(r, c, p));
  }

  /** What a switch does to the tasks: the next one runs on a full slice, the old one, if it still ran, is ready. */
  lemma SwitchStates(s: Sched, u: Task)
    requires NearlySound(s) && WellFormed(s) && Schedule(s).current != s.current && u in s.state
    ensures var s' := Schedule(s);
      && u in s'.state && u in s'.slice
      && s'.state[u] == (if u == s'.current then Running
           else if u == s.current && s.state[u] == Running then Ready else s.state[u])
      && s'.slice[u] == (if u == s'.current then 10
           else if u == s.current && s.slice[u] > 0 then s.slice[u] - 1 else s.slice[u])
  {
    PopFiles(s, Top(s.queues), ReadyTasks(s));
  }

  // ---------------------------------------------------------------------------------------
  // Runs
  // ---------------------------------------------------------------------------------------

  datatype Event =
    | Tick
    | Sleep            // sched_block of the running task and the switch after it, under the lock
    | Wake(task: Task) // sched_unblock
    | Admit(task: Task)

  predicate Enabled(s: Sched, e: Event) {
    match e
    case Tick => true
    case Sleep => s.current != null
    case Wake(t) => t in s.state && s.state[t] == Blocked
    case Admit(t) => t !in s.state && t.cls < 4
  }

  function Block(s: Sched): Sched
    requires s.current != null
  {
    s.(state := s.state[s.current := Blocked])
  }

  function Unblock(s: Sched, t: Task): Sched
    requires |s.queues| == 4
  {
    Enqueue(s.(state := s.state[t := Ready]), t)
  }

  lemma BlockIsNearlySound(s: Sched)
    requires Sound(s) && s.current != null
    ensures NearlySound(Block(s)) && !Sound(Block(s)) && ReadyTasks(Block(s)) == ReadyTasks(s)
  {
  }

  function Apply(s: Sched, e: Event): Sched
    requires WellFormed(s) && Enabled(s, e)
  {
    match e
    case Tick => Schedule(s)
    case Sleep => Schedule(Block(s))
    case Wake(t) => Unblock(s, t)
    case Admit(t) => Arrived(s, t)
  }

  /** A new task enters ready and with a full slice. */
  function Arrived(s: Sched, t: Task): Sched
    requires |s.queues| == 4
  {
    Enqueue(s.(state := s.state[t := Ready], slice := s.slice[t := DEFAULT_TIMESLICE]), t)
  }

  lemma UnblockSound(s: Sched, t: Task)
    requires Sound(s) && t in s.state && s.state[t] == Blocked
    ensures Sound(Unblock(s, t)) && Unblock(s, t).state == s.state[t := Ready]
  {
    var s' := Unblock(s, t);
    EnqueueFiles(s.(state := s.state[t := Ready]), t, ReadyTasks(s));
    assert ReadyTasks(s') == ReadyTasks(s) + {t};
  }

  /** A woken task goes behind all that wait with its class and priority. */
  lemma UnblockLast(s: Sched, t: Task, c: nat, p: nat)
    requires Sound(s) && t in s.state && s.state[t] == Blocked && c < 4
    ensures |s.queues| == 4 && |Unblock(s, t).queues| == 4
    ensures Waiters(Unblock(s, t), c, p) == Waiters(s, c, p) + If(t, c, p)
  {
    EnqueueLast(s.(state := s.state[t := Ready]), t, ReadyTasks(s), c, p);
  }

  /** A newcomer that would still be blocked disturbs nothing. */
  lemma ArriveSound(s: Sched, t: Task)
    requires Sound(s) && t !in s.state && t.cls < 4
    ensures Sound(s.(state := s.state[t := Blocked], slice := s.slice[t := DEFAULT_TIMESLICE]))
  {
    var s' := s.(state := s.state[t := Blocked], slice := s.slice[t := DEFAULT_TIMESLICE]);
    assert ReadyTasks(s') == ReadyTasks(s);
  }

  lemma AdmitSound(s: Sched, t: Task)
    requires Sound(s) && t !in s.state && t.cls < 4
    ensures Sound(Arrived(s, t))
  {
    var arrived := s.(state := s.state[t := Blocked], slice := s.slice[t := DEFAULT_TIMESLICE]);
    ArriveSound(s, t);
    UnblockSound(arrived, t);
    ArrivedIsWoken(s, t);
  }

  lemma ArrivedIsWoken(s: Sched, t: Task)
    requires |s.queues| == 4
    ensures Arrived(s, t) == Unblock(s.(state := s.state[t := Blocked], slice := s.slice[t := DEFAULT_TIMESLICE]), t)
  {
    assert s.state[t := Blocked][t := Ready] == s.state[t := Ready];
  }

  /** Blocking the running task keeps the scheduler sound exactly when a task is queued to take over. */
  lemma SleepSoundExactly(s: Sched)
    requires Sound(s) && s.current != null
    ensures WellFormed(s) && (Sound(Apply(s, Sleep)) <==> s.total > 0)
  {
    SoundIsWellFormed(s);
    BlockIsNearlySound(s);
    ScheduleSound(Block(s));
  }

  /** The idle task is there and has not blocked. */
  ghost predicate HasIdle(s: Sched, idle: Task) {
    idle in s.state && s.state[idle] != Blocked && idle.cls == 0
  }

  predicate Respects(s: Sched, e: Event, idle: Task) {
    e == Sleep ==> s.current != idle
  }

  lemma StepKeepsSound(s: Sched, e: Event, idle: Task)
    requires Sound(s) && HasIdle(s, idle) && Enabled(s, e) && Respects(s, e, idle)
    ensures WellFormed(s) && Sound(Apply(s, e)) && HasIdle(Apply(s, e), idle)
  {
    SoundIsWellFormed(s);
    match e
    case Tick =>
      ScheduleSound(s);
      ScheduleKeepsAwake(s, idle);
    case Sleep =>
      BlockIsNearlySound(s);
      assert idle in ReadyTasks(s);
      TopPrecedes(s, idle);
      TotalPositive(s, ReadyTasks(s));
      ScheduleSound(Block(s));
      ScheduleKeepsAwake(Block(s), idle);
    case Wake(t) => UnblockSound(s, t);
    case Admit(t) => AdmitSound(s, t);
  }

  /** sched_schedule blocks nobody and wakes nobody. */
  lemma ScheduleKeepsAwake(s: Sched, t: Task)
    requires NearlySound(s) && WellFormed(s) && t in s.state
    ensures t in Schedule(s).state && (s.state[t] == Blocked <==> Schedule(s).state[t] == Blocked)
  {
    var c := Top(s.queues);
    if c >= 0 {
      PopFiles(s, c, ReadyTasks(s));
      SwitchKeepsAwake(s, t, c);
    }
  }

  lemma SwitchKeepsAwake(s: Sched, t: Task, c: nat)
    requires WellFormed(s) && c == Top(s.queues) && s.state[s.queues[c][0]] == Ready && t in s.state
    ensures t in Schedule(s).state && (s.state[t] == Blocked <==> Schedule(s).state[t] == Blocked)
  {
  }

  ghost predicate Behaviour(ss: seq<Sched>, es: seq<Event>, idle: Task) {
    |ss| == |es| + 1 && forall k {:trigger es[k]} :: 0 <= k < |es| ==> StepAt(ss[k], es[k], ss[k + 1], idle)
  }

  ghost predicate StepAt(s: Sched, e: Event, s': Sched, idle: Task) {
    WellFormed(s) && Enabled(s, e) && Respects(s, e, idle) && s' == Apply(s, e)
  }

  /** With an idle task that never blocks, every reachable state is sound: no blocked task keeps the processor. */
  lemma {:induction false} RunKeepsSound(ss: seq<Sched>, es: seq<Event>, idle: Task, k: nat)
    requires Behaviour(ss, es, idle) && Sound(ss[0]) && HasIdle(ss[0], idle) && k < |ss|
    ensures Sound(ss[k]) && HasIdle(ss[k], idle)
  {
    if k > 0 {
      RunKeepsSound(ss, es, idle, k - 1);
      StepOfRun(ss, es, idle, k - 1);
    }
  }

  lemma StepOfRun(ss: seq<Sched>, es: seq<Event>, idle: Task, k: nat)
    requires Behaviour(ss, es, idle) && k < |es| && Sound(ss[k]) && HasIdle(ss[k], idle)
    ensures Sound(ss[k + 1]) && HasIdle(ss[k + 1], idle)
  {
    assert StepAt(ss[k], es[k], ss[k + 1], idle);
    StepKeepsSteady(ss[k], es[k], ss[k + 1], idle);
  }

  lemma StepKeepsSteady(s: Sched, e: Event, s': Sched, idle: Task)
    requires StepAt(s, e, s', idle) && Sound(s) && HasIdle(s, idle)
    ensures Sound(s') && HasIdle(s', idle)
  {
    StepKeepsSound(s, e, idle);
  }

  /** How many of the first `n` events are scheduling calls. */
  function Ticks(es: seq<Event>, n: nat): nat
    requires n <= |es|
  {
    if n == 0 then 0 else Ticks(es, n - 1) + if es[n - 1] == Tick then 1 else 0
  }

  /** A task that keeps the processor beside an idle one has not gone to sleep, and pays for every call. */
  lemma StaysAndPays(s: Sched, e: Event, s': Sched, idle: Task)
    requires StepAt(s, e, s', idle) && Sound(s) && HasIdle(s, idle)
    requires s.current != null && s.current != idle && s'.current == s.current
    ensures e != Sleep && s.current in s'.slice
    ensures Paid(s.slice[s.current], e, s'.slice[s.current])
  {
    assert idle in ReadyTasks(s);
    match e
    case Tick =>
      SwitchExactly(s);
      ChargedExactly(s);
    case Sleep =>
      BlockIsNearlySound(s);
      SwitchExactly(Block(s));
    case Wake(t) =>
    case Admit(t) =>
  }

  lemma PaysAt(ss: seq<Sched>, es: seq<Event>, idle: Task, t: Task, k: nat)
    requires Behaviour(ss, es, idle) && Sound(ss[0]) && HasIdle(ss[0], idle) && k < |es| && t != idle
    requires ss[k].current == t == ss[k + 1].current
    ensures t in ss[k].slice && t in ss[k + 1].slice
    ensures Paid(ss[k].slice[t], es[k], ss[k + 1].slice[t])
  {
    RunKeepsSound(ss, es, idle, k);
    assert StepAt(ss[k], es[k], ss[k + 1], idle);
    StaysAndPays(ss[k], es[k], ss[k + 1], idle);
  }

  /**
   Over every run, no task but the idle one keeps the processor longer than its slice: as long as it does,
   every scheduling call takes a tick off, and there have been fewer calls than it had ticks.
   */
  lemma KeepsAtMostSlice(ss: seq<Sched>, es: seq<Event>, idle: Task, t: Task, n: nat)
    requires Behaviour(ss, es, idle) && Sound(ss[0]) && HasIdle(ss[0], idle) && n < |ss| && t != idle
    requires forall k :: 0 <= k <= n ==> ss[k].current == t
    ensures t in ss[0].slice && t in ss[n].slice && ss[n].slice[t] + Ticks(es, n) == ss[0].slice[t]
    ensures Ticks(es, n) > 0 ==> Ticks(es, n) < ss[0].slice[t]
  {
    RunnerHasSlice(ss, es, idle, 0);
    AllPaid(ss, es, idle, t, n);
    TicksAddUp(ss, es, t, n);
  }

  lemma RunnerHasSlice(ss: seq<Sched>, es: seq<Event>, idle: Task, k: nat)
    requires Behaviour(ss, es, idle) && Sound(ss[0]) && HasIdle(ss[0], idle) && k < |ss| && ss[k].current != null
    ensures ss[k].current in ss[k].slice
  {
    RunKeepsSound(ss, es, idle, k);
  }

  /** A scheduling call takes one of at least two ticks; other events take none. */
  predicate Paid(before: nat, e: Event, after: nat) {
    after + (if e == Tick then 1 else 0) == before && (e == Tick ==> before > 1)
  }

  predicate PaidBy(s: Sched, e: Event, s': Sched, t: Task) {
    t in s.slice && t in s'.slice && Paid(s.slice[t], e, s'.slice[t])
  }

  lemma AllPaid(ss: seq<Sched>, es: seq<Event>, idle: Task, t: Task, n: nat)
    requires Behaviour(ss, es, idle) && Sound(ss[0]) && HasIdle(ss[0], idle) && n < |ss| && t != idle
    requires forall k :: 0 <= k <= n ==> ss[k].current == t
    ensures forall k :: 0 <= k < n ==> PaidBy(ss[k], es[k], ss[k + 1], t)
  {
    forall k | 0 <= k < n ensures PaidBy(ss[k], es[k], ss[k + 1], t) { PaysAt(ss, es, idle, t, k); }
  }

  lemma {:induction false} TicksAddUp(ss: seq<Sched>, es: seq<Event>, t: Task, n: nat)
    requires n < |ss| && n <= |es| && ss != [] && t in ss[0].slice
    requires forall k :: 0 <= k < n ==> PaidBy(ss[k], es[k], ss[k + 1], t)
    ensures t in ss[n].slice && ss[n].slice[t] + Ticks(es, n) == ss[0].slice[t]
    ensures Ticks(es, n) > 0 ==> Ticks(es, n) < ss[0].slice[t]
  {
    if n > 0 {
      TicksAddUp(ss, es, t, n - 1);
      assert PaidBy(ss[n - 1], es[n - 1], ss[n - 1 + 1], t);
    }
  }

  /** The state of a processor that has been given nothing to run yet. */
  function Boot(): Sched {
    Sched([[], [], [], []], 0, null, map[], map[])
  }

  lemma BootSound(idle: Task)
    requires idle.cls == 0
    ensures Sound(Boot()) && WellFormed(Boot())
    ensures Sound(Apply(Boot(), Admit(idle))) && HasIdle(Apply(Boot(), Admit(idle)), idle)
  {
    AdmitSound(Boot(), idle);
  }

  /**
   With nothing queued, a task that blocks keeps the processor; when it is then woken, it has the
   processor and sits in a run queue as well.
   */
  lemma LoneTaskRunsQueued(s: Sched)
    requires Sound(s) && s.current != null && s.total == 0
    ensures WellFormed(s) && Apply(s, Sleep) == Block(s) && WellFormed(Block(s))
    ensures Enabled(Block(s), Wake(s.current))
    ensures var s' := Apply(Block(s), Wake(s.current));
      s'.current == s.current && s.current in s'.queues[s.current.cls] && !Sound(s')
  {
    SoundIsWellFormed(s);
    BlockIsNearlySound(s);
    SoundIsWellFormed(Block(s));
    ScheduleSound(Block(s));
    var n, q := Ahead(s.queues[s.current.cls], s.current.prio), Push(s.queues[s.current.cls], s.current);
    assert q[n] == s.current;
  }

  /** The first task of a processor, before any other has come: admitted, started, put to sleep and woken. */
  lemma LoneTaskFromBoot(t: Task, idle: Task) returns (s1: Sched, s2: Sched, s3: Sched, s4: Sched)
    requires t.cls < 4 && t != idle
    ensures StepAt(Boot(), Admit(t), s1, idle) && StepAt(s1, Tick, s2, idle)
    ensures StepAt(s2, Sleep, s3, idle) && StepAt(s3, Wake(t), s4, idle)
    ensures |s4.queues| == 4 && s4.current == t && t in s4.queues[t.cls] && !Sound(s4)
  {
    s1 := AdmittedAlone(t);
    s2 := StartedAlone(s1, t);
    LoneTaskRunsQueued(s2);
    s3 := Block(s2);
    s4 := Apply(s3, Wake(t));
  }

  lemma AdmittedAlone(t: Task) returns (s: Sched)
    requires t.cls < 4
    ensures WellFormed(Boot()) && Enabled(Boot(), Admit(t)) && s == Apply(Boot(), Admit(t)) && Sound(s)
    ensures s.total == 1 && s.current == null && s.queues[t.cls] == [t]
  {
    AdmitSound(Boot(), t);
    s := Arrived(Boot(), t);
    AloneQueued(t);
  }

  lemma AloneQueued(t: Task)
    requires t.cls < 4
    ensures var s := Arrived(Boot(), t);
      |s.queues| == 4 && s.queues[t.cls] == [t] && s.total == 1 && s.current == null
  {
    assert Push([], t) == [t];
  }

  lemma StartedAlone(s: Sched, t: Task) returns (s': Sched)
    requires Sound(s) && s.total == 1 && s.current == null && t.cls < 4 && s.queues[t.cls] == [t]
    ensures WellFormed(s) && s' == Apply(s, Tick) && Sound(s') && s'.current == t && s'.total == 0
  {
    SoundIsWellFormed(s);
    ScheduleSound(s);
    s' := Schedule(s);
    assert Top(s.queues) == t.cls;
  }

  // ---------------------------------------------------------------------------------------
  // Round robin
  // ---------------------------------------------------------------------------------------

  lemma ScheduleWellFormed(s: Sched)
    requires WellFormed(s)
    ensures WellFormed(Schedule(s))
  {
    var c := Top(s.queues);
    if c >= 0 {
      var s1 := Pop(Charge(s), c);
      assert WellFormed(s1);
      if s.current != null { RequeueWellFormed(s1); }
    }
  }

  lemma RequeueWellFormed(s: Sched)
    requires WellFormed(s) && s.current != null
    ensures WellFormed(Requeue(s))
  {
  }

  ghost predicate CallAt(ss: seq<Sched>, k: nat)
    requires 0 < k < |ss|
  {
    WellFormed(ss[k - 1]) && ss[k] == Schedule(ss[k - 1])
  }

  /** The states before and after successive calls of sched_schedule. */
  ghost predicate Calls(ss: seq<Sched>) {
    forall k :: 0 < k < |ss| ==> CallAt(ss, k)
  }

  ghost predicate Alike(q: seq<Task>, t: Task) {
    forall i :: 0 <= i < |q| ==> q[i].prio == t.prio && q[i].cls == t.cls
  }

  /** The running task shares class and priority with everything in its queue, and no higher class is queued. */
  ghost predicate Peers(s: Sched) {
    && WellFormed(s) && s.current != null && s.current.cls < 4 && s.state[s.current] == Running
    && s.queues[s.current.cls] != [] && Alike(s.queues[s.current.cls], s.current)
    && forall c :: s.current.cls < c < 4 ==> s.queues[c] == []
  }

  /** A group of peers: the one that runs, followed by those that wait, and what is left of the slice. */
  datatype Rotor = Rotor(ring: seq<Task>, left: nat)

  ghost function Turning(s: Sched): Rotor
    requires Peers(s)
  {
    Rotor([s.current] + s.queues[s.current.cls], s.slice[s.current])
  }

  /** One call: a tick off the slice, or the next peer's turn. */
  function Tock(r: Rotor): Rotor
    requires r.ring != []
  {
    if r.left > 1 then r.(left := r.left - 1) else Rotor(r.ring[1..] + [r.ring[0]], 10)
  }

  lemma {:induction false} PushLast(q: seq<Task>, t: Task)
    requires forall i :: 0 <= i < |q| ==> q[i].prio <= t.prio
    ensures Push(q, t) == q + [t]
  {
  }

  lemma PeersSwitch(s: Sched)
    requires Peers(s) && s.slice[s.current] <= 1
    ensures var q, s' := s.queues[s.current.cls], Schedule(s);
      && s'.queues == s.queues[s.current.cls := q[1..] + [s.current]]
      && s'.current == q[0] && q[0] in s'.slice && s'.slice[q[0]] == 10 && q[0] in s'.state && s'.state[q[0]] == Running
  {
    PushLast(s.queues[s.current.cls][1..], s.current);
  }

  lemma PeersTick(s: Sched)
    requires Peers(s)
    ensures Peers(Schedule(s)) && Turning(Schedule(s)) == Tock(Turning(s))
  {
    ScheduleWellFormed(s);
    var q, s' := s.queues[s.current.cls], Schedule(s);
    if s.slice[s.current] <= 1 {
      PeersSwitch(s);
      assert q == [q[0]] + q[1..];
    } else {
      assert s' == Charge(s);
    }
  }

  function Spun(r: Rotor, k: nat): (t: Rotor)
    requires r.ring != []
    ensures |t.ring| == |r.ring|
  {
    if k == 0 then r else Tock(Spun(r, k - 1))
  }

  ghost predicate Turns(s: Sched, r: Rotor) {
    Peers(s) && Turning(s) == r
  }

  /** Among peers, the scheduler is that rotor. */
  lemma {:induction false} RoundRobin(ss: seq<Sched>, r: Rotor, k: nat)
    requires Calls(ss) && k < |ss| && r.ring != [] && Turns(ss[0], r)
    ensures Turns(ss[k], Spun(r, k))
  {
    if k > 0 {
      RoundRobin(ss, r, k - 1);
      assert CallAt(ss, k);
      PeersTick(ss[k - 1]);
    }
  }

  function Slice(r: Rotor): nat {
    if r.left > 1 then r.left else 1
  }

  /** Within a slice nothing moves. */
  lemma {:induction false} SpunWithin(r: Rotor, k: nat)
    requires r.ring != [] && k < Slice(r)
    ensures Spun(r, k).ring == r.ring && (k > 0 ==> Spun(r, k).left == r.left - k)
  {
    if k > 0 { SpunWithin(r, k - 1); }
  }

  lemma {:induction false} SpunSum(r: Rotor, a: nat, b: nat)
    requires r.ring != []
    ensures Spun(r, a + b) == Spun(Spun(r, a), b)
  {
    if b > 0 {
      SpunSum(r, a, b - 1);
      assert a + b - 1 == a + (b - 1);
    }
  }

  /** The first turn ends with the slice; every later one lasts ten calls. */
  lemma {:induction false} SpunTurns(r: Rotor, i: nat)
    requires r.ring != [] && i < |r.ring|
    ensures Spun(r, Slice(r) + 10 * i) == Rotor(r.ring[i + 1..] + r.ring[..i + 1], 10)
  {
    if i == 0 {
      SpunWithin(r, Slice(r) - 1);
    } else {
      SpunTurns(r, i - 1);
      var p := Spun(r, Slice(r) + 10 * (i - 1));
      SpunSum(r, Slice(r) + 10 * (i - 1), 10);
      SpunWithin(p, 9);
      assert p.ring[1..] + [p.ring[0]] == r.ring[i + 1..] + r.ring[..i + 1];
    }
  }

  /** Before call Slice + 10 * i the front of the ring is one of its first i + 1 members. */
  lemma SpunFront(r: Rotor, i: nat, k: nat) returns (j: nat)
    requires r.ring != [] && i < |r.ring| && k < Slice(r) + 10 * i
    ensures j <= i && Spun(r, k).ring[0] == r.ring[j]
  {
    if k < Slice(r) {
      SpunWithin(r, k);
      j := 0;
    } else {
      j := 1 + (k - Slice(r)) / 10;
      var at := Slice(r) + 10 * (j - 1);
      SpunTurns(r, j - 1);
      SpunSum(r, at, k - at);
      SpunWithin(Spun(r, at), k - at);
    }
  }

  lemma RingDistinct(s: Sched)
    requires Sound(s) && Peers(s)
    ensures Distinct(Turning(s).ring)
  {
    var c := s.current.cls;
    assert Lined(s.queues[c], c, ReadyTasks(s));
    assert s.current !in s.queues[c];
  }

  /** The peer at index `i` of its queue is dispatched at call r + 10 * i and at no earlier one. */
  lemma DispatchedOnTime(ss: seq<Sched>, i: nat, r: nat)
    requires Calls(ss) && ss != [] && Sound(ss[0]) && Peers(ss[0]) && i < |ss[0].queues[ss[0].current.cls]|
    requires r == if ss[0].slice[ss[0].current] > 1 then ss[0].slice[ss[0].current] else 1
    ensures var peer := ss[0].queues[ss[0].current.cls][i];
      forall k :: 0 <= k < |ss| && k <= r + 10 * i ==> (ss[k].current == peer <==> k == r + 10 * i)
  {
    var rotor := Turning(ss[0]);
    RingDistinct(ss[0]);
    forall k | 0 <= k < |ss| && k <= r + 10 * i
      ensures ss[k].current == rotor.ring[i + 1] <==> k == r + 10 * i
    {
      OnTime(ss, rotor, i, k);
    }
  }

  lemma OnTime(ss: seq<Sched>, rotor: Rotor, i: nat, k: nat)
    requires Calls(ss) && k < |ss| && Turns(ss[0], rotor) && Distinct(rotor.ring)
    requires i + 1 < |rotor.ring| && k <= Slice(rotor) + 10 * i
    ensures ss[k].current == rotor.ring[i + 1] <==> k == Slice(rotor) + 10 * i
  {
    RoundRobin(ss, rotor, k);
    assert ss[k].current == Spun(rotor, k).ring[0];
    if k < Slice(rotor) + 10 * i {
      var j := SpunFront(rotor, i, k);
    } else {
      SpunTurns(rotor, i);
    }
  }

  /** After one full cycle the same tasks wait in the same order. */
  lemma CycleRepeats(ss: seq<Sched>, rotor: Rotor, k: nat)
    requires Calls(ss) && k < |ss| && Turns(ss[0], rotor) && rotor.ring != []
    requires k == Slice(rotor) + 10 * (|rotor.ring| - 1)
    ensures Turns(ss[k], rotor.(left := 10))
  {
    RoundRobin(ss, rotor, k);
    SpunTurns(rotor, |rotor.ring| - 1);
  }
}
