/**
 The hand-off mutex of kernel/sched/mutex.c together with the scheduler it blocks and wakes tasks
 through. A world is the scheduler, one mutex, those inside mutex_lock, and how often
 each task has come back from mutex_lock without a matching mutex_unlock.
 */
module Mutexes {
  import opened Machine
  import opened TaskQueues
  import opened Scheduler

  datatype Lock = Lock(owner: Task?, locked: bool, waiters: seq<Task>)

  datatype World = World(sched: Sched, lock: Lock, entering: set<Task>, held: multiset<Task>)

  datatype Action =
    | Call           // one pass of the mutex_lock loop by the running task
    | Release        // mutex_unlock by the running task
    | Other(e: Event) // the scheduler, for any reason of its own

  function Free(): Lock {
    Lock(null, false, [])
  }

  /** One pass of the loop returns. */
  predicate Obtains(l: Lock, t: Task) {
    !l.locked || l.owner == t
  }

  function Acquire(l: Lock, t: Task): Lock {
    if !l.locked then l.(owner := t, locked := true)
    else if l.owner == t then l
    else l.(waiters := Push(l.waiters, t))
  }

  /** mutex_unlock: with a waiter, ownership goes straight to it. */
  function HandOver(l: Lock, t: Task): Lock {
    if l.owner != t then l
    else if l.waiters == [] then l.(owner := null, locked := false)
    else l.(owner := l.waiters[0], waiters := l.waiters[1..])
  }

  ghost predicate Can(w: World, a: Action, idle: Task) {
    && WellFormed(w.sched)
    && match a
       case Call => w.sched.current != null && w.sched.current != idle
       case Release => w.sched.current != null && w.sched.current !in w.entering
       case Other(e) =>
         Enabled(w.sched, e) && Respects(w.sched, e, idle)
         && (e.Wake? ==> e.task !in w.lock.waiters) && (e == Sleep ==> w.sched.current !in w.entering)
  }

  ghost function Called(w: World): World
    requires WellFormed(w.sched) && w.sched.current != null
  {
    var t := w.sched.current;
    if Obtains(w.lock, t)
    then World(w.sched, Acquire(w.lock, t), w.entering - {t}, w.held + multiset{t})
    else World(Apply(w.sched, Sleep), Acquire(w.lock, t), w.entering + {t}, w.held)
  }

  ghost function Released(w: World): World
    requires WellFormed(w.sched) && w.sched.current != null
  {
    var t := w.sched.current;
    if w.lock.owner != t then w
    else
      var held := w.held - multiset{t};
      if w.lock.waiters == [] then World(w.sched, HandOver(w.lock, t), w.entering, held)
      else
        var s := Unblock(w.sched, w.lock.waiters[0]);
        World(if WellFormed(s) then Schedule(s) else s, HandOver(w.lock, t), w.entering, held)
  }

  ghost function Do(w: World, a: Action, idle: Task): World
    requires Can(w, a, idle)
  {
    match a
    case Call => Called(w)
    case Release => Released(w)
    case Other(e) => w.(sched := Apply(w.sched, e))
  }

  // ---------------------------------------------------------------------------------------
  // The invariant
  // ---------------------------------------------------------------------------------------

  /** The lock itself: an owner exactly while locked, waiters only while locked, in priority order. */
  ghost predicate LockSound(l: Lock) {
    && (l.locked <==> l.owner != null) && (l.waiters != [] ==> l.locked)
    && Sorted(l.waiters) && Distinct(l.waiters) && (l.owner != null ==> l.owner !in l.waiters)
  }

  /** Every waiter is blocked inside mutex_lock; everyone else inside it already owns the mutex. */
  ghost predicate Waiting(w: World) {
    && (forall i :: 0 <= i < |w.lock.waiters| ==> Waits(w, w.lock.waiters[i]))
    && (forall t :: t in w.entering ==> t in w.lock.waiters || t == w.lock.owner)
    && (w.lock.owner != null ==> w.lock.owner in w.sched.state)
    && (w.lock.owner != null && w.lock.owner in w.entering ==> w.sched.state[w.lock.owner] != Blocked)
  }

  ghost predicate Waits(w: World, t: Task) {
    t in w.entering && t in w.sched.state && w.sched.state[t] == Blocked
  }

  /** Exactly the owner, once it has returned from mutex_lock, holds the mutex. */
  ghost predicate Exclusive(w: World) {
    && (forall t :: t in w.held ==> t == w.lock.owner && t !in w.entering)
    && (w.lock.owner != null && w.lock.owner !in w.entering ==> w.lock.owner in w.held)
  }

  ghost predicate WorldSound(w: World, idle: Task) {
    Sound(w.sched) && HasIdle(w.sched, idle) && LockSound(w.lock) && Waiting(w) && Exclusive(w)
  }

  lemma AcquireSound(l: Lock, t: Task)
    requires LockSound(l) && (t in l.waiters ==> Obtains(l, t))
    ensures LockSound(Acquire(l, t))
  {
    if !Obtains(l, t) {
      PushSorted(l.waiters, t);
      PushDistinct(l.waiters, t);
    }
  }

  lemma HandOverSound(l: Lock, t: Task)
    requires LockSound(l)
    ensures LockSound(HandOver(l, t))
  {
    if l.owner == t && l.waiters != [] {
      assert forall u :: u in l.waiters[1..] ==> u in l.waiters;
    }
  }

  /** A change of the scheduler that keeps every waiter blocked and a resuming owner awake. */
  lemma WaitingFrame(w: World, s: Sched)
    requires Waiting(w) && w.sched.state.Keys <= s.state.Keys
    requires forall t :: t in w.sched.state && t in w.entering ==>
      (w.sched.state[t] == Blocked <==> s.state[t] == Blocked)
    ensures Waiting(w.(sched := s))
  {
    var w' := w.(sched := s);
    forall i | 0 <= i < |w.lock.waiters| ensures Waits(w', w.lock.waiters[i]) {
      assert Waits(w, w.lock.waiters[i]);
    }
  }

  lemma OtherSound(w: World, e: Event, idle: Task)
    requires WorldSound(w, idle) && Can(w, Other(e), idle)
    ensures WorldSound(Do(w, Other(e), idle), idle)
  {
    StepKeepsSound(w.sched, e, idle);
    OtherWaiting(w, e, idle);
  }

  lemma OtherWaiting(w: World, e: Event, idle: Task)
    requires WorldSound(w, idle) && Can(w, Other(e), idle)
    ensures Waiting(Do(w, Other(e), idle))
  {
    forall t | t in w.sched.state
      ensures t in Apply(w.sched, e).state
      ensures t in w.entering ==> (w.sched.state[t] == Blocked <==> Apply(w.sched, e).state[t] == Blocked)
    {
      OtherKeepsAwake(w, e, idle, t);
    }
    WaitingFrame(w, Apply(w.sched, e));
  }

  lemma OtherKeepsAwake(w: World, e: Event, idle: Task, t: Task)
    requires WorldSound(w, idle) && Can(w, Other(e), idle) && t in w.sched.state
    ensures t in Apply(w.sched, e).state
    ensures t in w.entering ==> (w.sched.state[t] == Blocked <==> Apply(w.sched, e).state[t] == Blocked)
  {
    match e
    case Tick => ScheduleKeepsAwake(w.sched, t);
    case Sleep =>
      BlockIsNearlySound(w.sched);
      SoundIsWellFormed(Block(w.sched));
      ScheduleKeepsAwake(Block(w.sched), t);
    case Wake(u) =>
    case Admit(u) =>
  }

  /** The running task is not a waiter; inside mutex_lock it can only be the owner. */
  lemma RunnerIsNoWaiter(w: World, idle: Task)
    requires WorldSound(w, idle) && w.sched.current != null
    ensures w.sched.current !in w.lock.waiters
    ensures w.sched.current in w.entering ==> w.sched.current == w.lock.owner
  {
    forall i | 0 <= i < |w.lock.waiters| ensures w.lock.waiters[i] != w.sched.current {
      assert Waits(w, w.lock.waiters[i]);
    }
  }

  lemma QueueUpSound(w: World, idle: Task)
    requires WorldSound(w, idle) && Can(w, Call, idle) && !Obtains(w.lock, w.sched.current)
    ensures WorldSound(Called(w), idle)
  {
    var t, w' := w.sched.current, Called(w);
    RunnerIsNoWaiter(w, idle);
    AcquireSound(w.lock, t);
    StepKeepsSound(w.sched, Sleep, idle);
    PushDistinct(w.lock.waiters, t);
    assert forall u :: u in w'.lock.waiters <==> u in w.lock.waiters || u == t;
    QueueUpWaiting(w, idle);
  }

  /** A task that goes to sleep is blocked, and no other than before. */
  lemma SleepBlocks(s: Sched, u: Task)
    requires Sound(s) && WellFormed(s) && s.current != null && u in s.state
    ensures var s' := Apply(s, Sleep);
      u in s'.state && (s'.state[u] == Blocked <==> u == s.current || s.state[u] == Blocked)
  {
    BlockIsNearlySound(s);
    SoundIsWellFormed(Block(s));
    ScheduleKeepsAwake(Block(s), u);
  }

  lemma QueueUpWaiting(w: World, idle: Task)
    requires WorldSound(w, idle) && Can(w, Call, idle) && !Obtains(w.lock, w.sched.current)
    ensures Waiting(Called(w))
  {
    var t, w' := w.sched.current, Called(w);
    PushDistinct(w.lock.waiters, t);
    forall u | u in w.sched.state
      ensures u in w'.sched.state && (w'.sched.state[u] == Blocked <==> u == t || w.sched.state[u] == Blocked)
    {
      SleepBlocks(w.sched, u);
    }
    forall i | 0 <= i < |w'.lock.waiters| ensures Waits(w', w'.lock.waiters[i]) {
      assert w'.lock.waiters[i] in w'.lock.waiters;
    }
  }

  lemma CallSound(w: World, idle: Task)
    requires WorldSound(w, idle) && Can(w, Call, idle)
    ensures WorldSound(Called(w), idle)
  {
    var t, w' := w.sched.current, Called(w);
    RunnerIsNoWaiter(w, idle);
    if Obtains(w.lock, t) {
      AcquireSound(w.lock, t);
      forall i | 0 <= i < |w'.lock.waiters| ensures Waits(w', w'.lock.waiters[i]) {
        assert Waits(w, w.lock.waiters[i]);
      }
    } else {
      QueueUpSound(w, idle);
    }
  }

  /** Waking a task and scheduling, as mutex_unlock does. */
  lemma WakeSound(s: Sched, t: Task)
    requires Sound(s) && t in s.state && s.state[t] == Blocked
    ensures |s.queues| == 4 && WellFormed(Unblock(s, t)) && Sound(Schedule(Unblock(s, t)))
  {
    UnblockSound(s, t);
    SoundIsWellFormed(Unblock(s, t));
    ScheduleSound(Unblock(s, t));
  }

  /** Exactly the woken task is blocked no more. */
  lemma WakeUnblocks(s: Sched, t: Task, u: Task)
    requires Sound(s) && t in s.state && s.state[t] == Blocked && u in s.state && WellFormed(Unblock(s, t))
    ensures var s' := Schedule(Unblock(s, t));
      u in s'.state && (s'.state[u] == Blocked <==> u != t && s.state[u] == Blocked)
  {
    UnblockSound(s, t);
    ScheduleKeepsAwake(Unblock(s, t), u);
  }

  lemma HandOverWaiting(w: World, idle: Task)
    requires WorldSound(w, idle) && Can(w, Release, idle) && w.lock.owner == w.sched.current && w.lock.waiters != []
    ensures Sound(Released(w).sched) && HasIdle(Released(w).sched, idle) && Waiting(Released(w))
  {
    var next, w' := w.lock.waiters[0], Released(w);
    assert Waits(w, next);
    WakeSound(w.sched, next);
    forall u | u in w.sched.state
      ensures u in w'.sched.state && (w'.sched.state[u] == Blocked <==> u != next && w.sched.state[u] == Blocked)
    {
      WakeUnblocks(w.sched, next, u);
    }
    forall i | 0 <= i < |w'.lock.waiters| ensures Waits(w', w'.lock.waiters[i]) {
      assert Waits(w, w.lock.waiters[i + 1]);
    }
  }

  /** Unlocking keeps everything sound exactly when the owner's lock is not nested. */
  lemma ReleaseSoundExactly(w: World, idle: Task)
    requires WorldSound(w, idle) && Can(w, Release, idle)
    ensures WorldSound(Released(w), idle) <==> (w.lock.owner == w.sched.current ==> w.held[w.sched.current] == 1)
  {
    var t, w' := w.sched.current, Released(w);
    if w.lock.owner == t {
      assert w'.held[t] == w.held[t] - 1;
      HandOverSound(w.lock, t);
      if w.lock.waiters != [] {
        HandOverWaiting(w, idle);
        assert Waits(w, w.lock.waiters[0]);
      }
    }
  }

  /**
   An unlock that wakes a waiter is a scheduling call too: the owner loses the processor exactly when it has
   no more than this tick left or a task that is ready now, the woken one included, has a higher class.
   */
  lemma UnlockPreempts(w: World, idle: Task)
    requires WorldSound(w, idle) && Can(w, Release, idle) && w.lock.owner == w.sched.current && w.lock.waiters != []
    ensures Released(w).sched.current != w.sched.current <==>
      w.sched.slice[w.sched.current] <= 1
      || exists u :: u in ReadyTasks(w.sched) + {w.lock.waiters[0]} && u.cls > w.sched.current.cls
  {
    var next := w.lock.waiters[0];
    assert Waits(w, next);
    UnblockSound(w.sched, next);
    var s := Unblock(w.sched, next);
    assert ReadyTasks(s) == ReadyTasks(w.sched) + {next};
    SwitchExactly(s);
  }

  /** A nested lock and one unlock: the mutex is free while its task still counts on it. */
  lemma NestedLockIsFree(w: World, idle: Task)
    requires WorldSound(w, idle) && Can(w, Call, idle) && w.lock.owner == w.sched.current && w.lock.waiters == []
    requires w.sched.current !in w.entering
    ensures var w1 := Do(w, Call, idle); Can(w1, Release, idle) && var w2 := Do(w1, Release, idle);
      w2.sched == w.sched && w2.lock == Free() && w2.entering == w.entering && w.sched.current in w2.held
  {
    var t := w.sched.current;
    assert w.held[t] >= 1;
    assert w.entering - {t} == w.entering;
    assert Released(Called(w)).held[t] == w.held[t];
  }

  /** A task that sleeps hands the processor to the first candidate. */
  lemma SleepDispatches(s: Sched, idle: Task)
    requires Sound(s) && HasIdle(s, idle) && s.current != null && s.current != idle
    ensures WellFormed(s) && Top(s.queues) >= 0 && Apply(s, Sleep).current == s.queues[Top(s.queues)][0]
    ensures WellFormed(Apply(s, Sleep))
  {
    StepKeepsSound(s, Sleep, idle);
    SoundIsWellFormed(Apply(s, Sleep));
    assert idle in ReadyTasks(s);
    TopPrecedes(s, idle);
  }

  /**
   The running task locks, unlocks and goes to sleep, and the next task locks: after these steps both count
   on having the mutex.
   */
  ghost predicate LosesLock(w: World, idle: Task) {
    Can(w, Call, idle) && var w1 := Do(w, Call, idle); Can(w1, Release, idle) && var w2 := Do(w1, Release, idle);
    Can(w2, Other(Sleep), idle) && var w3 := Do(w2, Other(Sleep), idle);
    Can(w3, Call, idle) && w3.sched.current != w.sched.current && var w4 := Do(w3, Call, idle);
    w.sched.current in w4.held && w3.sched.current in w4.held
  }

  /**
   A lock taken twice is given up by the first unlock: from any state in which its owner runs and another
   task is next, once the owner has locked again, unlocked and gone to sleep, that task obtains it as well.
   */
  lemma NestedLockIsLost(w: World, idle: Task)
    requires WorldSound(w, idle) && Can(w, Call, idle) && w.lock.owner == w.sched.current && w.lock.waiters == []
    requires w.sched.current !in w.entering && Top(w.sched.queues) >= 0
    requires w.sched.queues[Top(w.sched.queues)][0] != idle
    ensures LosesLock(w, idle)
  {
    NestedLockIsFree(w, idle);
    SleepDispatches(w.sched, idle);
    var c := Top(w.sched.queues);
    PopFiles(w.sched, c, ReadyTasks(w.sched));
  }

  // ---------------------------------------------------------------------------------------
  // Runs
  // ---------------------------------------------------------------------------------------

  /** No unlock while the lock is nested. */
  ghost predicate Flat(w: World, a: Action) {
    a == Release && w.lock.owner == w.sched.current ==> w.held[w.sched.current] == 1
  }

  ghost predicate Step(w: World, a: Action, w': World, idle: Task) {
    Can(w, a, idle) && Flat(w, a) && w' == Do(w, a, idle)
  }

  ghost predicate StepAt(ws: seq<World>, acts: seq<Action>, idle: Task, k: nat)
    requires |ws| == |acts| + 1 && k < |acts|
  {
    Step(ws[k], acts[k], ws[k + 1], idle)
  }

  ghost predicate Run(ws: seq<World>, acts: seq<Action>, idle: Task) {
    |ws| == |acts| + 1 && forall k :: 0 <= k < |acts| ==> StepAt(ws, acts, idle, k)
  }

  /** Over every run the world stays sound. */
  lemma {:induction false} WorldStaysSound(ws: seq<World>, acts: seq<Action>, idle: Task, k: nat)
    requires Run(ws, acts, idle) && WorldSound(ws[0], idle) && k < |ws|
    ensures WorldSound(ws[k], idle)
  {
    if k > 0 {
      WorldStaysSound(ws, acts, idle, k - 1);
      assert StepAt(ws, acts, idle, k - 1);
      StepSound(ws[k - 1], acts[k - 1], idle);
    }
  }

  /** Such a state is reached from a processor with its idle task and a new mutex: two tasks come, the first locks. */
  lemma NestedLockReached(idle: Task, t: Task, u: Task) returns (w1: World, w2: World, w3: World, w4: World)
    requires idle.cls == 0 && t.cls == u.cls == 1 && t.prio == u.prio && t != u
    ensures Step(New(Arrived(Boot(), idle)), Other(Admit(t)), w1, idle) && Step(w1, Other(Admit(u)), w2, idle)
    ensures Step(w2, Other(Tick), w3, idle) && Step(w3, Call, w4, idle) && LosesLock(w4, idle)
  {
    BootSound(idle);
    var s1, s2 := TwoArrive(Arrived(Boot(), idle), idle, t, u);
    w1, w2 := New(s1), New(s2);
    w3, w4 := FirstLocks(s2, idle, t, u);
  }

  lemma TwoArrive(s: Sched, idle: Task, t: Task, u: Task) returns (s1: Sched, s2: Sched)
    requires Lower(s, idle, []) && t !in s.state && u !in s.state && t.cls == u.cls == 1 && t.prio == u.prio && t != u
    ensures Step(New(s), Other(Admit(t)), New(s1), idle) && Step(New(s1), Other(Admit(u)), New(s2), idle)
    ensures s2.current == s.current && Lower(s2, idle, [t, u])
  {
    PushTwo(t, u);
    s1 := OneArrives(s, idle, [], t, [t]);
    s2 := OneArrives(s1, idle, [t], u, [t, u]);
  }

  lemma PushTwo(t: Task, u: Task)
    requires t.prio == u.prio
    ensures Push([], t) == [t] && Push([t], u) == [t, u]
  {
  }

  /** A world with a new mutex. */
  function New(s: Sched): World {
    World(s, Free(), {}, multiset{})
  }

  /** Only class 0, and class 1 as `q` says, have tasks queued. */
  ghost predicate Lower(s: Sched, idle: Task, q: seq<Task>) {
    && Sound(s) && HasIdle(s, idle) && |s.queues| == 4
    && s.queues[1] == q && s.queues[2] == [] && s.queues[3] == []
  }

  /** A new task of class 1 queues up behind those of its priority. */
  lemma OneArrives(s: Sched, idle: Task, q: seq<Task>, t: Task, q': seq<Task>) returns (s': Sched)
    requires Lower(s, idle, q) && t !in s.state && t.cls == 1 && q' == Push(q, t)
    ensures Step(New(s), Other(Admit(t)), New(s'), idle) && Lower(s', idle, q')
    ensures s'.current == s.current && s'.state.Keys == s.state.Keys + {t}
  {
    SoundIsWellFormed(s);
    s' := Arrived(s, t);
    AdmitSound(s, t);
    OtherStep(s, Admit(t), s', idle);
  }

  lemma OtherStep(s: Sched, e: Event, s': Sched, idle: Task)
    requires Scheduler.StepAt(s, e, s', idle)
    ensures Step(New(s), Other(e), New(s'), idle)
  {
  }

  lemma FirstLocks(s: Sched, idle: Task, t: Task, u: Task) returns (w3: World, w4: World)
    requires Lower(s, idle, [t, u]) && s.current == null && idle.cls == 0 && t.cls == u.cls == 1
    ensures Step(New(s), Other(Tick), w3, idle) && Step(w3, Call, w4, idle) && LosesLock(w4, idle)
  {
    var s' := FirstStarts(s, idle, t, u);
    OtherStep(s, Tick, s', idle);
    w3 := New(s');
    FreshIsSound(s', idle);
    w4 := FirstObtains(s', idle, t, u);
  }

  lemma FirstStarts(s: Sched, idle: Task, t: Task, u: Task) returns (s': Sched)
    requires Lower(s, idle, [t, u]) && s.current == null
    ensures Scheduler.StepAt(s, Tick, s', idle) && s'.current == t && Lower(s', idle, [u]) && WellFormed(s')
  {
    StepKeepsSound(s, Tick, idle);
    s' := Schedule(s);
    SoundIsWellFormed(s');
    assert [t, u][1..] == [u];
  }

  lemma FirstObtains(s: Sched, idle: Task, t: Task, u: Task) returns (w: World)
    requires WorldSound(New(s), idle) && WellFormed(s) && s.current == t && Lower(s, idle, [u])
    requires idle.cls == 0 && t.cls == u.cls == 1
    ensures Step(New(s), Call, w, idle) && LosesLock(w, idle)
  {
    w := Called(New(s));
    StepSound(New(s), Call, idle);
    NestedLockIsLost(w, idle);
  }

  /** Over every run, at most one task is ever between lock and unlock, and it is the owner. */
  lemma MutualExclusion(ws: seq<World>, acts: seq<Action>, idle: Task, k: nat, t: Task, u: Task)
    requires Run(ws, acts, idle) && WorldSound(ws[0], idle) && k < |ws| && t in ws[k].held && u in ws[k].held
    ensures t == u == ws[k].lock.owner && ws[k].lock.locked
  {
    WorldStaysSound(ws, acts, idle, k);
  }

  lemma StepSound(w: World, a: Action, idle: Task)
    requires WorldSound(w, idle) && Can(w, a, idle) && Flat(w, a)
    ensures WorldSound(Do(w, a, idle), idle)
  {
    match a
    case Call => CallSound(w, idle);
    case Release => ReleaseSoundExactly(w, idle);
    case Other(e) => OtherSound(w, e, idle);
  }

  /**
   Nobody barges in: ownership passes only by the owner's own unlock, and then to the first waiter;
   from the hand-off until the new owner comes back from mutex_lock it cannot pass at all.
   */
  lemma NoBarging(w: World, a: Action, idle: Task)
    requires WorldSound(w, idle) && Can(w, a, idle) && w.lock.owner != null
    ensures var l := Do(w, a, idle).lock;
      l.owner == w.lock.owner || (a == Release && w.sched.current == w.lock.owner
        && l.owner == if w.lock.waiters == [] then null else w.lock.waiters[0])
    ensures w.lock.owner in w.entering ==> Do(w, a, idle).lock.owner == w.lock.owner
    ensures a == Call && w.sched.current == w.lock.owner ==>
      w.lock.owner in Do(w, a, idle).held && w.lock.owner !in Do(w, a, idle).entering
  {
  }

  /** Every task that called mutex_lock and has not returned is a waiter or the owner about to return. */
  lemma EnteringIsServed(w: World, idle: Task, t: Task)
    requires WorldSound(w, idle) && t in w.entering
    ensures t in w.lock.waiters <==> t in w.sched.state && w.sched.state[t] == Blocked
    ensures t !in w.lock.waiters ==> t == w.lock.owner && w.held == multiset{}
  {
    if t in w.lock.waiters {
      var i :| 0 <= i < |w.lock.waiters| && w.lock.waiters[i] == t;
      assert Waits(w, w.lock.waiters[i]);
    }
  }

  // ---------------------------------------------------------------------------------------
  // Waiting time
  // ---------------------------------------------------------------------------------------

  /** Step `a` passes the mutex on. */
  predicate Passes(w: World, a: Action) {
    a == Release && w.sched.current != null && w.lock.owner == w.sched.current
  }

  /** Step `a` does not queue a task that goes before `u`. */
  predicate Behind(w: World, a: Action, u: Task) {
    a == Call && w.sched.current != null && !Obtains(w.lock, w.sched.current) ==> u.prio <= w.sched.current.prio
  }

  function Passed(ws: seq<World>, acts: seq<Action>, k: nat): nat
    requires |ws| == |acts| + 1 && k <= |acts|
  {
    if k == 0 then 0 else Passed(ws, acts, k - 1) + if Passes(ws[k - 1], acts[k - 1]) then 1 else 0
  }

  predicate At(l: Lock, u: Task, i: int) {
    0 <= i < |l.waiters| && l.waiters[i] == u
  }

  lemma StepAdvances(w: World, a: Action, idle: Task, u: Task, i: nat)
    requires LockSound(w.lock) && Can(w, a, idle) && Behind(w, a, u) && At(w.lock, u, i)
    ensures !Passes(w, a) ==> At(Do(w, a, idle).lock, u, i)
    ensures Passes(w, a) && i > 0 ==> At(Do(w, a, idle).lock, u, i - 1)
    ensures Passes(w, a) && i == 0 ==> Do(w, a, idle).lock.owner == u
  {
    if a == Call && !Obtains(w.lock, w.sched.current) {
      BeyondIsAbove(w.lock.waiters, w.sched.current.prio);
    }
  }

  /** A waiter moves up by one place with every unlock by an owner, if nobody of better priority arrives. */
  lemma {:induction false} WaiterAdvances(ws: seq<World>, acts: seq<Action>, idle: Task, u: Task, i: nat, k: nat)
    requires Run(ws, acts, idle) && k <= |acts| && forall j :: 0 <= j <= k ==> LockSound(ws[j].lock)
    requires i < |ws[0].lock.waiters| && ws[0].lock.waiters[i] == u && Passed(ws, acts, k) <= i
    requires forall j :: 0 <= j < k ==> Behind(ws[j], acts[j], u)
    ensures At(ws[k].lock, u, i - Passed(ws, acts, k))
  {
    if k > 0 {
      WaiterAdvances(ws, acts, idle, u, i, k - 1);
      assert StepAt(ws, acts, idle, k - 1);
      StepAdvances(ws[k - 1], acts[k - 1], idle, u, i - Passed(ws, acts, k - 1));
    }
  }

  /** The waiter at position `i` owns the mutex right after the unlock number i + 1. */
  lemma WaiterServed(ws: seq<World>, acts: seq<Action>, idle: Task, u: Task, i: nat, k: nat)
    requires Run(ws, acts, idle) && WorldSound(ws[0], idle) && k < |acts|
    requires i < |ws[0].lock.waiters| && ws[0].lock.waiters[i] == u
    requires forall j :: 0 <= j <= k ==> Behind(ws[j], acts[j], u)
    requires Passed(ws, acts, k) == i && Passes(ws[k], acts[k])
    ensures ws[k + 1].lock.owner == u
  {
    forall j | 0 <= j <= k ensures LockSound(ws[j].lock) { WorldStaysSound(ws, acts, idle, j); }
    WaiterAdvances(ws, acts, idle, u, i, k);
    assert StepAt(ws, acts, idle, k);
    StepAdvances(ws[k], acts[k], idle, u, 0);
  }

  /** A world in which nobody has touched the mutex yet is sound. */
  lemma FreshIsSound(s: Sched, idle: Task)
    requires Sound(s) && HasIdle(s, idle)
    ensures WorldSound(New(s), idle)
  {
  }
}
