/**
 The mutex on linked tasks: its wait queue is threaded through the same `next` field as the run
 queues, so a task may be in at most one of them. Every method is proved to do to the lock and the
 scheduler what `Mutexes` defines.
 */
module MutexHeap {
  import opened Machine
  import opened TaskQueues
  import opened Scheduler
  import opened SchedulerHeap
  import opened Mutexes

  datatype Outcome = NoTask | Obtained | Queued

  class Mutex {
    var owner: Task?
    var locked: bool
    const waitQueue: TaskQueue

    ghost function Value(): Lock
      reads this, waitQueue
    {
      Lock(owner, locked, waitQueue.tasks)
    }

    /** The wait queue is well linked and made of tasks that the processor keeps out of its own queues. */
    ghost predicate Fits(cpu: Processor)
      reads waitQueue, waitQueue.tasks`next, cpu`tasks, cpu`mine
    {
      && waitQueue.Valid() && waitQueue !in cpu.queues
      && forall i :: 0 <= i < |waitQueue.tasks| ==> waitQueue.tasks[i] in cpu.tasks && waitQueue.tasks[i] !in cpu.mine
    }

    /** mutex_init. */
    constructor (queue: TaskQueue)
      modifies queue
      ensures waitQueue == queue && queue.Valid() && Value() == Free()
    {
      owner, locked, waitQueue := null, false, queue;
      new;
      waitQueue.Reset();
    }

    /** One pass of the loop of mutex_lock by the running task; it goes round again after `Queued`. */
    method Enter(cpu: Processor) returns (outcome: Outcome)
      requires cpu.Valid() && Fits(cpu) && Sound(cpu.view)
      modifies this, waitQueue, cpu, cpu.queues, cpu.tasks
      ensures cpu.Valid() && Fits(cpu) && (outcome == NoTask <==> old(cpu.current) == null)
      ensures outcome == NoTask ==> Value() == old(Value()) && cpu.view == old(cpu.view)
      ensures outcome != NoTask ==>
        Entered(old(Value()), old(cpu.view), outcome == Obtained, Value(), cpu.view)
      ensures outcome == Obtained <==> old(cpu.current) != null && (!old(locked) || old(owner) == old(cpu.current))
      ensures outcome == Obtained ==> locked && owner == old(cpu.current) && waitQueue.tasks == old(waitQueue.tasks)
      ensures outcome == Queued ==> locked && owner == old(owner) && old(cpu.current) in waitQueue.tasks
    {
      if cpu.current == null {
        return NoTask;
      }
      SoundCanBlock(cpu.view);
      ghost var q := waitQueue.tasks;
      PushMember(q, cpu.current, Ahead(q, cpu.current.prio));
      var done := TryEnter(cpu);
      outcome := if done then Obtained else Queued;
    }

    method TryEnter(cpu: Processor) returns (done: bool)
      requires cpu.Valid() && Fits(cpu) && CanBlock(cpu.view)
      modifies this, waitQueue, cpu, cpu.queues, cpu.tasks
      ensures cpu.Valid() && Fits(cpu)
      ensures Entered(old(Value()), old(cpu.view), done, Value(), cpu.view)
    {
      var task := cpu.current;
      if !locked {
        owner, locked := task, true;
        return true;
      }
      if owner == task {
        return true;
      }
      QueueUp(cpu, task);
      done := false;
    }

    method QueueUp(cpu: Processor, task: Task)
      requires cpu.Valid() && Fits(cpu) && CanBlock(cpu.view) && task == cpu.current
      modifies waitQueue, cpu, cpu.queues, cpu.tasks
      ensures cpu.Valid() && Fits(cpu) && waitQueue.tasks == Push(old(waitQueue.tasks), task)
      ensures WellFormed(Block(old(cpu.view))) && cpu.view == Schedule(Block(old(cpu.view)))
    {
      Join(cpu, task);
      Yield(cpu);
    }

    /** Enters the wait queue and blocks. */
    method Join(cpu: Processor, task: Task)
      requires cpu.Valid() && Fits(cpu) && task in cpu.tasks && task in cpu.mine && !cpu.Queued(task)
      modifies waitQueue, cpu`view, cpu`mine, cpu.tasks`next, task`state
      ensures cpu.Valid() && Fits(cpu) && waitQueue.tasks == Push(old(waitQueue.tasks), task)
      ensures cpu.view == old(cpu.view).(state := old(cpu.view).state[task := Blocked])
    {
      cpu.Suspend(task);
      LineUp(cpu, task);
    }

    method LineUp(cpu: Processor, task: Task)
      requires cpu.Valid() && Fits(cpu) && task in cpu.tasks && task !in cpu.mine && task !in waitQueue.tasks
      modifies waitQueue, cpu.tasks`next
      ensures cpu.Valid() && Fits(cpu) && waitQueue.tasks == Push(old(waitQueue.tasks), task)
    {
      waitQueue.Insert(task);
      PushDistinct(old(waitQueue.tasks), task);
      forall i | 0 <= i < |waitQueue.tasks| ensures waitQueue.tasks[i] in cpu.tasks && waitQueue.tasks[i] !in cpu.mine {
        PushMember(old(waitQueue.tasks), task, i);
      }
    }

    method Yield(cpu: Processor)
      requires cpu.Valid() && Fits(cpu) && Switchable(cpu.view)
      modifies cpu`total, cpu`current, cpu`view, cpu.queues, cpu.mine`next, cpu.tasks`state, cpu.tasks`tsRemain
      ensures cpu.Valid() && Fits(cpu) && WellFormed(old(cpu.view)) && cpu.view == Schedule(old(cpu.view))
    {
      cpu.Reschedule();
    }

    /** mutex_unlock by the running task; the waiters are the blocked tasks that `Mutexes` says they are. */
    method Leave(cpu: Processor) returns (ok: bool)
      requires cpu.Valid() && Fits(cpu) && Sound(cpu.view)
      requires waitQueue.tasks != [] ==> waitQueue.tasks[0].state == Blocked
      modifies this, waitQueue, cpu, cpu.queues, cpu.tasks
      ensures cpu.Valid() && Fits(cpu)
      ensures old(cpu.current) == null ==> !ok && Value() == old(Value()) && cpu.view == old(cpu.view)
      ensures old(cpu.current) != null ==> Left(old(Value()), old(cpu.view), ok, Value(), cpu.view)
      ensures ok <==> old(cpu.current) != null && old(owner) == old(cpu.current)
      ensures ok && old(waitQueue.tasks) == [] ==> owner == null && !locked
      ensures ok && old(waitQueue.tasks) != [] ==>
        owner == old(waitQueue.tasks)[0] && waitQueue.tasks == old(waitQueue.tasks)[1..] && locked == old(locked)
    {
      if cpu.current == null {
        return false;
      }
      if waitQueue.head != null {
        SoundCanWake(cpu.view, waitQueue.tasks[0]);
      }
      ok := TryLeave(cpu);
    }

    method TryLeave(cpu: Processor) returns (ok: bool)
      requires cpu.Valid() && Fits(cpu) && cpu.current != null
      requires waitQueue.tasks != [] ==> CanWake(cpu.view, waitQueue.tasks[0])
      modifies this, waitQueue, cpu, cpu.queues, cpu.tasks
      ensures cpu.Valid() && Fits(cpu)
      ensures Left(old(Value()), old(cpu.view), ok, Value(), cpu.view)
    {
      var task := cpu.current;
      if owner != task {
        return false;
      }
      ok := true;
      GiveUp(cpu);
    }

    /** The owner's unlock: the first waiter is the next owner, or nobody. */
    method GiveUp(cpu: Processor)
      requires cpu.Valid() && Fits(cpu) && cpu.current != null && owner == cpu.current
      requires waitQueue.tasks != [] ==> CanWake(cpu.view, waitQueue.tasks[0])
      modifies this, waitQueue, cpu, cpu.queues, cpu.tasks
      ensures cpu.Valid() && Fits(cpu) && Value() == HandOver(old(Value()), old(cpu.current))
      ensures |old(cpu.view).queues| == 4 && PassedOn(old(waitQueue.tasks), old(cpu.view), cpu.view)
    {
      ghost var s := if waitQueue.tasks == [] then cpu.view else Unblock(cpu.view, waitQueue.tasks[0]);
      var next := First(cpu);
      if next == null {
        owner, locked := null, false;
      } else {
        PassTo(cpu, next, s);
      }
    }

    method PassTo(cpu: Processor, next: Task, ghost s: Sched)
      requires cpu.Valid() && Fits(cpu) && next in cpu.tasks && next !in waitQueue.tasks && !cpu.Queued(next)
      requires s == Unblock(cpu.view, next) && Switchable(s)
      modifies `owner, cpu`total, cpu`current, cpu`view, cpu`mine, cpu.queues, cpu.tasks
      ensures cpu.Valid() && Fits(cpu) && owner == next && waitQueue.tasks == old(waitQueue.tasks)
      ensures WellFormed(s) && cpu.view == Schedule(s)
    {
      owner := next;
      WakeUp(cpu, next, s);
    }

    method WakeUp(cpu: Processor, next: Task, ghost s: Sched)
      requires cpu.Valid() && Fits(cpu) && next in cpu.tasks && next !in waitQueue.tasks && !cpu.Queued(next)
      requires s == Unblock(cpu.view, next) && Switchable(s)
      modifies cpu`total, cpu`current, cpu`view, cpu`mine, cpu.queues, cpu.tasks
      ensures cpu.Valid() && Fits(cpu) && waitQueue.tasks == old(waitQueue.tasks)
      ensures WellFormed(s) && cpu.view == Schedule(s)
    {
      Wake(cpu, next);
      Yield(cpu);
    }

    method First(cpu: Processor) returns (next: Task?)
      requires cpu.Valid() && Fits(cpu)
      modifies waitQueue, cpu.tasks`next
      ensures cpu.Valid() && Fits(cpu)
      ensures old(waitQueue.tasks) == [] ==> next == null && waitQueue.tasks == []
      ensures old(waitQueue.tasks) != [] ==>
        && next == old(waitQueue.tasks)[0] && waitQueue.tasks == old(waitQueue.tasks)[1..]
        && next in cpu.tasks && next !in waitQueue.tasks
    {
      next := waitQueue.Take();
    }

    method Wake(cpu: Processor, next: Task)
      requires cpu.Valid() && Fits(cpu) && next in cpu.tasks && !cpu.Queued(next) && next !in waitQueue.tasks
      modifies cpu`total, cpu`view, cpu`mine, cpu.queues, cpu.mine`next, next`next, next`state
      ensures cpu.Valid() && Fits(cpu) && cpu.view == Unblock(old(cpu.view), next)
    {
      cpu.Resume(next);
    }
  }

  /** What a pass of mutex_lock does to the lock and to the scheduler. */
  ghost predicate Entered(l: Lock, s: Sched, done: bool, l': Lock, s': Sched) {
    && WellFormed(s) && s.current != null && done == Obtains(l, s.current) && l' == Acquire(l, s.current)
    && s' == if done then s else Apply(s, Sleep)
  }

  /** What mutex_unlock does to the lock and to the scheduler. */
  ghost predicate Left(l: Lock, s: Sched, ok: bool, l': Lock, s': Sched) {
    && s.current != null && |s.queues| == 4 && ok == (l.owner == s.current) && l' == HandOver(l, s.current)
    && if !ok then s' == s else PassedOn(l.waiters, s, s')
  }

  /** The first waiter, if there is one, is woken and the processor reschedules. */
  ghost predicate PassedOn(waiters: seq<Task>, s: Sched, s': Sched)
    requires |s.queues| == 4
  {
    if waiters == [] then s' == s
    else WellFormed(Unblock(s, waiters[0])) && s' == Schedule(Unblock(s, waiters[0]))
  }

  ghost predicate CanBlock(s: Sched) {
    && WellFormed(s) && s.current != null && s.state[s.current] == Running
    && s.current.cls < 4 && s.current !in s.queues[s.current.cls] && Switchable(Block(s))
  }

  lemma SoundCanBlock(s: Sched)
    requires Sound(s) && s.current != null
    ensures CanBlock(s)
  {
    SoundIsWellFormed(s);
    SoundIsSwitchable(s);
  }

  ghost predicate CanWake(s: Sched, t: Task) {
    |s.queues| == 4 && t.cls < 4 && t !in s.queues[t.cls] && Switchable(Unblock(s, t))
  }

  lemma SoundCanWake(s: Sched, t: Task)
    requires Sound(s) && t in s.state && s.state[t] == Blocked
    ensures CanWake(s, t)
  {
    assert Lined(s.queues[t.cls], t.cls, ReadyTasks(s));
    UnblockSound(s, t);
    SoundIsSwitchable(Unblock(s, t));
  }
}
