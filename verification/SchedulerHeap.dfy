/**
 The scheduler on linked tasks: one intrusive queue per class, all threaded through the same `next`
 field. Every method is proved to do to the represented state what `Scheduler` defines.
 */
module SchedulerHeap {
  import opened TaskQueues
  import opened Scheduler

  method EmptyQueues() returns (qs: seq<TaskQueue>)
    ensures |qs| == 4 && fresh(qs) && forall c, d :: 0 <= c < d < 4 ==> qs[c] != qs[d]
    ensures forall c :: 0 <= c < 4 ==> qs[c].tasks == [] && qs[c].Valid()
  {
    var a := new TaskQueue();
    var b := new TaskQueue();
    var c := new TaskQueue();
    var d := new TaskQueue();
    qs := [a, b, c, d];
  }

  /** What a switch relies on: the count is right about being positive, and the running task is not queued. */
  ghost predicate Switchable(s: Sched) {
    && |s.queues| == 4 && (Top(s.queues) >= 0 ==> s.total > 0)
    && (s.current != null ==> s.current.cls < 4 && s.current !in s.queues[s.current.cls])
  }

  lemma SoundIsSwitchable(s: Sched)
    requires NearlySound(s)
    ensures Switchable(s)
  {
    if s.current != null {
      assert Lined(s.queues[s.current.cls], s.current.cls, ReadyTasks(s));
    }
  }

  class Processor {
    const queues: seq<TaskQueue>
    var total: nat
    var current: Task?
    ghost var tasks: set<Task>
    ghost var mine: set<Task> // those whose `next` field is at the disposal of this processor
    ghost var view: Sched

    /** The queues are separate, well linked, and hold known tasks of their own class. */
    ghost predicate Linked()
      reads this, queues, mine`next
    {
      && |queues| == 4 && mine <= tasks && (forall c, d :: 0 <= c < d < 4 ==> queues[c] != queues[d])
      && forall c :: 0 <= c < 4 ==> Inside(queues[c].tasks, c) && queues[c].Valid()
    }

    ghost predicate Inside(q: seq<Task>, c: nat)
      reads this
    {
      forall i :: 0 <= i < |q| ==> q[i] in mine && q[i].cls == c
    }

    /** Task `t` is linked into a queue of this processor. */
    ghost predicate Queued(t: Task)
      reads this, queues
    {
      |queues| == 4 && t.cls < 4 && t in queues[t.cls].tasks
    }

    /** `view` is what the fields represent. */
    ghost predicate Viewed()
      reads this, queues, tasks`state, tasks`tsRemain
    {
      && |queues| == 4 && |view.queues| == 4 && view.total == total && view.current == current
      && (current != null ==> current in tasks && (current.state == Running ==> current in mine))
      && (forall c :: 0 <= c < 4 ==> view.queues[c] == queues[c].tasks)
      && view.state.Keys == tasks && view.slice.Keys == tasks
      && forall t :: t in tasks ==> view.state[t] == t.state && view.slice[t] == t.tsRemain
    }

    ghost predicate Valid()
      reads this, queues, mine`next, tasks`state, tasks`tsRemain
    {
      Linked() && Viewed()
    }

    /** init_this_cpu_sched_state. */
    constructor ()
      ensures Valid() && fresh(queues) && view == Boot()
    {
      var qs := EmptyQueues();
      queues := qs;
      total, current, tasks, mine, view := 0, null, {}, {}, Boot();
    }

    method PushOn(t: Task)
      requires Linked() && t in mine && t.cls < 4 && !Queued(t)
      modifies queues, mine`next
      ensures Linked()
      ensures queues[t.cls].tasks == Push(old(queues[t.cls].tasks), t)
      ensures forall d :: 0 <= d < 4 && d != t.cls ==> queues[d].tasks == old(queues[d].tasks)
    {
      queues[t.cls].Insert(t);
      forall d | 0 <= d < 4 && d != t.cls ensures Inside(queues[d].tasks, d) && queues[d].Valid() {
        KeepQueue(queues[d], d, t.cls);
      }
    }

    /** A queue whose tasks have another class than the ones relinked is left alone. */
    twostate lemma KeepQueue(q: TaskQueue, new c: nat, new d: nat)
      requires old(q.Valid()) && old(Inside(q.tasks, c)) && c != d && mine == old(mine)
      requires q.head == old(q.head) && q.tasks == old(q.tasks)
      requires forall t: Task :: old(allocated(t)) && t.cls != d ==> t.next == old(t.next)
      ensures Inside(q.tasks, c) && q.Valid()
    {
    }

    method PopFrom(c: nat) returns (t: Task)
      requires Linked() && c < 4 && queues[c].tasks != []
      modifies queues, mine`next
      ensures Linked() && t == old(queues[c].tasks)[0] && queues[c].tasks == old(queues[c].tasks)[1..]
      ensures forall d :: 0 <= d < 4 && d != c ==> queues[d].tasks == old(queues[d].tasks)
    {
      t := queues[c].Take();
      forall d | 0 <= d < 4 && d != c ensures Inside(queues[d].tasks, d) && queues[d].Valid() {
        KeepQueue(queues[d], d, c);
      }
    }

    /** sched_enqueue_on. */
    method EnqueueOn(t: Task) returns (ok: bool)
      requires Valid() && t in mine && !Queued(t)
      modifies `total, `view, queues, mine`next
      ensures Valid() && ok == (t.cls < 4) && view == Enqueue(old(view), t)
    {
      if t.cls >= 4 {
        return false;
      }
      view := Enqueue(view, t);
      total := total + 1;
      PushOn(t);
      ok := true;
    }

    /** The class whose queue has the next candidate. */
    method Candidate() returns (c: int)
      requires Valid()
      ensures c == Top(view.queues)
    {
      assert forall d :: 0 <= d < 4 ==> queues[d].Valid();
      c := if queues[3].head != null then 3 else if queues[2].head != null then 2
        else if queues[1].head != null then 1 else if queues[0].head != null then 0 else -1;
    }

    /** Takes a tick off the running task's slice. */
    method ChargeCurrent()
      requires Valid()
      modifies `view, tasks`tsRemain
      ensures Valid() && WellFormed(old(view)) && view == Charge(old(view))
    {
      assert WellFormed(view) by { ViewWellFormed(); }
      view := Charge(view);
      if current != null && current.tsRemain > 0 {
        current.tsRemain := current.tsRemain - 1;
      }
    }

    lemma ViewWellFormed()
      requires Valid()
      ensures WellFormed(view)
    {
      forall c, i | 0 <= c < 4 && 0 <= i < |view.queues[c]| ensures view.queues[c][i] in view.state {
        assert Inside(queues[c].tasks, c);
      }
    }

    /** sched_schedule. */
    method Reschedule()
      requires Valid() && Switchable(view)
      modifies `total, `current, `view, queues, mine`next, tasks`state, tasks`tsRemain
      ensures Valid() && WellFormed(old(view)) && view == Schedule(old(view))
    {
      ViewWellFormed();
      ghost var v := view;
      var c := Candidate();
      if c < 0 {
        return;
      }
      var candidate := queues[c].head;
      assert candidate == v.queues[c][0];
      ChargeCurrent();
      if current != null && current.state != Blocked && current.tsRemain > 0
        && !Preempts(candidate, current)
      {
        return;
      }
      assert forall t :: t in v.queues[c][1..] ==> t in v.queues[c];
      Switch(c);
    }

    method Switch(c: nat)
      requires Valid() && c < 4 && view.queues[c] != [] && total > 0
      requires current != null ==> current.cls < 4 && current !in Pop(view, c).queues[current.cls]
      modifies `total, `current, `view, queues, mine`next, tasks`state, tasks`tsRemain
      ensures Valid()
      ensures view == Dispatch(Requeue(Pop(old(view), c)), old(view).queues[c][0])
    {
      assert Inside(queues[c].tasks, c);
      var next := Detach(c);
      PutBack();
      Start(next);
    }

    method Detach(c: nat) returns (next: Task)
      requires Valid() && c < 4 && view.queues[c] != [] && total > 0
      modifies `total, `view, queues, mine`next
      ensures Valid() && view == Pop(old(view), c) && next == old(view).queues[c][0]
    {
      view := Pop(view, c);
      next := PopFrom(c);
      total := total - 1;
    }

    method PutBack()
      requires Valid() && (current != null ==> !Queued(current))
      modifies `total, `view, queues, mine`next, tasks`state
      ensures Valid() && view == Requeue(old(view))
    {
      if current != null && current.state == Running {
        view := view.(state := view.state[current := Ready]);
        current.state := Ready;
        var _ := EnqueueOn(current);
      }
    }

    method Start(next: Task)
      requires Valid() && next in mine
      modifies `current, `view, next`tsRemain, next`state
      ensures Valid() && view == Dispatch(old(view), next)
    {
      ghost var v := view;
      Refill(next);
      view := Dispatch(v, next);
      next.state := Running;
      current := next;
    }

    method Refill(t: Task)
      requires Valid() && t in tasks
      modifies `view, t`tsRemain
      ensures Valid() && view == old(view).(slice := old(view).slice[t := DEFAULT_TIMESLICE])
    {
      view := view.(slice := view.slice[t := DEFAULT_TIMESLICE]);
      t.tsRemain := DEFAULT_TIMESLICE;
    }

    /** sched_block of a task that runs: the processor gives up its `next` field. */
    method Suspend(t: Task)
      requires Valid() && t in tasks && !Queued(t)
      modifies `view, `mine, t`state
      ensures Valid() && mine == old(mine) - {t} && view == old(view).(state := old(view).state[t := Blocked])
    {
      view := view.(state := view.state[t := Blocked]);
      mine := mine - {t};
      t.state := Blocked;
    }

    /** sched_unblock_on: the processor takes its `next` field back. */
    method Resume(t: Task)
      requires Valid() && t in tasks && !Queued(t)
      modifies `total, `view, `mine, queues, mine`next, t`next, t`state
      ensures Valid() && mine == old(mine) + {t} && view == Unblock(old(view), t)
    {
      Return(t);
      var _ := EnqueueOn(t);
    }

    method Return(t: Task)
      requires Valid() && t in tasks && !Queued(t)
      modifies `view, `mine, t`state
      ensures Valid() && mine == old(mine) + {t} && view == old(view).(state := old(view).state[t := Ready])
    {
      view := view.(state := view.state[t := Ready]);
      mine := mine + {t};
      t.state := Ready;
    }

    /** A new task, as task_create_new leaves it, is made known and enqueued; an invalid class is refused. */
    method Admit(t: Task) returns (ok: bool)
      requires Valid() && t !in tasks && t.state == Ready && t.tsRemain == DEFAULT_TIMESLICE
      modifies `total, `view, `tasks, `mine, queues, mine`next, t`next
      ensures Valid() && ok == (t.cls < 4)
      ensures ok ==> tasks == old(tasks) + {t} && mine == old(mine) + {t} && view == Arrived(old(view), t)
      ensures !ok ==> tasks == old(tasks) && mine == old(mine) && view == old(view)
    {
      if t.cls >= 4 {
        return false;
      }
      Meet(t);
      ok := EnqueueOn(t);
    }

    ghost method Meet(t: Task)
      requires Valid() && t !in tasks
      modifies `view, `tasks, `mine
      ensures Valid() && tasks == old(tasks) + {t} && mine == old(mine) + {t} && !Queued(t)
      ensures view == old(view).(state := old(view).state[t := t.state], slice := old(view).slice[t := t.tsRemain])
    {
      assert t.cls < 4 ==> Inside(queues[t.cls].tasks, t.cls);
      view := view.(state := view.state[t := t.state], slice := view.slice[t := t.tsRemain]);
      tasks, mine := tasks + {t}, mine + {t};
    }

    /** Any event of a sound processor, on linked tasks, is the value step. */
    method Step(e: Event)
      requires Valid() && Sound(view) && Enabled(view, e)
      requires e.Admit? ==> e.task.state == Ready && e.task.tsRemain == DEFAULT_TIMESLICE
      modifies this, queues, tasks, if e.Admit? then {e.task} else {}
      ensures Valid() && WellFormed(old(view)) && view == Apply(old(view), e)
    {
      ViewWellFormed();
      SoundIsSwitchable(view);
      match e
      case Tick =>
        Reschedule();
      case Sleep =>
        BlockIsNearlySound(view);
        SoundIsSwitchable(Block(view));
        Suspend(current);
        Reschedule();
      case Wake(t) =>
        BlockedUnqueued(view, t);
        Resume(t);
      case Admit(t) =>
        var _ := Admit(t);
    }
  }

  /** A blocked task is in no queue. */
  lemma BlockedUnqueued(s: Sched, t: Task)
    requires Sound(s) && t in s.state && s.state[t] == Blocked
    ensures t.cls < 4 && t !in s.queues[t.cls]
  {
    assert Lined(s.queues[t.cls], t.cls, ReadyTasks(s));
  }
}
