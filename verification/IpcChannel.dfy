/**
 Synchronous message passing of kernel/ipc/channel.c as a step system. Each step is one stretch
 of code under a lock: a sender enqueues its message, later notifies a receiver and blocks; a
 receiver takes a message, or sees an empty queue, registers itself and blocks, and later
 resumes; a reply wakes the sender, or meets it before it has blocked: the run queue keeps that
 wake-up, so that the sender goes on as soon as it blocks. A message whose entry in the in-flight
 table fails is delivered all the same, untracked. Steps of different tasks interleave freely.
 */
module IpcChannels {
  import opened Machine

  type TaskId = nat
  type ChanId = u64
  type Cookie = u64

  /** Where a task stands in the code of a send or receive. */
  datatype Place =
    | Outside                                     // not inside a channel operation
    | Enqueued(chan: ChanId, cookie: Cookie)      // send: message queued, receivers not yet notified
    | AwaitReply(cookie: Cookie)                  // send: blocked
    | Answered(cookie: Cookie)                    // send: woken by the reply, about to return
    | SawEmpty(chan: ChanId)                      // recv: found the queue empty, holds the receivers lock
    | RecvBlocked(chan: ChanId)                   // recv: on the receiver list, blocked
    | Woken(chan: ChanId)                         // recv: unblocked by a sender, not yet resumed

  datatype Stage = Queued | InFlight | Untracked | Replied(value: u64)

  datatype Message = Message(chan: ChanId, tag: u64, size: u64, sender: TaskId, stage: Stage)

  datatype Channel = Channel(queue: seq<Cookie>, receivers: seq<TaskId>)

  /** `used`, `sent` and `taken` are history: they record what happened and guide no step. */
  datatype State = State(
    chans: map<ChanId, Channel>,
    msgs: map<Cookie, Message>,
    at: map<TaskId, Place>,
    used: set<Cookie>,
    sent: map<ChanId, seq<Cookie>>,
    taken: map<ChanId, seq<Cookie>>)

  /** `kept` tells whether the in-flight table had memory for the message. */
  datatype Event =
    | SendEnqueue(task: TaskId, chan: ChanId, cookie: Cookie, tag: u64, size: u64)
    | SendNotify(task: TaskId)
    | SendReturn(task: TaskId)
    | RecvTake(task: TaskId, chan: ChanId, kept: bool)
    | RecvSeeEmpty(task: TaskId, chan: ChanId)
    | RecvRegister(task: TaskId)
    | RecvResume(task: TaskId, kept: bool)
    | Reply(task: TaskId, cookie: Cookie, value: u64)

  /** What the step hands back to its caller, if it completes an operation. */
  datatype Output = Nothing | Received(cookie: Cookie, tag: u64, size: u64) | Result(value: u64)

  predicate TaskAt(s: State, t: TaskId, p: Place) {
    t in s.at && s.at[t] == p
  }

  /** The receivers lock of `ch` is held across steps only by a receiver that saw an empty queue. */
  ghost predicate LockFree(s: State, ch: ChanId) {
    forall t :: t in s.at ==> s.at[t] != SawEmpty(ch)
  }

  /** A message is in the in-flight table. */
  predicate IsInFlight(s: State, c: Cookie) {
    c in s.msgs && s.msgs[c].stage == InFlight
  }

  ghost predicate Enabled(s: State, e: Event) {
    match e
    case SendEnqueue(t, ch, c, tag, size) =>
      TaskAt(s, t, Outside) && ch in s.chans && c != 0 && c !in s.used && size <= PAGE_SIZE
    case SendNotify(t) =>
      t in s.at && s.at[t].Enqueued? && LockFree(s, s.at[t].chan)
    case SendReturn(t) =>
      t in s.at && s.at[t].Answered?
    case RecvTake(t, ch, kept) =>
      TaskAt(s, t, Outside) && ch in s.chans && LockFree(s, ch) && s.chans[ch].queue != []
    case RecvSeeEmpty(t, ch) =>
      TaskAt(s, t, Outside) && ch in s.chans && LockFree(s, ch) && s.chans[ch].queue == []
    case RecvRegister(t) =>
      t in s.at && s.at[t].SawEmpty?
    case RecvResume(t, kept) =>
      t in s.at && s.at[t].Woken?
    case Reply(t, c, v) =>
      TaskAt(s, t, Outside)
  }

  // ---------------------------------------------------------------------------------------
  // Invariants
  // ---------------------------------------------------------------------------------------

  /** A channel's queue holds exactly its queued messages, each once, in the order they were sent. */
  ghost predicate QueueInv(s: State) {
    && s.chans.Keys == s.sent.Keys == s.taken.Keys
    && (forall ch :: ch in s.chans ==> QueueSound(s.msgs, ch, s.chans[ch].queue, s.sent[ch], s.taken[ch]))
    && (forall c :: c in s.msgs ==> MessageSound(s, c))
  }

  ghost predicate QueueSound(
    msgs: map<Cookie, Message>, ch: ChanId, queue: seq<Cookie>, sent: seq<Cookie>, taken: seq<Cookie>)
  {
    && sent == taken + queue
    && Distinct(queue)
    && forall i :: 0 <= i < |queue| ==> queue[i] in msgs && msgs[queue[i]].chan == ch && msgs[queue[i]].stage == Queued
  }

  ghost predicate MessageSound(s: State, c: Cookie)
    requires c in s.msgs
  {
    && c in s.used && c != 0 && s.msgs[c].chan in s.chans
    && (s.msgs[c].stage == Queued ==> c in s.chans[s.msgs[c].chan].queue)
  }

  /** Every live message has a sender inside its send, and the sender's place fits the message's stage. */
  ghost predicate SenderInv(s: State) {
    && (forall c :: c in s.msgs ==> SenderPlaced(s, c))
    && (forall t :: t in s.at ==> PlaceMatches(s, t))
  }

  ghost predicate SenderPlaced(s: State, c: Cookie)
    requires c in s.msgs
  {
    var m := s.msgs[c];
    m.sender in s.at &&
    (s.at[m.sender] == Enqueued(m.chan, c) || s.at[m.sender] == if m.stage.Replied? then Answered(c) else AwaitReply(c))
  }

  ghost predicate PlaceMatches(s: State, t: TaskId)
    requires t in s.at
  {
    match s.at[t]
    case Outside => true
    case Enqueued(ch, c) => c in s.msgs && s.msgs[c].sender == t && s.msgs[c].chan == ch
    case AwaitReply(c) => c in s.msgs && s.msgs[c].sender == t && !s.msgs[c].stage.Replied?
    case Answered(c) => c in s.msgs && s.msgs[c].sender == t && s.msgs[c].stage.Replied?
    case SawEmpty(ch) => ch in s.chans
    case RecvBlocked(ch) => ch in s.chans && t in s.chans[ch].receivers
    case Woken(ch) => ch in s.chans
  }

  /** The receiver list holds only blocked receivers, each once; the lock has one holder. */
  ghost predicate ReceiverInv(s: State) {
    && (forall ch :: ch in s.chans ==> ReceiversSound(s.at, ch, s.chans[ch].receivers))
    && (forall t, u :: t in s.at && u in s.at && s.at[t].SawEmpty? && s.at[t] == s.at[u] ==> t == u)
  }

  ghost predicate ReceiversSound(at: map<TaskId, Place>, ch: ChanId, r: seq<TaskId>) {
    && Distinct(r)
    && forall i :: 0 <= i < |r| ==> r[i] in at && at[r[i]] == RecvBlocked(ch)
  }

  predicate WakesOn(p: Place, ch: ChanId) {
    p.Woken? && p.chan == ch
  }

  /** Receivers that a sender unblocked and that have not looked at the queue again yet. */
  ghost function WokenOn(s: State, ch: ChanId): set<TaskId> {
    set t | t in s.at && WakesOn(s.at[t], ch)
  }

  predicate Notifies(p: Place, ch: ChanId) {
    p.Enqueued? && p.chan == ch
  }

  /** Senders that have queued a message and not yet looked for a receiver. */
  ghost function NotifyingOn(s: State, ch: ChanId): set<TaskId> {
    set t | t in s.at && Notifies(s.at[t], ch)
  }

  ghost predicate ReceiverPending(s: State, ch: ChanId)
    requires ch in s.chans
  {
    s.chans[ch].receivers != [] || !LockFree(s, ch)
  }

  /** Wake-ups under way on `ch`. */
  ghost function Signals(s: State, ch: ChanId): nat {
    |WokenOn(s, ch)| + |NotifyingOn(s, ch)|
  }

  /** The wake-up account of one channel. */
  ghost predicate WakeSound(s: State, ch: ChanId)
    requires ch in s.chans
  {
    ReceiverPending(s, ch) ==> |s.chans[ch].queue| <= Signals(s, ch)
  }

  /** No lost wake-up: while a receiver sleeps or is about to, every queued message has a wake-up under way. */
  ghost predicate WakeInv(s: State) {
    forall ch :: ch in s.chans ==> WakeSound(s, ch)
  }

  /** The part of the invariant that makes the steps well defined. */
  ghost predicate Typed(s: State) {
    && s.chans.Keys == s.sent.Keys == s.taken.Keys
    && (forall ch :: ch in s.chans && s.chans[ch].queue != [] ==> s.chans[ch].queue[0] in s.msgs)
    && (forall t :: t in s.at ==> PlaceTyped(s, s.at[t]))
  }

  ghost predicate PlaceTyped(s: State, p: Place) {
    match p
    case Enqueued(ch, c) => ch in s.chans
    case Answered(c) => c in s.msgs && s.msgs[c].stage.Replied?
    case SawEmpty(ch) => ch in s.chans
    case Woken(ch) => ch in s.chans
    case _ => true
  }

  ghost predicate Inv(s: State) {
    QueueInv(s) && SenderInv(s) && ReceiverInv(s) && WakeInv(s)
  }

  // ---------------------------------------------------------------------------------------
  // Steps
  // ---------------------------------------------------------------------------------------

  function Move(s: State, t: TaskId, p: Place): State {
    s.(at := s.at[t := p])
  }

  /** Dequeues the head message of `ch` and records it in the in-flight table, if that has memory. */
  function Take(s: State, ch: ChanId, kept: bool): State
    requires ch in s.chans && ch in s.taken && s.chans[ch].queue != [] && s.chans[ch].queue[0] in s.msgs
  {
    var q := s.chans[ch].queue;
    s.(chans := s.chans[ch := s.chans[ch].(queue := q[1..])],
       msgs := s.msgs[q[0] := s.msgs[q[0]].(stage := if kept then InFlight else Untracked)],
       taken := s.taken[ch := s.taken[ch] + [q[0]]])
  }

  function Enqueue(s: State, t: TaskId, ch: ChanId, c: Cookie, tag: u64, size: u64): State
    requires ch in s.chans && ch in s.sent
  {
    s.(chans := s.chans[ch := s.chans[ch].(queue := s.chans[ch].queue + [c])],
       msgs := s.msgs[c := Message(ch, tag, size, t, Queued)],
       at := s.at[t := Enqueued(ch, c)],
       used := s.used + {c},
       sent := s.sent[ch := s.sent[ch] + [c]])
  }

  /** Takes the first blocked receiver off the list, if there is one. */
  function Notify(s: State, ch: ChanId): State
    requires ch in s.chans
  {
    var r := s.chans[ch].receivers;
    if r == [] then s
    else s.(chans := s.chans[ch := s.chans[ch].(receivers := r[1..])], at := s.at[r[0] := Woken(ch)])
  }

  function Register(s: State, t: TaskId, ch: ChanId): State
    requires ch in s.chans
  {
    Move(s.(chans := s.chans[ch := s.chans[ch].(receivers := s.chans[ch].receivers + [t])]), t, RecvBlocked(ch))
  }

  function Answer(s: State, c: Cookie, v: u64): State
    requires c in s.msgs
  {
    var m := s.msgs[c];
    var r := s.(msgs := s.msgs[c := m.(stage := Replied(v))]);
    if TaskAt(s, m.sender, AwaitReply(c)) then Move(r, m.sender, Answered(c)) else r
  }

  /** Where a sender goes when it blocks: the wake-up of an earlier reply is waiting for it. */
  function Blocks(s: State, c: Cookie): Place {
    if c in s.msgs && s.msgs[c].stage.Replied? then Answered(c) else AwaitReply(c)
  }

  ghost function Next(s: State, e: Event): State
    requires Typed(s) && Enabled(s, e)
  {
    match e
    case SendEnqueue(t, ch, c, tag, size) => Enqueue(s, t, ch, c, tag, size)
    case SendNotify(t) =>
      assert PlaceTyped(s, s.at[t]);
      Move(Notify(s, s.at[t].chan), t, Blocks(s, s.at[t].cookie))
    case SendReturn(t) =>
      Move(s.(msgs := s.msgs - {s.at[t].cookie}), t, Outside)
    case RecvTake(t, ch, kept) => Take(s, ch, kept)
    case RecvSeeEmpty(t, ch) => Move(s, t, SawEmpty(ch))
    case RecvRegister(t) =>
      assert PlaceTyped(s, s.at[t]);
      Register(s, t, s.at[t].chan)
    case RecvResume(t, kept) =>
      assert PlaceTyped(s, s.at[t]);
      var ch := s.at[t].chan;
      Move(if s.chans[ch].queue == [] then s else Take(s, ch, kept), t, Outside)
    case Reply(t, c, v) =>
      if IsInFlight(s, c) then Answer(s, c, v) else s
  }

  function TakeOutput(s: State, ch: ChanId): Output
    requires ch in s.chans && (s.chans[ch].queue != [] ==> s.chans[ch].queue[0] in s.msgs)
  {
    var q := s.chans[ch].queue;
    if q == [] then Result(0) else Received(q[0], s.msgs[q[0]].tag, s.msgs[q[0]].size)
  }

  /** What the caller of the operation gets back when this step completes it. */
  ghost function Out(s: State, e: Event): Output
    requires Typed(s) && Enabled(s, e)
  {
    match e
    case SendReturn(t) =>
      assert PlaceTyped(s, s.at[t]);
      Result(s.msgs[s.at[t].cookie].stage.value)
    case RecvTake(t, ch, kept) => TakeOutput(s, ch)
    case RecvResume(t, kept) =>
      assert PlaceTyped(s, s.at[t]);
      TakeOutput(s, s.at[t].chan)
    case Reply(t, c, v) => Result(if IsInFlight(s, c) then c else 0)
    case _ => Nothing
  }

  lemma InvTyped(s: State)
    requires QueueInv(s) && SenderInv(s)
    ensures Typed(s)
  {
    forall ch | ch in s.chans && s.chans[ch].queue != [] ensures s.chans[ch].queue[0] in s.msgs {
      assert s.chans[ch].queue[0] in s.chans[ch].queue;
    }
    forall t | t in s.at ensures PlaceTyped(s, s.at[t]) {
      assert PlaceMatches(s, t);
    }
  }

  // ---------------------------------------------------------------------------------------
  // Each step keeps the queue invariant
  // ---------------------------------------------------------------------------------------

  lemma EnqueueMessage(s: State, t: TaskId, ch: ChanId, c: Cookie, tag: u64, size: u64, d: Cookie)
    requires ch in s.chans && ch in s.sent && c != 0
    requires d != c ==> d in s.msgs && MessageSound(s, d)
    ensures MessageSound(Enqueue(s, t, ch, c, tag, size), d)
  {
    var q := s.chans[ch].queue;
    assert (q + [c])[|q|] == c;
    assert forall x :: x in q ==> x in q + [c];
  }

  lemma EnqueueQueue(s: State, t: TaskId, ch: ChanId, c: Cookie, tag: u64, size: u64)
    requires QueueInv(s) && ch in s.chans && c != 0 && c !in s.used
    ensures QueueInv(Enqueue(s, t, ch, c, tag, size))
  {
    var s' := Enqueue(s, t, ch, c, tag, size);
    assert c in s.msgs ==> MessageSound(s, c);
    forall x | x in s'.chans ensures QueueSound(s'.msgs, x, s'.chans[x].queue, s'.sent[x], s'.taken[x]) {
      assert QueueSound(s.msgs, x, s.chans[x].queue, s.sent[x], s.taken[x]);
    }
    forall d | d in s'.msgs ensures MessageSound(s', d) {
      EnqueueMessage(s, t, ch, c, tag, size, d);
    }
  }

  lemma TakeSameChannel(
    msgs: map<Cookie, Message>, m: Message, ch: ChanId, q: seq<Cookie>, sent: seq<Cookie>, taken: seq<Cookie>)
    requires QueueSound(msgs, ch, q, sent, taken) && q != []
    ensures QueueSound(msgs[q[0] := m], ch, q[1..], sent, taken + [q[0]])
  {
    assert taken + q == (taken + [q[0]]) + q[1..];
  }

  lemma TakeOtherChannel(
    msgs: map<Cookie, Message>, c: Cookie, m: Message, ch: ChanId, q: seq<Cookie>, sent: seq<Cookie>,
    taken: seq<Cookie>)
    requires QueueSound(msgs, ch, q, sent, taken) && c in msgs && msgs[c].chan != ch
    ensures QueueSound(msgs[c := m], ch, q, sent, taken)
  {
  }

  lemma TakeQueue(s: State, ch: ChanId, kept: bool)
    requires QueueInv(s) && ch in s.chans && s.chans[ch].queue != []
    ensures s.chans[ch].queue[0] in s.msgs && QueueInv(Take(s, ch, kept))
  {
    var q := s.chans[ch].queue;
    assert QueueSound(s.msgs, ch, q, s.sent[ch], s.taken[ch]);
    var s' := Take(s, ch, kept);
    forall x | x in s'.chans ensures QueueSound(s'.msgs, x, s'.chans[x].queue, s'.sent[x], s'.taken[x]) {
      if x == ch {
        TakeSameChannel(s.msgs, s'.msgs[q[0]], ch, q, s.sent[ch], s.taken[ch]);
      } else {
        TakeOtherChannel(s.msgs, q[0], s'.msgs[q[0]], x, s.chans[x].queue, s.sent[x], s.taken[x]);
      }
    }
    forall d | d in s'.msgs ensures MessageSound(s', d) {
      TakeMessage(s, ch, kept, d);
    }
  }

  lemma TakeMessage(s: State, ch: ChanId, kept: bool, d: Cookie)
    requires ch in s.chans && ch in s.taken && s.chans[ch].queue != [] && s.chans[ch].queue[0] in s.msgs
    requires d in s.msgs && MessageSound(s, d)
    ensures MessageSound(Take(s, ch, kept), d)
  {
    var q := s.chans[ch].queue;
    assert d in q && d != q[0] ==> d in q[1..];
  }

  lemma NotifyQueue(s: State, ch: ChanId)
    requires QueueInv(s) && ch in s.chans
    ensures QueueInv(Notify(s, ch))
  {
  }

  lemma RegisterQueue(s: State, t: TaskId, ch: ChanId)
    requires QueueInv(s) && ch in s.chans
    ensures QueueInv(Register(s, t, ch))
  {
  }

  lemma AnswerQueue(s: State, c: Cookie, v: u64)
    requires QueueInv(s) && IsInFlight(s, c)
    ensures QueueInv(Answer(s, c, v))
  {
  }

  lemma ForgetQueue(s: State, c: Cookie)
    requires QueueInv(s) && c in s.msgs && s.msgs[c].stage.Replied?
    ensures QueueInv(s.(msgs := s.msgs - {c}))
  {
  }

  // ---------------------------------------------------------------------------------------
  // Each step keeps senders in step with their messages
  // ---------------------------------------------------------------------------------------

  lemma EnqueueSender(s: State, t: TaskId, ch: ChanId, c: Cookie, tag: u64, size: u64)
    requires SenderInv(s) && TaskAt(s, t, Outside) && ch in s.chans && ch in s.sent && c !in s.msgs
    ensures SenderInv(Enqueue(s, t, ch, c, tag, size))
  {
    var s' := Enqueue(s, t, ch, c, tag, size);
    forall d | d in s'.msgs ensures SenderPlaced(s', d) { if d != c { assert SenderPlaced(s, d); } }
    forall u | u in s'.at ensures PlaceMatches(s', u) { assert PlaceMatches(s, u); }
  }

  lemma TakeSender(s: State, ch: ChanId, kept: bool)
    requires SenderInv(s) && ch in s.chans && ch in s.taken && s.chans[ch].queue != []
    requires s.chans[ch].queue[0] in s.msgs && s.msgs[s.chans[ch].queue[0]].stage == Queued
    ensures SenderInv(Take(s, ch, kept))
  {
    var s' := Take(s, ch, kept);
    forall d | d in s'.msgs ensures SenderPlaced(s', d) { assert SenderPlaced(s, d); }
    forall u | u in s'.at ensures PlaceMatches(s', u) { assert PlaceMatches(s, u); }
  }

  /** Waking the first receiver disturbs no sender and no other receiver. */
  lemma NotifySender(s: State, ch: ChanId)
    requires SenderInv(s) && ReceiverInv(s) && ch in s.chans
    ensures SenderInv(Notify(s, ch))
  {
    var s' := Notify(s, ch);
    var r := s.chans[ch].receivers;
    if r != [] {
      assert ReceiversSound(s.at, ch, r);
      forall d | d in s'.msgs ensures SenderPlaced(s', d) { assert SenderPlaced(s, d); }
      forall u | u in s'.at ensures PlaceMatches(s', u) {
        assert u in s.at && PlaceMatches(s, u);
        assert u in r && u != r[0] ==> u in r[1..];
      }
    }
  }

  /** A task that is not a blocked sender may move between the places of a receive. */
  lemma MoveReceiver(s: State, t: TaskId, p: Place)
    requires SenderInv(s) && t in s.at && (s.at[t].Outside? || s.at[t].SawEmpty? || s.at[t].Woken?)
    requires p == Outside || (p.SawEmpty? && p.chan in s.chans)
    ensures SenderInv(Move(s, t, p))
  {
    var s' := Move(s, t, p);
    forall d | d in s'.msgs ensures SenderPlaced(s', d) { assert SenderPlaced(s, d); }
    forall u | u in s'.at ensures PlaceMatches(s', u) { assert PlaceMatches(s, u); }
  }

  lemma RegisterSender(s: State, t: TaskId, ch: ChanId)
    requires SenderInv(s) && TaskAt(s, t, SawEmpty(ch)) && ch in s.chans
    ensures SenderInv(Register(s, t, ch))
  {
    var s' := Register(s, t, ch);
    var r := s.chans[ch].receivers;
    assert (r + [t])[|r|] == t;
    forall d | d in s'.msgs ensures SenderPlaced(s', d) { assert SenderPlaced(s, d); }
    forall u | u in s'.at ensures PlaceMatches(s', u) { assert PlaceMatches(s, u); }
  }

  lemma BlockSender(s: State, t: TaskId, ch: ChanId, c: Cookie)
    requires SenderInv(s) && TaskAt(s, t, Enqueued(ch, c))
    ensures SenderInv(Move(s, t, Blocks(s, c)))
  {
    var s' := Move(s, t, Blocks(s, c));
    assert PlaceMatches(s, t);
    forall d | d in s'.msgs ensures SenderPlaced(s', d) { assert SenderPlaced(s, d); }
    forall u | u in s'.at ensures PlaceMatches(s', u) { assert PlaceMatches(s, u); }
  }

  lemma AnswerSender(s: State, c: Cookie, v: u64)
    requires SenderInv(s) && IsInFlight(s, c)
    ensures SenderInv(Answer(s, c, v))
  {
    var s' := Answer(s, c, v);
    assert SenderPlaced(s, c);
    forall d | d in s'.msgs ensures SenderPlaced(s', d) { assert SenderPlaced(s, d); }
    forall u | u in s'.at ensures PlaceMatches(s', u) { assert PlaceMatches(s, u); }
  }

  lemma ReturnSender(s: State, t: TaskId, c: Cookie)
    requires SenderInv(s) && TaskAt(s, t, Answered(c))
    ensures SenderInv(Move(s.(msgs := s.msgs - {c}), t, Outside))
  {
    var s' := Move(s.(msgs := s.msgs - {c}), t, Outside);
    assert PlaceMatches(s, t);
    forall d | d in s'.msgs ensures SenderPlaced(s', d) { assert SenderPlaced(s, d); }
    forall u | u in s'.at ensures PlaceMatches(s', u) { assert PlaceMatches(s, u); }
  }

  // ---------------------------------------------------------------------------------------
  // Each step keeps the receiver lists sound
  // ---------------------------------------------------------------------------------------

  /** Moving a task that is on no receiver list leaves every list sound. */
  lemma MoveKeepsReceivers(s: State, t: TaskId, p: Place)
    requires ReceiverInv(s) && t in s.at && !s.at[t].RecvBlocked?
    requires p.SawEmpty? ==> LockFree(s, p.chan)
    ensures ReceiverInv(Move(s, t, p))
  {
    var s' := Move(s, t, p);
    forall ch | ch in s'.chans ensures ReceiversSound(s'.at, ch, s'.chans[ch].receivers) {
      assert ReceiversSound(s.at, ch, s.chans[ch].receivers);
    }
  }

  lemma NotifyReceivers(s: State, ch: ChanId)
    requires ReceiverInv(s) && ch in s.chans
    ensures ReceiverInv(Notify(s, ch))
  {
    var s' := Notify(s, ch);
    assert ReceiversSound(s.at, ch, s.chans[ch].receivers);
    forall x | x in s'.chans ensures ReceiversSound(s'.at, x, s'.chans[x].receivers) {
      assert ReceiversSound(s.at, x, s.chans[x].receivers);
    }
  }

  lemma RegisterReceivers(s: State, t: TaskId, ch: ChanId)
    requires ReceiverInv(s) && TaskAt(s, t, SawEmpty(ch)) && ch in s.chans
    ensures ReceiverInv(Register(s, t, ch))
  {
    var s' := Register(s, t, ch);
    forall x | x in s'.chans ensures ReceiversSound(s'.at, x, s'.chans[x].receivers) {
      assert ReceiversSound(s.at, x, s.chans[x].receivers);
    }
  }

  /** Steps that change only queues and messages do not concern receivers. */
  lemma SameReceivers(s: State, s': State)
    requires ReceiverInv(s) && s'.at == s.at && s'.chans.Keys == s.chans.Keys
    requires forall ch :: ch in s.chans ==> s'.chans[ch].receivers == s.chans[ch].receivers
    ensures ReceiverInv(s')
  {
    forall ch | ch in s'.chans ensures ReceiversSound(s'.at, ch, s'.chans[ch].receivers) {
      assert ReceiversSound(s.at, ch, s.chans[ch].receivers);
    }
  }

  // ---------------------------------------------------------------------------------------
  // No lost wake-up
  // ---------------------------------------------------------------------------------------

  /** 1 when a task at this place stands for a wake-up under way on `ch`. */
  function Carries(p: Place, ch: ChanId): nat {
    if WakesOn(p, ch) || Notifies(p, ch) then 1 else 0
  }

  lemma MoveSignals(s: State, t: TaskId, p: Place, ch: ChanId)
    requires t in s.at
    ensures Signals(Move(s, t, p), ch) == Signals(s, ch) - Carries(s.at[t], ch) + Carries(p, ch)
  {
    MoveWoken(s, t, p, ch);
    MoveNotifying(s, t, p, ch);
  }

  lemma MoveWoken(s: State, t: TaskId, p: Place, ch: ChanId)
    requires t in s.at
    ensures |WokenOn(Move(s, t, p), ch)|
      == |WokenOn(s, ch)| - (if WakesOn(s.at[t], ch) then 1 else 0) + (if WakesOn(p, ch) then 1 else 0)
  {
    var a, b := WokenOn(s, ch), WokenOn(Move(s, t, p), ch);
    forall u | u != t ensures u in a <==> u in b {}
    DifferInOne(a, b, t);
  }

  lemma MoveNotifying(s: State, t: TaskId, p: Place, ch: ChanId)
    requires t in s.at
    ensures |NotifyingOn(Move(s, t, p), ch)|
      == |NotifyingOn(s, ch)| - (if Notifies(s.at[t], ch) then 1 else 0) + (if Notifies(p, ch) then 1 else 0)
  {
    var a, b := NotifyingOn(s, ch), NotifyingOn(Move(s, t, p), ch);
    forall u | u != t ensures u in a <==> u in b {}
    DifferInOne(a, b, t);
  }

  lemma DifferInOne(a: set<TaskId>, b: set<TaskId>, t: TaskId)
    requires forall u :: u != t ==> (u in a <==> u in b)
    ensures |b| == |a| - (if t in a then 1 else 0) + (if t in b then 1 else 0)
  {
    assert a - {t} == b - {t};
    assert a == if t in a then a - {t} + {t} else a - {t};
    assert b == if t in b then b - {t} + {t} else b - {t};
  }

  lemma MoveLock(s: State, t: TaskId, p: Place, ch: ChanId)
    requires t in s.at && s.at[t] != SawEmpty(ch)
    ensures LockFree(Move(s, t, p), ch) <==> LockFree(s, ch) && p != SawEmpty(ch)
  {
    var s' := Move(s, t, p);
    if LockFree(s', ch) {
      assert s'.at[t] == p;
      forall u | u in s.at ensures s.at[u] != SawEmpty(ch) { assert u != t ==> s'.at[u] == s.at[u]; }
    }
  }

  /** Only the places matter for who waits and who signals. */
  lemma SamePlaces(s: State, s': State, ch: ChanId)
    requires s'.at == s.at
    ensures Signals(s', ch) == Signals(s, ch) && LockFree(s', ch) == LockFree(s, ch)
  {
    assert WokenOn(s', ch) == WokenOn(s, ch) && NotifyingOn(s', ch) == NotifyingOn(s, ch);
  }

  lemma EnqueueWake(s: State, t: TaskId, ch: ChanId, c: Cookie, tag: u64, size: u64, x: ChanId)
    requires TaskAt(s, t, Outside) && ch in s.chans && ch in s.sent && x in s.chans && WakeSound(s, x)
    ensures WakeSound(Enqueue(s, t, ch, c, tag, size), x)
  {
    var m := Move(s, t, Enqueued(ch, c));
    MoveSignals(s, t, Enqueued(ch, c), x);
    MoveLock(s, t, Enqueued(ch, c), x);
    SamePlaces(m, Enqueue(s, t, ch, c, tag, size), x);
  }

  /** The sender's own signal passes to the receiver it wakes, or nobody is waiting. */
  lemma NotifyWake(s: State, t: TaskId, ch: ChanId, c: Cookie, p: Place, x: ChanId)
    requires (p.AwaitReply? || p.Answered?) && TaskAt(s, t, Enqueued(ch, c)) && ch in s.chans && LockFree(s, ch)
    requires x in s.chans && WakeSound(s, x) && ReceiversSound(s.at, ch, s.chans[ch].receivers)
    ensures WakeSound(Move(Notify(s, ch), t, p), x)
  {
    var n := Notify(s, ch);
    var r := s.chans[ch].receivers;
    if r != [] {
      var m := Move(s, r[0], Woken(ch));
      MoveSignals(s, r[0], Woken(ch), x);
      MoveLock(s, r[0], Woken(ch), x);
      SamePlaces(m, n, x);
    }
    MoveSignals(n, t, p, x);
    MoveLock(n, t, p, x);
  }

  lemma TakeWake(s: State, ch: ChanId, kept: bool, x: ChanId)
    requires ch in s.chans && ch in s.taken && s.chans[ch].queue != [] && s.chans[ch].queue[0] in s.msgs
    requires x in s.chans && WakeSound(s, x)
    ensures WakeSound(Take(s, ch, kept), x)
  {
    SamePlaces(s, Take(s, ch, kept), x);
  }

  lemma SeeEmptyWake(s: State, t: TaskId, ch: ChanId, x: ChanId)
    requires TaskAt(s, t, Outside) && ch in s.chans && s.chans[ch].queue == [] && x in s.chans && WakeSound(s, x)
    ensures WakeSound(Move(s, t, SawEmpty(ch)), x)
  {
    MoveSignals(s, t, SawEmpty(ch), x);
    MoveLock(s, t, SawEmpty(ch), x);
  }

  lemma RegisterWake(s: State, t: TaskId, ch: ChanId, x: ChanId)
    requires TaskAt(s, t, SawEmpty(ch)) && ch in s.chans && x in s.chans && WakeSound(s, x)
    ensures WakeSound(Register(s, t, ch), x)
  {
    var m := Move(s, t, RecvBlocked(ch));
    MoveSignals(s, t, RecvBlocked(ch), x);
    if x != ch { MoveLock(s, t, RecvBlocked(ch), x); }
    SamePlaces(m, Register(s, t, ch), x);
  }

  /** A resumed receiver uses up one signal together with one message, or found the queue empty. */
  lemma ResumeWake(s: State, t: TaskId, ch: ChanId, kept: bool, x: ChanId)
    requires TaskAt(s, t, Woken(ch)) && ch in s.chans && ch in s.taken
    requires s.chans[ch].queue != [] ==> s.chans[ch].queue[0] in s.msgs
    requires x in s.chans && WakeSound(s, x)
    ensures WakeSound(Move(if s.chans[ch].queue == [] then s else Take(s, ch, kept), t, Outside), x)
  {
    var m := if s.chans[ch].queue == [] then s else Take(s, ch, kept);
    SamePlaces(s, m, x);
    MoveSignals(m, t, Outside, x);
    MoveLock(m, t, Outside, x);
  }

  /** Moving a sender that is past its notification changes no account. */
  lemma QuietWake(s: State, s': State, t: TaskId, p: Place, x: ChanId)
    requires t in s.at && (s.at[t].AwaitReply? || s.at[t].Answered?) && (p.Answered? || p.Outside?)
    requires s'.at == Move(s, t, p).at && s'.chans == s.chans && x in s.chans && WakeSound(s, x)
    ensures WakeSound(s', x)
  {
    MoveSignals(s, t, p, x);
    MoveLock(s, t, p, x);
    SamePlaces(Move(s, t, p), s', x);
  }

  lemma AnswerWake(s: State, c: Cookie, v: u64, x: ChanId)
    requires IsInFlight(s, c) && x in s.chans && WakeSound(s, x)
    ensures WakeSound(Answer(s, c, v), x)
  {
    if TaskAt(s, s.msgs[c].sender, AwaitReply(c)) {
      QuietWake(s, Answer(s, c, v), s.msgs[c].sender, Answered(c), x);
    } else {
      SamePlaces(s, Answer(s, c, v), x);
    }
  }

  // ---------------------------------------------------------------------------------------
  // Every step, every run
  // ---------------------------------------------------------------------------------------

  lemma QueueHead(s: State, ch: ChanId)
    requires QueueInv(s) && ch in s.chans && s.chans[ch].queue != []
    ensures s.chans[ch].queue[0] in s.msgs && s.msgs[s.chans[ch].queue[0]].stage == Queued
  {
    assert QueueSound(s.msgs, ch, s.chans[ch].queue, s.sent[ch], s.taken[ch]);
  }

  lemma MoveQueue(s: State, t: TaskId, p: Place)
    requires QueueInv(s)
    ensures QueueInv(Move(s, t, p))
  {
    var s' := Move(s, t, p);
    forall c | c in s'.msgs ensures MessageSound(s', c) { assert MessageSound(s, c); }
  }

  lemma StepQueue(s: State, e: Event)
    requires Typed(s) && QueueInv(s) && Enabled(s, e)
    ensures QueueInv(Next(s, e))
  {
    match e
    case SendEnqueue(t, ch, c, tag, size) => EnqueueQueue(s, t, ch, c, tag, size);
    case RecvTake(t, ch, kept) => TakeQueue(s, ch, kept);
    case RecvSeeEmpty(t, ch) => MoveQueue(s, t, SawEmpty(ch));
    case Reply(t, c, v) => if IsInFlight(s, c) { AnswerQueue(s, c, v); }
    case _ =>
      assert PlaceTyped(s, s.at[e.task]);
      StepQueueInside(s, e);
  }

  /** The steps of a task already inside a send or receive. */
  lemma StepQueueInside(s: State, e: Event)
    requires Typed(s) && QueueInv(s) && Enabled(s, e) && PlaceTyped(s, s.at[e.task])
    requires e.SendNotify? || e.SendReturn? || e.RecvRegister? || e.RecvResume?
    ensures QueueInv(Next(s, e))
  {
    var t, p := e.task, s.at[e.task];
    match e
    case SendNotify(_) => NotifyQueue(s, p.chan); MoveQueue(Notify(s, p.chan), t, Blocks(s, p.cookie));
    case SendReturn(_) => ForgetQueue(s, p.cookie); MoveQueue(s.(msgs := s.msgs - {p.cookie}), t, Outside);
    case RecvRegister(_) => RegisterQueue(s, t, p.chan);
    case RecvResume(_, kept) =>
      if s.chans[p.chan].queue != [] { TakeQueue(s, p.chan, kept); MoveQueue(Take(s, p.chan, kept), t, Outside); }
      else { MoveQueue(s, t, Outside); }
  }

  lemma StepSender(s: State, e: Event)
    requires Typed(s) && QueueInv(s) && SenderInv(s) && ReceiverInv(s) && Enabled(s, e)
    ensures SenderInv(Next(s, e))
  {
    match e
    case SendEnqueue(t, ch, c, tag, size) =>
      assert c in s.msgs ==> MessageSound(s, c);
      EnqueueSender(s, t, ch, c, tag, size);
    case SendNotify(t) =>
      assert PlaceTyped(s, s.at[t]);
      NotifySender(s, s.at[t].chan);
      NotifyKeepsPlace(s, s.at[t].chan, t);
      BlockSender(Notify(s, s.at[t].chan), t, s.at[t].chan, s.at[t].cookie);
    case SendReturn(t) => ReturnSender(s, t, s.at[t].cookie);
    case RecvTake(t, ch, kept) => QueueHead(s, ch); TakeSender(s, ch, kept);
    case RecvSeeEmpty(t, ch) => MoveReceiver(s, t, SawEmpty(ch));
    case RecvRegister(t) => assert PlaceTyped(s, s.at[t]); RegisterSender(s, t, s.at[t].chan);
    case RecvResume(t, kept) =>
      assert PlaceTyped(s, s.at[t]);
      var ch := s.at[t].chan;
      if s.chans[ch].queue == [] {
        MoveReceiver(s, t, Outside);
      } else {
        QueueHead(s, ch);
        TakeSender(s, ch, kept);
        MoveReceiver(Take(s, ch, kept), t, Outside);
      }
    case Reply(t, c, v) => if IsInFlight(s, c) { AnswerSender(s, c, v); }
  }

  lemma NotifyKeepsPlace(s: State, ch: ChanId, t: TaskId)
    requires ReceiverInv(s) && ch in s.chans && t in s.at && !s.at[t].RecvBlocked?
    ensures TaskAt(Notify(s, ch), t, s.at[t])
  {
    assert ReceiversSound(s.at, ch, s.chans[ch].receivers);
  }

  /** A step that moves one task and rewrites no receiver list. */
  lemma MoveOnly(s: State, s': State, t: TaskId, p: Place)
    requires ReceiverInv(s) && t in s.at && !s.at[t].RecvBlocked? && (p.SawEmpty? ==> LockFree(s, p.chan))
    requires s'.at == s.at[t := p] && s'.chans.Keys == s.chans.Keys
    requires forall ch :: ch in s.chans ==> s'.chans[ch].receivers == s.chans[ch].receivers
    ensures ReceiverInv(s')
  {
    MoveKeepsReceivers(s, t, p);
    SameReceivers(Move(s, t, p), s');
  }

  lemma AnswerReceivers(s: State, c: Cookie, v: u64)
    requires ReceiverInv(s) && IsInFlight(s, c)
    ensures ReceiverInv(Answer(s, c, v))
  {
    if TaskAt(s, s.msgs[c].sender, AwaitReply(c)) {
      MoveOnly(s, Answer(s, c, v), s.msgs[c].sender, Answered(c));
    } else {
      SameReceivers(s, Answer(s, c, v));
    }
  }

  lemma StepReceiver(s: State, e: Event)
    requires Typed(s) && ReceiverInv(s) && Enabled(s, e)
    ensures ReceiverInv(Next(s, e))
  {
    match e
    case SendEnqueue(t, ch, c, tag, size) => MoveOnly(s, Next(s, e), t, Enqueued(ch, c));
    case SendNotify(t) =>
      assert PlaceTyped(s, s.at[t]);
      var ch := s.at[t].chan;
      NotifyReceivers(s, ch);
      NotifyKeepsPlace(s, ch, t);
      MoveKeepsReceivers(Notify(s, ch), t, Blocks(s, s.at[t].cookie));
    case SendReturn(t) => MoveOnly(s, Next(s, e), t, Outside);
    case RecvTake(t, ch, kept) => SameReceivers(s, Next(s, e));
    case RecvSeeEmpty(t, ch) => MoveKeepsReceivers(s, t, SawEmpty(ch));
    case RecvRegister(t) => assert PlaceTyped(s, s.at[t]); RegisterReceivers(s, t, s.at[t].chan);
    case RecvResume(t, kept) => MoveOnly(s, Next(s, e), t, Outside);
    case Reply(t, c, v) => if IsInFlight(s, c) { AnswerReceivers(s, c, v); }
  }

  lemma StepWake(s: State, e: Event, x: ChanId)
    requires Typed(s) && ReceiverInv(s) && Enabled(s, e) && x in s.chans && WakeSound(s, x)
    ensures x in Next(s, e).chans && WakeSound(Next(s, e), x)
  {
    match e
    case SendEnqueue(t, ch, c, tag, size) => EnqueueWake(s, t, ch, c, tag, size, x);
    case SendNotify(t) =>
      assert PlaceTyped(s, s.at[t]);
      assert ReceiversSound(s.at, s.at[t].chan, s.chans[s.at[t].chan].receivers);
      NotifyWake(s, t, s.at[t].chan, s.at[t].cookie, Blocks(s, s.at[t].cookie), x);
    case SendReturn(t) => QuietWake(s, Next(s, e), t, Outside, x);
    case RecvTake(t, ch, kept) => TakeWake(s, ch, kept, x);
    case RecvSeeEmpty(t, ch) => SeeEmptyWake(s, t, ch, x);
    case RecvRegister(t) => assert PlaceTyped(s, s.at[t]); RegisterWake(s, t, s.at[t].chan, x);
    case RecvResume(t, kept) => assert PlaceTyped(s, s.at[t]); ResumeWake(s, t, s.at[t].chan, kept, x);
    case Reply(t, c, v) => if IsInFlight(s, c) { AnswerWake(s, c, v, x); }
  }

  /** Every enabled step keeps the whole invariant. */
  lemma StepKeepsInv(s: State, e: Event)
    requires Inv(s) && Enabled(s, e)
    ensures Typed(s) && Inv(Next(s, e))
  {
    InvTyped(s);
    StepQueue(s, e);
    StepSender(s, e);
    StepReceiver(s, e);
    SameChannels(s, e);
    forall x | x in Next(s, e).chans ensures WakeSound(Next(s, e), x) { StepWake(s, e, x); }
  }

  lemma SameChannels(s: State, e: Event)
    requires Typed(s) && Enabled(s, e)
    ensures Next(s, e).chans.Keys == s.chans.Keys
  {
    if e.SendNotify? || e.RecvRegister? || e.RecvResume? { assert PlaceTyped(s, s.at[e.task]); }
  }
}
