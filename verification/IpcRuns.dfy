/**
 Whole runs of the message-passing step system: what holds in every reachable state and along
 every sequence of steps, for any interleaving of any number of tasks and channels.
 */
module IpcRuns {
  import opened Machine
  import opened IpcChannels

  ghost predicate Init(s: State) {
    && s.chans.Keys == s.sent.Keys == s.taken.Keys
    && (forall ch :: ch in s.chans ==> s.chans[ch] == Channel([], []) && s.sent[ch] == [] && s.taken[ch] == [])
    && s.msgs == map[] && s.used == {}
    && (forall t :: t in s.at ==> s.at[t] == Outside)
  }

  lemma InitInv(s: State)
    requires Init(s)
    ensures Inv(s)
  {
    forall ch | ch in s.chans ensures WakeSound(s, ch) {}
  }

  /** `ss` are the states passed through by the steps `es`, from an initial state. */
  ghost predicate Behaviour(ss: seq<State>, es: seq<Event>) {
    && |ss| == |es| + 1 && Init(ss[0])
    && forall i :: 0 <= i < |es| ==> StepAt(ss, es, i)
  }

  /** Step `es[i]` is possible in `ss[i]` and leads to `ss[i + 1]`. */
  ghost predicate StepAt(ss: seq<State>, es: seq<Event>, i: nat) {
    i < |es| && i + 1 < |ss| && Typed(ss[i]) && Enabled(ss[i], es[i]) && ss[i + 1] == Next(ss[i], es[i])
  }

  /** The invariant holds in every reachable state. */
  lemma {:induction false} ReachableInv(ss: seq<State>, es: seq<Event>, i: nat)
    requires Behaviour(ss, es) && i < |ss|
    ensures Inv(ss[i])
  {
    if i == 0 {
      InitInv(ss[0]);
    } else {
      ReachableInv(ss, es, i - 1);
      assert StepAt(ss, es, i - 1);
      StepKeepsInv(ss[i - 1], es[i - 1]);
    }
  }

  /**
   No lost wake-up: in every reachable state, while a receiver is blocked on a channel or about to
   block, the queued messages are covered by woken receivers and notifying senders. So once those
   have finished, a blocked receiver means an empty queue.
   */
  lemma NoLostWakeup(ss: seq<State>, es: seq<Event>, i: nat, ch: ChanId)
    requires Behaviour(ss, es) && i < |ss| && ch in ss[i].chans && ReceiverPending(ss[i], ch)
    ensures |ss[i].chans[ch].queue| <= |WokenOn(ss[i], ch)| + |NotifyingOn(ss[i], ch)|
    ensures WokenOn(ss[i], ch) == {} && NotifyingOn(ss[i], ch) == {} ==> ss[i].chans[ch].queue == []
  {
    ReachableInv(ss, es, i);
    assert WakeSound(ss[i], ch);
  }

  // ---------------------------------------------------------------------------------------
  // First in, first out
  // ---------------------------------------------------------------------------------------

  /** The cookies sent to `ch` in the first `n` steps, in order. */
  function SentBy(es: seq<Event>, n: nat, ch: ChanId): seq<Cookie>
    requires n <= |es|
  {
    if n == 0 then []
    else SentBy(es, n - 1, ch) + if es[n - 1].SendEnqueue? && es[n - 1].chan == ch then [es[n - 1].cookie] else []
  }

  /** The step hands a message of channel `ch` to a receiver. */
  ghost predicate Delivers(s: State, e: Event, ch: ChanId)
    requires Typed(s) && Enabled(s, e)
  {
    && Out(s, e).Received?
    && (e.RecvTake? ==> e.chan == ch)
    && (e.RecvResume? ==> s.at[e.task].chan == ch)
  }

  /** The cookies handed to receivers of `ch` in the first `n` steps, in order. */
  ghost function TakenBy(ss: seq<State>, es: seq<Event>, n: nat, ch: ChanId): seq<Cookie>
    requires Behaviour(ss, es) && n <= |es|
  {
    if n == 0 then []
    else
      assert StepAt(ss, es, n - 1);
      TakenBy(ss, es, n - 1, ch) +
      if Delivers(ss[n - 1], es[n - 1], ch) then [Out(ss[n - 1], es[n - 1]).cookie] else []
  }

  lemma StepHistory(s: State, e: Event, ch: ChanId)
    requires Typed(s) && Enabled(s, e) && ch in s.chans
    ensures ch in Next(s, e).chans && ch in Next(s, e).sent && ch in Next(s, e).taken
    ensures Next(s, e).sent[ch] == s.sent[ch] + if e.SendEnqueue? && e.chan == ch then [e.cookie] else []
    ensures Next(s, e).taken[ch] == s.taken[ch] + if Delivers(s, e, ch) then [Out(s, e).cookie] else []
  {
    if e.SendNotify? || e.RecvRegister? || e.RecvResume? { assert PlaceTyped(s, s.at[e.task]); }
  }

  lemma HistoryAt(ss: seq<State>, es: seq<Event>, i: nat, ch: ChanId)
    requires StepAt(ss, es, i) && ch in ss[i].chans
    ensures ch in ss[i].sent && ch in ss[i].taken
    ensures ch in ss[i + 1].chans && ch in ss[i + 1].sent && ch in ss[i + 1].taken
    ensures ss[i + 1].sent[ch] == ss[i].sent[ch] + if es[i].SendEnqueue? && es[i].chan == ch then [es[i].cookie] else []
    ensures ss[i + 1].taken[ch] ==
      ss[i].taken[ch] + if Delivers(ss[i], es[i], ch) then [Out(ss[i], es[i]).cookie] else []
  {
    StepHistory(ss[i], es[i], ch);
  }

  lemma {:induction false} HistoryIsTrace(ss: seq<State>, es: seq<Event>, n: nat, ch: ChanId)
    requires Behaviour(ss, es) && n <= |es| && ch in ss[0].chans
    ensures ch in ss[n].chans && ch in ss[n].sent && ch in ss[n].taken
    ensures ss[n].sent[ch] == SentBy(es, n, ch) && ss[n].taken[ch] == TakenBy(ss, es, n, ch)
  {
    if n > 0 {
      HistoryIsTrace(ss, es, n - 1, ch);
      HistoryAt(ss, es, n - 1, ch);
    }
  }

  /** Messages are received in the order they were sent: what was sent is what was received plus the queue. */
  lemma Fifo(ss: seq<State>, es: seq<Event>, n: nat, ch: ChanId)
    requires Behaviour(ss, es) && n <= |es| && ch in ss[0].chans
    ensures ch in ss[n].chans
    ensures SentBy(es, n, ch) == TakenBy(ss, es, n, ch) + ss[n].chans[ch].queue
  {
    HistoryIsTrace(ss, es, n, ch);
    ReachableInv(ss, es, n);
    var s := ss[n];
    assert QueueSound(s.msgs, ch, s.chans[ch].queue, s.sent[ch], s.taken[ch]);
  }

  // ---------------------------------------------------------------------------------------
  // The life of a message
  // ---------------------------------------------------------------------------------------

  /** 0 not yet sent, 1 queued, 2 delivered, 3 replied, 4 returned to its sender. */
  function Rank(s: State, c: Cookie): nat {
    if c !in s.used then 0
    else if c !in s.msgs then 4
    else match s.msgs[c].stage
         case Queued => 1
         case InFlight => 2
         case Untracked => 2
         case Replied(_) => 3
  }

  /** The one step that moves message `c` on from its present rank. */
  ghost predicate Advances(s: State, e: Event, c: Cookie)
    requires Typed(s) && Enabled(s, e)
  {
    match Rank(s, c)
    case 0 => e.SendEnqueue? && e.cookie == c
    case 1 => Out(s, e).Received? && Out(s, e).cookie == c
    case 2 => e.Reply? && e.cookie == c && IsInFlight(s, c)
    case 3 => e.SendReturn? && s.at[e.task].cookie == c
    case _ => false
  }

  lemma TakeRank(s: State, ch: ChanId, kept: bool, c: Cookie)
    requires QueueInv(s) && ch in s.chans && s.chans[ch].queue != []
    ensures s.chans[ch].queue[0] in s.msgs
    ensures Rank(s, s.chans[ch].queue[0]) == 1
    ensures Rank(Take(s, ch, kept), c) == Rank(s, c) + if c == s.chans[ch].queue[0] then 1 else 0
  {
    QueueHead(s, ch);
    assert MessageSound(s, s.chans[ch].queue[0]);
  }

  lemma RankIgnoresPlaces(s: State, s': State, c: Cookie)
    requires s'.used == s.used && s'.msgs == s.msgs
    ensures Rank(s', c) == Rank(s, c)
  {
  }

  /** Every step moves a message on by one rank or leaves it alone; ranks never go back. */
  lemma StepRank(s: State, e: Event, c: Cookie)
    requires QueueInv(s) && Typed(s) && Enabled(s, e)
    ensures Rank(Next(s, e), c) == Rank(s, c) + if Advances(s, e, c) then 1 else 0
  {
    forall d | d in s.msgs ensures d in s.used { assert MessageSound(s, d); }
    if e.RecvTake? || e.RecvResume? {
      StepRankOfReceive(s, e, c);
    } else {
      StepRankOfSend(s, e, c);
    }
  }

  lemma StepRankOfSend(s: State, e: Event, c: Cookie)
    requires Typed(s) && Enabled(s, e) && !e.RecvTake? && !e.RecvResume?
    requires forall d :: d in s.msgs ==> d in s.used
    ensures Rank(Next(s, e), c) == Rank(s, c) + if Advances(s, e, c) then 1 else 0
  {
    match e
    case SendEnqueue(_, _, _, _, _) =>
    case Reply(_, _, _) =>
    case SendReturn(t) => assert PlaceTyped(s, s.at[t]);
    case SendNotify(t) => assert PlaceTyped(s, s.at[t]); RankIgnoresPlaces(s, Next(s, e), c);
    case RecvRegister(t) => assert PlaceTyped(s, s.at[t]); RankIgnoresPlaces(s, Next(s, e), c);
    case RecvSeeEmpty(_, _) => RankIgnoresPlaces(s, Next(s, e), c);
  }

  lemma StepRankOfReceive(s: State, e: Event, c: Cookie)
    requires QueueInv(s) && Typed(s) && Enabled(s, e) && (e.RecvTake? || e.RecvResume?)
    ensures Rank(Next(s, e), c) == Rank(s, c) + if Advances(s, e, c) then 1 else 0
  {
    if e.RecvResume? { assert PlaceTyped(s, s.at[e.task]); }
    var ch := if e.RecvTake? then e.chan else s.at[e.task].chan;
    if s.chans[ch].queue != [] {
      TakeRank(s, ch, e.kept, c);
      RankIgnoresPlaces(Take(s, ch, e.kept), Next(s, e), c);
    } else {
      RankIgnoresPlaces(s, Next(s, e), c);
    }
  }

  /** In a run, step `i` moves message `c` on by one rank exactly when it is the step that may. */
  lemma RankAt(ss: seq<State>, es: seq<Event>, i: nat, c: Cookie)
    requires Behaviour(ss, es) && i < |es|
    ensures StepAt(ss, es, i)
    ensures Rank(ss[i + 1], c) == Rank(ss[i], c) + if Advances(ss[i], es[i], c) then 1 else 0
  {
    ReachableInv(ss, es, i);
    assert StepAt(ss, es, i);
    StepRank(ss[i], es[i], c);
  }

  lemma {:induction false} RankMonotone(ss: seq<State>, es: seq<Event>, i: nat, j: nat, c: Cookie)
    requires Behaviour(ss, es) && i <= j < |ss|
    ensures Rank(ss[i], c) <= Rank(ss[j], c)
    decreases j - i
  {
    if i < j {
      RankAt(ss, es, j - 1, c);
      RankMonotone(ss, es, i, j - 1, c);
    }
  }

  lemma ReceivedIsQueued(s: State, e: Event)
    requires QueueInv(s) && Typed(s) && Enabled(s, e)
    ensures Out(s, e).Received? ==> Rank(s, Out(s, e).cookie) == 1
  {
    if e.RecvTake? {
      TakeRank(s, e.chan, e.kept, 0);
    } else if e.RecvResume? {
      assert PlaceTyped(s, s.at[e.task]);
      if s.chans[s.at[e.task].chan].queue != [] { TakeRank(s, s.at[e.task].chan, e.kept, 0); }
    }
  }

  lemma ReceivedAt(ss: seq<State>, es: seq<Event>, i: nat, c: Cookie)
    requires Behaviour(ss, es) && i < |es|
    ensures StepAt(ss, es, i)
    ensures Out(ss[i], es[i]).Received? && Out(ss[i], es[i]).cookie == c ==>
      Rank(ss[i], c) == 1 && Rank(ss[i + 1], c) == 2
  {
    ReachableInv(ss, es, i);
    RankAt(ss, es, i, c);
    ReceivedIsQueued(ss[i], es[i]);
  }

  /** No message is received twice in any run. */
  lemma ReceivedOnce(ss: seq<State>, es: seq<Event>, i: nat, j: nat)
    requires Behaviour(ss, es) && i < j < |es|
    ensures StepAt(ss, es, i) && StepAt(ss, es, j)
    ensures Out(ss[i], es[i]).Received? && Out(ss[j], es[j]).Received?
      ==> Out(ss[i], es[i]).cookie != Out(ss[j], es[j]).cookie
  {
    assert StepAt(ss, es, i) && StepAt(ss, es, j);
    if Out(ss[i], es[i]).Received? {
      var c := Out(ss[i], es[i]).cookie;
      ReceivedAt(ss, es, i, c);
      ReceivedAt(ss, es, j, c);
      RankMonotone(ss, es, i + 1, j, c);
    }
  }

  ghost predicate AcceptedReply(s: State, e: Event, c: Cookie) {
    e.Reply? && e.cookie == c && IsInFlight(s, c)
  }

  lemma InFlightIsRank2(s: State, c: Cookie)
    requires QueueInv(s)
    ensures IsInFlight(s, c) ==> Rank(s, c) == 2
  {
    assert c in s.msgs ==> MessageSound(s, c);
  }

  lemma AcceptedRank(ss: seq<State>, es: seq<Event>, i: nat, c: Cookie)
    requires Behaviour(ss, es) && i < |es| && es[i].Reply? && es[i].cookie == c
    ensures AcceptedReply(ss[i], es[i], c) ==> Rank(ss[i + 1], c) == 3
    ensures Rank(ss[i], c) != 2 ==> StepAt(ss, es, i) && ss[i + 1] == ss[i] && Out(ss[i], es[i]) == Result(0)
  {
    ReachableInv(ss, es, i);
    InFlightIsRank2(ss[i], c);
    RankAt(ss, es, i, c);
  }

  /** After an accepted reply, every later reply to the same cookie returns 0 and changes nothing. */
  lemma SecondReply(ss: seq<State>, es: seq<Event>, i: nat, j: nat, c: Cookie)
    requires Behaviour(ss, es) && i < j < |es|
    requires AcceptedReply(ss[i], es[i], c) && es[j].Reply? && es[j].cookie == c
    ensures StepAt(ss, es, j) && ss[j + 1] == ss[j] && Out(ss[j], es[j]) == Result(0)
  {
    AcceptedRank(ss, es, i, c);
    RankMonotone(ss, es, i + 1, j, c);
    AcceptedRank(ss, es, j, c);
  }

  /** A reply answers its cookie if it is accepted, and 0 if not. */
  lemma ReplyAnswers(ss: seq<State>, es: seq<Event>, j: nat, c: Cookie)
    requires Behaviour(ss, es) && j < |es| && IsReplyTo(es[j], c)
    ensures StepAt(ss, es, j) && Out(ss[j], es[j]) == Result(if AcceptedReply(ss[j], es[j], c) then c else 0)
    ensures c != 0 ==> (AcceptedReply(ss[j], es[j], c) <==> Out(ss[j], es[j]) == Result(c))
  {
    assert StepAt(ss, es, j);
  }

  /** A sender that has blocked stays blocked until its own message is replied to. */
  lemma BlockedUntilReply(ss: seq<State>, es: seq<Event>, i: nat, t: TaskId, c: Cookie)
    requires Behaviour(ss, es) && i < |es| && TaskAt(ss[i], t, AwaitReply(c))
    ensures TaskAt(ss[i + 1], t, AwaitReply(c)) || (AcceptedReply(ss[i], es[i], c) && TaskAt(ss[i + 1], t, Answered(c)))
  {
    ReachableInv(ss, es, i);
    assert StepAt(ss, es, i);
    assert PlaceMatches(ss[i], t);
    StepAwait(ss[i], es[i], t, c);
  }

  lemma StepAwait(s: State, e: Event, t: TaskId, c: Cookie)
    requires ReceiverInv(s) && Typed(s) && Enabled(s, e) && TaskAt(s, t, AwaitReply(c))
    requires c in s.msgs && s.msgs[c].sender == t
    ensures TaskAt(Next(s, e), t, AwaitReply(c)) || (AcceptedReply(s, e, c) && TaskAt(Next(s, e), t, Answered(c)))
  {
    match e
    case SendNotify(u) =>
      assert PlaceTyped(s, s.at[u]);
      NotifyKeepsPlace(s, s.at[u].chan, t);
    case RecvRegister(u) => assert PlaceTyped(s, s.at[u]);
    case RecvResume(u, _) => assert PlaceTyped(s, s.at[u]);
    case _ =>
  }

  /** A message in the table after a step is new, or the same as before except for its stage. */
  lemma SameMessage(s: State, e: Event, c: Cookie)
    requires Typed(s) && Enabled(s, e) && c in Next(s, e).msgs
    requires forall d :: d in s.msgs ==> d in s.used
    ensures c in s.msgs ==> Next(s, e).msgs[c] == s.msgs[c].(stage := Next(s, e).msgs[c].stage)
    ensures c in s.msgs && Next(s, e).msgs[c].stage.Replied? && Next(s, e).msgs[c].stage != s.msgs[c].stage
      ==> AcceptedReply(s, e, c) && Next(s, e).msgs[c].stage == Replied(e.value)
    ensures c !in s.msgs ==>
      var m := Next(s, e).msgs[c]; e == SendEnqueue(m.sender, m.chan, c, m.tag, m.size) && m.stage == Queued
  {
    match e
    case SendNotify(u) => assert PlaceTyped(s, s.at[u]);
    case RecvRegister(u) => assert PlaceTyped(s, s.at[u]);
    case RecvResume(u, _) => assert PlaceTyped(s, s.at[u]);
    case _ =>
  }

  /** `SameMessage` at step `i` of a run. */
  lemma MessageAt(ss: seq<State>, es: seq<Event>, i: nat, c: Cookie)
    requires Behaviour(ss, es) && i < |es| && c in ss[i + 1].msgs
    ensures c in ss[i].msgs ==> ss[i + 1].msgs[c] == ss[i].msgs[c].(stage := ss[i + 1].msgs[c].stage)
    ensures c in ss[i].msgs && ss[i + 1].msgs[c].stage.Replied? && ss[i + 1].msgs[c].stage != ss[i].msgs[c].stage
      ==> AcceptedReply(ss[i], es[i], c) && ss[i + 1].msgs[c].stage == Replied(es[i].value)
    ensures c !in ss[i].msgs ==>
      var m := ss[i + 1].msgs[c]; es[i] == SendEnqueue(m.sender, m.chan, c, m.tag, m.size) && m.stage == Queued
  {
    ReachableInv(ss, es, i);
    assert StepAt(ss, es, i);
    forall d | d in ss[i].msgs ensures d in ss[i].used { assert MessageSound(ss[i], d); }
    SameMessage(ss[i], es[i], c);
  }

  /** A sender blocks exactly when its reply has not come yet; one that came first wakes it at once. */
  lemma BlocksUnlessReplied(ss: seq<State>, es: seq<Event>, i: nat, c: Cookie)
    requires Behaviour(ss, es) && i < |es| && es[i].SendNotify?
    requires es[i].task in ss[i].at && ss[i].at[es[i].task].Enqueued? && ss[i].at[es[i].task].cookie == c
    ensures TaskAt(ss[i + 1], es[i].task, AwaitReply(c)) <==> Rank(ss[i], c) < 3
    ensures TaskAt(ss[i + 1], es[i].task, Answered(c)) <==> Rank(ss[i], c) == 3
  {
    ReachableInv(ss, es, i);
    assert StepAt(ss, es, i);
    assert PlaceMatches(ss[i], es[i].task);
    assert MessageSound(ss[i], c);
    NotifierBlocks(ss[i], es[i].task, c);
  }

  lemma NotifierBlocks(s: State, t: TaskId, c: Cookie)
    requires Typed(s) && Enabled(s, SendNotify(t)) && s.at[t].cookie == c && c in s.msgs && c in s.used
    ensures TaskAt(Next(s, SendNotify(t)), t, AwaitReply(c)) <==> Rank(s, c) < 3
    ensures TaskAt(Next(s, SendNotify(t)), t, Answered(c)) <==> Rank(s, c) == 3
  {
    assert PlaceTyped(s, s.at[t]);
  }

  ghost predicate IsUntracked(s: State, c: Cookie) {
    c in s.msgs && s.msgs[c].stage == Untracked
  }

  /** The sender of `c` is still in its send, with no reply. */
  ghost predicate StillSending(s: State, c: Cookie, t: TaskId) {
    && IsUntracked(s, c) && s.msgs[c].sender == t
    && (TaskAt(s, t, AwaitReply(c)) || TaskAt(s, t, Enqueued(s.msgs[c].chan, c)))
  }

  /**
   A message that was delivered without an entry in the in-flight table is never replied to: its sender
   stays in its send for ever.
   */
  lemma {:induction false} UntrackedForever(ss: seq<State>, es: seq<Event>, i: nat, j: nat, c: Cookie)
    requires Behaviour(ss, es) && i <= j < |ss| && IsUntracked(ss[i], c)
    ensures StillSending(ss[j], c, ss[i].msgs[c].sender)
    decreases j - i
  {
    if i < j {
      UntrackedForever(ss, es, i, j - 1, c);
      UntrackedAt(ss, es, j - 1, c);
    }
    ReachableInv(ss, es, j);
    assert SenderPlaced(ss[j], c);
  }

  /** Every reply to such a message returns 0 and changes nothing. */
  lemma UntrackedReply(ss: seq<State>, es: seq<Event>, i: nat, j: nat, c: Cookie)
    requires Behaviour(ss, es) && i <= j < |es| && IsUntracked(ss[i], c) && es[j].Reply? && es[j].cookie == c
    ensures StepAt(ss, es, j) && ss[j + 1] == ss[j] && Out(ss[j], es[j]) == Result(0)
  {
    UntrackedForever(ss, es, i, j, c);
    assert StepAt(ss, es, j);
  }

  lemma UntrackedAt(ss: seq<State>, es: seq<Event>, i: nat, c: Cookie)
    requires Behaviour(ss, es) && i < |es| && IsUntracked(ss[i], c)
    ensures IsUntracked(ss[i + 1], c) && ss[i + 1].msgs[c].sender == ss[i].msgs[c].sender
  {
    ReachableInv(ss, es, i);
    assert StepAt(ss, es, i);
    DeliveredStays(ss[i], es[i], c);
  }

  ghost predicate IsDelivered(s: State, c: Cookie) {
    IsInFlight(s, c) || IsUntracked(s, c)
  }

  /** A delivered message is left alone by every step but the reply that is accepted for it. */
  lemma DeliveredStays(s: State, e: Event, c: Cookie)
    requires QueueInv(s) && Typed(s) && Enabled(s, e) && IsDelivered(s, c) && !AcceptedReply(s, e, c)
    ensures c in Next(s, e).msgs && Next(s, e).msgs[c] == s.msgs[c]
  {
    assert MessageSound(s, c);
    if e.RecvTake? || e.RecvResume? {
      DeliveredStaysOnReceive(s, e, c);
    } else {
      DeliveredStaysOnSend(s, e, c);
    }
  }

  lemma DeliveredStaysOnReceive(s: State, e: Event, c: Cookie)
    requires QueueInv(s) && Typed(s) && Enabled(s, e) && IsDelivered(s, c) && (e.RecvTake? || e.RecvResume?)
    ensures c in Next(s, e).msgs && Next(s, e).msgs[c] == s.msgs[c]
  {
    if e.RecvResume? { assert PlaceTyped(s, s.at[e.task]); }
    var ch := if e.RecvTake? then e.chan else s.at[e.task].chan;
    if s.chans[ch].queue != [] { QueueHead(s, ch); }
  }

  lemma DeliveredStaysOnSend(s: State, e: Event, c: Cookie)
    requires Typed(s) && Enabled(s, e) && IsDelivered(s, c) && !AcceptedReply(s, e, c) && c in s.used
    requires !e.RecvTake? && !e.RecvResume?
    ensures c in Next(s, e).msgs && Next(s, e).msgs[c] == s.msgs[c]
  {
    match e
    case SendNotify(u) => assert PlaceTyped(s, s.at[u]);
    case SendReturn(u) => assert PlaceTyped(s, s.at[u]);
    case RecvRegister(u) => assert PlaceTyped(s, s.at[u]);
    case _ =>
  }

  /** Step `i` of the run hands message `c` to a receiver. */
  ghost predicate DeliversAt(ss: seq<State>, es: seq<Event>, i: nat, c: Cookie) {
    StepAt(ss, es, i) && Out(ss[i], es[i]).Received? && Out(ss[i], es[i]).cookie == c
  }

  /** A delivery enters the message in the in-flight table exactly when that has memory. */
  lemma DeliveryKeeps(s: State, e: Event, c: Cookie)
    requires Typed(s) && Enabled(s, e) && Out(s, e).Received? && Out(s, e).cookie == c
    ensures IsDelivered(Next(s, e), c) && (IsInFlight(Next(s, e), c) <==> e.kept)
  {
    if e.RecvResume? { assert PlaceTyped(s, s.at[e.task]); }
  }

  /** As long as no reply has been accepted, a delivered message is as its delivery left it. */
  lemma {:induction false} TrackedSince(ss: seq<State>, es: seq<Event>, i: nat, j: nat, c: Cookie)
    requires Behaviour(ss, es) && i < j < |ss| && DeliversAt(ss, es, i, c) && Rank(ss[j], c) == 2
    ensures IsDelivered(ss[j], c) && (IsInFlight(ss[j], c) <==> es[i].kept)
    decreases j
  {
    if j == i + 1 {
      DeliveryKeeps(ss[i], es[i], c);
    } else {
      ReceivedAt(ss, es, i, c);
      RankMonotone(ss, es, i + 1, j - 1, c);
      RankMonotone(ss, es, j - 1, j, c);
      TrackedSince(ss, es, i, j - 1, c);
      ReachableInv(ss, es, j - 1);
      RankAt(ss, es, j - 1, c);
      DeliveredStays(ss[j - 1], es[j - 1], c);
    }
  }

  /** A reply to a delivered message that has no reply yet is accepted exactly when the delivery was recorded. */
  lemma AnswerableExactly(ss: seq<State>, es: seq<Event>, i: nat, j: nat, c: Cookie)
    requires Behaviour(ss, es) && i < j < |es| && DeliversAt(ss, es, i, c)
    requires IsReplyTo(es[j], c) && Rank(ss[j], c) == 2
    ensures AcceptedReply(ss[j], es[j], c) <==> es[i].kept
  {
    TrackedSince(ss, es, i, j, c);
  }

  predicate IsReplyTo(e: Event, c: Cookie) {
    e.Reply? && e.cookie == c
  }

  /** So the first reply after a delivery is accepted exactly when the delivery was recorded. */
  lemma FirstReplyExactly(ss: seq<State>, es: seq<Event>, i: nat, j: nat, c: Cookie)
    requires Behaviour(ss, es) && i < j < |es| && DeliversAt(ss, es, i, c)
    requires IsReplyTo(es[j], c) && forall k :: i < k < j ==> !IsReplyTo(es[k], c)
    ensures AcceptedReply(ss[j], es[j], c) <==> es[i].kept
  {
    RankUntilReply(ss, es, i, j, c);
    AnswerableExactly(ss, es, i, j, c);
  }

  lemma {:induction false} RankUntilReply(ss: seq<State>, es: seq<Event>, i: nat, j: nat, c: Cookie)
    requires Behaviour(ss, es) && i < j < |ss| && DeliversAt(ss, es, i, c)
    requires forall k :: i < k < j ==> !IsReplyTo(es[k], c)
    ensures Rank(ss[j], c) == 2
    decreases j
  {
    if j == i + 1 {
      ReceivedAt(ss, es, i, c);
    } else {
      RankUntilReply(ss, es, i, j - 1, c);
      RankAt(ss, es, j - 1, c);
    }
  }

  /** One channel with two tasks outside of it. */
  function Start(): State {
    State(map[1 := Channel([], [])], map[], map[0 := Outside, 1 := Outside], {}, map[1 := []], map[1 := []])
  }

  /** Task 0 has sent message 7 and stands at `p`. */
  function Sent(p: Place): State {
    State(map[1 := Channel([7], [])], map[7 := Message(1, 0, 0, 0, Queued)], map[0 := p, 1 := Outside], {7},
      map[1 := [7]], map[1 := []])
  }

  lemma FirstSend()
    ensures Init(Start()) && Typed(Start()) && Enabled(Start(), SendEnqueue(0, 1, 7, 0, 0))
    ensures Next(Start(), SendEnqueue(0, 1, 7, 0, 0)) == Sent(Enqueued(1, 7))
  {
    var s, s' := Enqueue(Start(), 0, 1, 7, 0, 0), Sent(Enqueued(1, 7));
    assert Start().chans[1].queue + [7] == [7] && Start().sent[1] + [7] == [7];
    assert s.chans == s'.chans && s.msgs == s'.msgs && s.at == s'.at;
    assert s.used == s'.used && s.sent == s'.sent && s.taken == s'.taken;
  }

  lemma FirstNotify()
    ensures Typed(Sent(Enqueued(1, 7))) && Enabled(Sent(Enqueued(1, 7)), SendNotify(0))
    ensures Next(Sent(Enqueued(1, 7)), SendNotify(0)) == Sent(AwaitReply(7))
  {
  }

  lemma FirstTake(kept: bool)
    ensures Typed(Sent(AwaitReply(7))) && Enabled(Sent(AwaitReply(7)), RecvTake(1, 1, kept))
    ensures IsDelivered(Next(Sent(AwaitReply(7)), RecvTake(1, 1, kept)), 7)
    ensures IsUntracked(Next(Sent(AwaitReply(7)), RecvTake(1, 1, kept)), 7) <==> !kept
  {
  }

  /** A run of three steps that leaves message 7 delivered and untracked. */
  lemma UntrackedReachable() returns (ss: seq<State>, es: seq<Event>)
    ensures Behaviour(ss, es) && |es| == 3 && IsUntracked(ss[3], 7)
  {
    FirstSend();
    FirstNotify();
    FirstTake(false);
    es := [SendEnqueue(0, 1, 7, 0, 0), SendNotify(0), RecvTake(1, 1, false)];
    ss := [Start(), Sent(Enqueued(1, 7)), Sent(AwaitReply(7)), Next(Sent(AwaitReply(7)), es[2])];
    assert StepAt(ss, es, 0) && StepAt(ss, es, 1) && StepAt(ss, es, 2);
  }

  /** Step `i` is the part of a receive on `ch` that takes a message. */
  ghost predicate ReceivesAt(ss: seq<State>, es: seq<Event>, i: nat, ch: ChanId) {
    && StepAt(ss, es, i)
    && match es[i]
       case RecvTake(_, c, _) => c == ch
       case RecvResume(t, _) => ss[i].at[t].chan == ch
       case _ => false
  }

  /**
   A receive delivers the head of a nonempty queue, with its tag and size, and takes just that off the queue;
   only a receiver that was woken can find the queue empty again, and then it returns 0.
   */
  lemma ReceiveDelivers(ss: seq<State>, es: seq<Event>, i: nat, ch: ChanId)
    requires Behaviour(ss, es) && i < |es| && ReceivesAt(ss, es, i, ch)
    ensures ch in ss[i].chans && ch in ss[i + 1].chans
    ensures ss[i].chans[ch].queue == [] ==>
      es[i].RecvResume? && Out(ss[i], es[i]) == Result(0) && ss[i + 1].chans[ch].queue == []
    ensures ss[i].chans[ch].queue != [] ==> var c := ss[i].chans[ch].queue[0];
      c in ss[i].msgs && Out(ss[i], es[i]) == Received(c, ss[i].msgs[c].tag, ss[i].msgs[c].size)
      && ss[i + 1].chans[ch].queue == ss[i].chans[ch].queue[1..]
  {
    if es[i].RecvResume? { assert PlaceTyped(ss[i], ss[i].at[es[i].task]); }
  }

  // ---------------------------------------------------------------------------------------
  // Who goes on, and when
  // ---------------------------------------------------------------------------------------

  /** What a task can do next, wherever it stands. */
  ghost predicate Proceeds(s: State, t: TaskId)
    requires t in s.at
  {
    match s.at[t]
    case Outside => CanCall(s, t)
    case Enqueued(ch, _) => ch in s.chans && (LockFree(s, ch) ==> Enabled(s, SendNotify(t)))
    case Answered(_) => Enabled(s, SendReturn(t))
    case SawEmpty(_) => Enabled(s, RecvRegister(t))
    case Woken(_) => Enabled(s, RecvResume(t, true)) && Enabled(s, RecvResume(t, false))
    case AwaitReply(_) => true
    case RecvBlocked(_) => true
  }

  /** Any operation may be called: a send with a new cookie, a receive when the lock is free, any reply. */
  ghost predicate CanCall(s: State, t: TaskId) {
    && (forall c, v :: Enabled(s, Reply(t, c, v)))
    && (forall ch, c, tag, size: u64 :: ch in s.chans && c != 0 && c !in s.used && size <= 4096 ==>
         Enabled(s, SendEnqueue(t, ch, c, tag, size)))
    && (forall ch :: ch in s.chans && LockFree(s, ch) && s.chans[ch].queue == [] ==> Enabled(s, RecvSeeEmpty(t, ch)))
    && (forall ch, kept :: ch in s.chans && LockFree(s, ch) && s.chans[ch].queue != [] ==>
         Enabled(s, RecvTake(t, ch, kept)))
  }

  lemma OutsideCanCall(s: State, t: TaskId)
    requires TaskAt(s, t, Outside)
    ensures CanCall(s, t)
  {
  }

  lemma MatchedProceeds(s: State, t: TaskId)
    requires t in s.at && PlaceMatches(s, t)
    ensures (s.at[t].Enqueued? ==> s.at[t].chan in s.chans) ==> Proceeds(s, t)
  {
    if s.at[t] == Outside { OutsideCanCall(s, t); }
  }

  /** In every reachable state, every task that is neither blocked nor kept waiting by a lock can go on. */
  lemma CanProceed(ss: seq<State>, es: seq<Event>, i: nat, t: TaskId)
    requires Behaviour(ss, es) && i < |ss| && t in ss[i].at
    ensures Proceeds(ss[i], t)
  {
    ReachableInv(ss, es, i);
    InvTyped(ss[i]);
    assert PlaceTyped(ss[i], ss[i].at[t]);
    MatchedProceeds(ss[i], t);
  }

  /** A held lock is given up by one step of its holder, which is always possible. */
  lemma LockIsReleased(ss: seq<State>, es: seq<Event>, i: nat, ch: ChanId, t: TaskId)
    requires Behaviour(ss, es) && i < |ss| && TaskAt(ss[i], t, SawEmpty(ch))
    ensures Typed(ss[i]) && Enabled(ss[i], RecvRegister(t)) && LockFree(Next(ss[i], RecvRegister(t)), ch)
  {
    ReachableInv(ss, es, i);
    InvTyped(ss[i]);
    assert PlaceTyped(ss[i], ss[i].at[t]);
    var s' := Next(ss[i], RecvRegister(t));
    forall u | u in s'.at ensures s'.at[u] != SawEmpty(ch) { assert u != t ==> s'.at[u] == ss[i].at[u]; }
  }

  /** An operation ends with the return of a send or with a woken receiver's resumption, and with nothing else. */
  lemma ReturnsExactly(ss: seq<State>, es: seq<Event>, i: nat, t: TaskId)
    requires Behaviour(ss, es) && i < |es| && t in ss[i].at && ss[i].at[t] != Outside
    ensures t in ss[i + 1].at
    ensures ss[i + 1].at[t] == Outside <==> es[i].task == t && (es[i].SendReturn? || es[i].RecvResume?)
  {
    ReachableInv(ss, es, i);
    assert StepAt(ss, es, i);
    LeavesPlace(ss[i], es[i], t);
  }

  lemma LeavesPlace(s: State, e: Event, t: TaskId)
    requires Typed(s) && Enabled(s, e) && t in s.at && s.at[t] != Outside
    ensures t in Next(s, e).at
    ensures Next(s, e).at[t] == Outside <==> e.task == t && (e.SendReturn? || e.RecvResume?)
  {
    if e.SendEnqueue? || e.SendNotify? || e.SendReturn? || e.Reply? {
      LeavesPlaceOfSend(s, e, t);
    } else if e.RecvRegister? || e.RecvResume? {
      assert PlaceTyped(s, s.at[e.task]);
    }
  }

  lemma LeavesPlaceOfSend(s: State, e: Event, t: TaskId)
    requires Typed(s) && Enabled(s, e) && t in s.at && s.at[t] != Outside
    requires e.SendEnqueue? || e.SendNotify? || e.SendReturn? || e.Reply?
    ensures t in Next(s, e).at && (Next(s, e).at[t] == Outside <==> e.task == t && e.SendReturn?)
  {
    if e.SendNotify? { assert PlaceTyped(s, s.at[e.task]); }
  }

  function Registers(s: State, e: Event, ch: ChanId): seq<TaskId> {
    if e.RecvRegister? && TaskAt(s, e.task, SawEmpty(ch)) then [e.task] else []
  }

  /** The receivers that registered on `ch` in the first `n` steps, in order. */
  ghost function RegisteredBy(ss: seq<State>, es: seq<Event>, n: nat, ch: ChanId): seq<TaskId>
    requires n <= |es| == |ss| - 1
  {
    if n == 0 then [] else RegisteredBy(ss, es, n - 1, ch) + Registers(ss[n - 1], es[n - 1], ch)
  }

  /** The task that the step takes from blocked on `ch` to woken. */
  ghost predicate WakesTask(s: State, s': State, ch: ChanId, t: TaskId) {
    TaskAt(s, t, RecvBlocked(ch)) && TaskAt(s', t, Woken(ch))
  }

  ghost function Wakes(s: State, s': State, ch: ChanId): seq<TaskId> {
    if t: TaskId :| WakesTask(s, s', ch, t) then [t] else []
  }

  /** The receivers that were woken on `ch` in the first `n` steps, in order. */
  ghost function WokenBy(ss: seq<State>, es: seq<Event>, n: nat, ch: ChanId): seq<TaskId>
    requires n <= |es| == |ss| - 1
  {
    if n == 0 then [] else WokenBy(ss, es, n - 1, ch) + Wakes(ss[n - 1], ss[n], ch)
  }

  /** A step wakes the first receiver of the channel it notifies, if there is one, and nobody else. */
  lemma WakesFirst(s: State, e: Event, ch: ChanId, t: TaskId)
    requires Typed(s) && Enabled(s, e) && ReceiverInv(s) && ch in s.chans
    ensures WakesTask(s, Next(s, e), ch, t) <==>
      e.SendNotify? && s.at[e.task].chan == ch && s.chans[ch].receivers != [] && t == s.chans[ch].receivers[0]
  {
    if e.SendNotify? {
      assert PlaceTyped(s, s.at[e.task]);
      NotifyWakesFirst(s, e.task, s.at[e.task].chan, ch, t);
    } else {
      OthersWakeNobody(s, e, ch, t);
    }
  }

  lemma NotifyWakesFirst(s: State, u: TaskId, x: ChanId, ch: ChanId, t: TaskId)
    requires ReceiverInv(s) && x in s.chans && ch in s.chans && u in s.at && s.at[u].Enqueued?
    ensures WakesTask(s, Move(Notify(s, x), u, Blocks(s, s.at[u].cookie)), ch, t) <==>
      x == ch && s.chans[ch].receivers != [] && t == s.chans[ch].receivers[0]
  {
    assert ReceiversSound(s.at, x, s.chans[x].receivers);
  }

  lemma OthersWakeNobody(s: State, e: Event, ch: ChanId, t: TaskId)
    requires Typed(s) && Enabled(s, e) && !e.SendNotify?
    ensures !WakesTask(s, Next(s, e), ch, t)
  {
    match e
    case RecvRegister(u) => assert PlaceTyped(s, s.at[u]);
    case RecvResume(u, _) => assert PlaceTyped(s, s.at[u]);
    case _ =>
  }

  lemma StepWakesFirst(s: State, e: Event, ch: ChanId)
    requires Typed(s) && Enabled(s, e) && ReceiverInv(s) && ch in s.chans
    ensures var r := s.chans[ch].receivers;
      Wakes(s, Next(s, e), ch) == if e.SendNotify? && s.at[e.task].chan == ch && r != [] then [r[0]] else []
  {
    var r := s.chans[ch].receivers;
    if r != [] { WakesFirst(s, e, ch, r[0]); }
    forall t | WakesTask(s, Next(s, e), ch, t) ensures r != [] && t == r[0] { WakesFirst(s, e, ch, t); }
  }

  lemma ListNext(s: State, e: Event, ch: ChanId)
    requires Typed(s) && Enabled(s, e) && ch in s.chans
    ensures ch in Next(s, e).chans
    ensures var r := s.chans[ch].receivers;
      Next(s, e).chans[ch].receivers ==
        if e.SendNotify? && s.at[e.task].chan == ch && r != [] then r[1..]
        else if e.RecvRegister? && TaskAt(s, e.task, SawEmpty(ch)) then r + [e.task] else r
  {
    if e.SendNotify? || e.RecvRegister? || e.RecvResume? { assert PlaceTyped(s, s.at[e.task]); }
  }

  /** Receivers are woken in the order in which they registered: the list is who registered less who was woken. */
  lemma {:induction false} ReceiversFifo(ss: seq<State>, es: seq<Event>, n: nat, ch: ChanId)
    requires Behaviour(ss, es) && n <= |es| && ch in ss[0].chans
    ensures ch in ss[n].chans && RegisteredBy(ss, es, n, ch) == WokenBy(ss, es, n, ch) + ss[n].chans[ch].receivers
  {
    if n > 0 {
      ReceiversFifo(ss, es, n - 1, ch);
      ReceiversStep(ss, es, n - 1, ch);
    }
  }

  /** What joins the list at its end and what is woken at its front account for the step. */
  lemma ListStep(s: State, e: Event, ch: ChanId)
    requires Typed(s) && Enabled(s, e) && ReceiverInv(s) && ch in s.chans
    ensures ch in Next(s, e).chans
    ensures s.chans[ch].receivers + Registers(s, e, ch) == Wakes(s, Next(s, e), ch) + Next(s, e).chans[ch].receivers
  {
    ListNext(s, e, ch);
    StepWakesFirst(s, e, ch);
  }

  lemma ReceiversStep(ss: seq<State>, es: seq<Event>, i: nat, ch: ChanId)
    requires Behaviour(ss, es) && i < |es| && ch in ss[i].chans
    requires RegisteredBy(ss, es, i, ch) == WokenBy(ss, es, i, ch) + ss[i].chans[ch].receivers
    ensures ch in ss[i + 1].chans
    ensures RegisteredBy(ss, es, i + 1, ch) == WokenBy(ss, es, i + 1, ch) + ss[i + 1].chans[ch].receivers
  {
    ReachableInv(ss, es, i);
    assert StepAt(ss, es, i);
    ListStep(ss[i], es[i], ch);
    var w, r, added := WokenBy(ss, es, i, ch), ss[i].chans[ch].receivers, Registers(ss[i], es[i], ch);
    var woken, r' := Wakes(ss[i], ss[i + 1], ch), ss[i + 1].chans[ch].receivers;
    Assoc(w, r, added);
    Assoc(w, woken, r');
  }

  /** A stored reply value was put there by an accepted reply with that value. */
  lemma {:induction false} ReplyOrigin(ss: seq<State>, es: seq<Event>, i: nat, c: Cookie) returns (j: nat)
    requires Behaviour(ss, es) && i < |ss| && c in ss[i].msgs && ss[i].msgs[c].stage.Replied?
    ensures j < i && AcceptedReply(ss[j], es[j], c) && es[j].value == ss[i].msgs[c].stage.value
  {
    MessageAt(ss, es, i - 1, c);
    if ss[i].msgs[c].stage == ss[i - 1].msgs[c].stage {
      j := ReplyOrigin(ss, es, i - 1, c);
    } else {
      j := i - 1;
    }
  }

  /** A send returns exactly the value of the reply that was accepted for its message. */
  lemma SendReturnsReply(ss: seq<State>, es: seq<Event>, i: nat) returns (j: nat)
    requires Behaviour(ss, es) && i < |es| && es[i].SendReturn?
    ensures StepAt(ss, es, i) && j < i
    ensures AcceptedReply(ss[j], es[j], ss[i].at[es[i].task].cookie) && Out(ss[i], es[i]) == Result(es[j].value)
  {
    assert StepAt(ss, es, i);
    assert PlaceTyped(ss[i], ss[i].at[es[i].task]);
    j := ReplyOrigin(ss, es, i, ss[i].at[es[i].task].cookie);
  }

  lemma {:induction false} MessageOrigin(ss: seq<State>, es: seq<Event>, i: nat, c: Cookie) returns (j: nat)
    requires Behaviour(ss, es) && i < |ss| && c in ss[i].msgs
    ensures j < i && var m := ss[i].msgs[c]; es[j] == SendEnqueue(m.sender, m.chan, c, m.tag, m.size)
  {
    MessageAt(ss, es, i - 1, c);
    if c in ss[i - 1].msgs {
      j := MessageOrigin(ss, es, i - 1, c);
    } else {
      j := i - 1;
    }
  }

  /** A receive delivers the cookie, tag and size of one earlier send on the same channel. */
  lemma DeliveredAsSent(ss: seq<State>, es: seq<Event>, i: nat, ch: ChanId) returns (j: nat)
    requires Behaviour(ss, es) && i < |es| && StepAt(ss, es, i) && Delivers(ss[i], es[i], ch)
    ensures j < i && es[j].SendEnqueue? && es[j].chan == ch
    ensures Out(ss[i], es[i]) == Received(es[j].cookie, es[j].tag, es[j].size)
  {
    ReachableInv(ss, es, i);
    DeliveredHead(ss[i], es[i], ch);
    j := MessageOrigin(ss, es, i, Out(ss[i], es[i]).cookie);
  }

  /** What is delivered fits a page and comes from a channel that exists: other sends are refused. */
  lemma DeliveredFitsPage(ss: seq<State>, es: seq<Event>, i: nat, ch: ChanId)
    requires Behaviour(ss, es) && i < |es| && StepAt(ss, es, i) && Delivers(ss[i], es[i], ch)
    ensures Out(ss[i], es[i]).size <= 4096 && ch in ss[i].chans
  {
    var j := DeliveredAsSent(ss, es, i, ch);
    assert StepAt(ss, es, j);
    if es[i].RecvResume? { assert PlaceTyped(ss[i], ss[i].at[es[i].task]); }
  }

  lemma DeliveredHead(s: State, e: Event, ch: ChanId)
    requires QueueInv(s) && Typed(s) && Enabled(s, e) && Delivers(s, e, ch)
    ensures var c := Out(s, e).cookie;
      c in s.msgs && s.msgs[c].chan == ch && Out(s, e) == Received(c, s.msgs[c].tag, s.msgs[c].size)
  {
    if e.RecvResume? { assert PlaceTyped(s, s.at[e.task]); }
    assert QueueSound(s.msgs, ch, s.chans[ch].queue, s.sent[ch], s.taken[ch]);
  }
}
