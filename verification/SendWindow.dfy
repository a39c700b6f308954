/** network/tcp_net/conn.go, the acknowledged send window, and service.go's resume handler. First the
    operations on the window, each one critical section of the connection's lock (or one atomic
    add); then any number of sender and handler threads interleaved at those sections. */
module SendWindow {
  import opened Messages
  import opened Prelude

  /** pendingMessages, serverAck, hasBeenSentNum and clientAck. */
  datatype Window = Window(pending: seq<Item>, serverAck: int, sentNum: int, clientAck: int)

  const EMPTY := Window([], 0, 0, 0)

  function Push(w: Window, m: Item): Window {
    w.(pending := w.pending + [m])
  }

  function Count(w: Window): Window {
    w.(sentNum := w.sentNum + 1)
  }

  /** A cumulative acknowledgement. The inner bounds check keeps the slice legal. */
  function UpdateServerAck(w: Window, ack: int): Window {
    if w.sentNum >= ack && ack > w.serverAck && ack - w.serverAck <= |w.pending|
    then w.(pending := w.pending[ack - w.serverAck..], serverAck := ack)
    else w
  }

  /** The test a resuming client's acknowledgement has to pass. */
  predicate CheckServerAck(w: Window, ack: int) {
    ack <= w.clientAck && (ack > w.serverAck ==> |w.pending| >= ack - w.serverAck)
  }

  function SetServerAck(w: Window, ack: int): Window {
    w.(serverAck := ack)
  }

  function IncClientAck(w: Window): Window {
    w.(clientAck := w.clientAck + 1)
  }

  /** ProcessPendingMessages: offer every pending message in turn, stopping when the queue is full. */
  function Replay(queue: seq<Item>, messages: seq<Item>): seq<Item>
    decreases |messages|
  {
    if messages == [] || |queue| >= QUEUE_SIZE then queue else Replay(queue + [messages[0]], messages[1..])
  }

  /** What replay adds is exactly the longest prefix of the pending messages that fits. */
  lemma {:induction false} ReplayAddsLongestPrefix(queue: seq<Item>, messages: seq<Item>)
    requires |queue| <= QUEUE_SIZE
    ensures var room := QUEUE_SIZE - |queue|;
      Replay(queue, messages) == queue + messages[..if |messages| <= room then |messages| else room]
    decreases |messages|
  {
    if messages == [] || |queue| >= QUEUE_SIZE {
    } else {
      ReplayAddsLongestPrefix(queue + [messages[0]], messages[1..]);
    }
  }

  // ---------------------------------------------------------------- concurrent sessions

  type Thread = nat

  /** A token-check handler between its critical sections. `own` says that the connection the
      message came in on is this one. */
  datatype Resume =
    | Checked(ack: int, own: bool)
    | Updated(ack: int)
    | AckSet
    | Replaying(left: seq<Item>)

  /** `history` is every message ever pushed; `pushed` and `counted` are the senders between their
      three steps; `taken` is what the writer has received. */
  datatype Session = Session(
    window: Window, queue: seq<Item>, history: seq<Item>,
    pushed: map<Thread, Item>, counted: map<Thread, Item>,
    resumes: map<Thread, Resume>, taken: seq<Item>)

  const START := Session(EMPTY, [], [], map[], map[], map[], [])

  datatype Event =
    | SendPush(t: Thread, m: Item)      // AsyncSend: PushToPendingMessages
    | SendCount(t: Thread)              // AsyncSend: incHasBeenSendCount
    | SendOffer(t: Thread)              // AsyncSend: the select on the queue
    | Acked(ack: int)                   // UpdateServerAck by any handler
    | ClientAcked                       // IncClientAck
    | Taken                             // the writer receives
    | ResumeCheck(t: Thread, ack: int, own: bool)
    | ResumeUpdate(t: Thread)
    | ResumeSet(t: Thread)
    | ResumeCopy(t: Thread)             // ProcessPendingMessages copies the pending slice
    | ResumeOffer(t: Thread)

  predicate Enabled(s: Session, e: Event) {
    match e
    case SendPush(t, m) => t !in s.pushed && t !in s.counted
    case SendCount(t) => t in s.pushed
    case SendOffer(t) => t in s.counted
    case Acked(_) => true
    case ClientAcked => true
    case Taken => s.queue != []
    case ResumeCheck(t, ack, own) => t !in s.resumes && CheckServerAck(s.window, ack)
    case ResumeUpdate(t) => t in s.resumes && s.resumes[t].Checked?
    case ResumeSet(t) => t in s.resumes && s.resumes[t].Updated?
    case ResumeCopy(t) => t in s.resumes && s.resumes[t].AckSet?
    case ResumeOffer(t) => t in s.resumes && s.resumes[t].Replaying?
  }

  function Step(s: Session, e: Event): Session
    requires Enabled(s, e)
  {
    match e
    case SendPush(t, m) =>
      s.(window := Push(s.window, m), history := s.history + [m], pushed := s.pushed[t := m])
    case SendCount(t) =>
      s.(window := Count(s.window), pushed := s.pushed - {t}, counted := s.counted[t := s.pushed[t]])
    case SendOffer(t) =>
      s.(queue := Offer(s.queue, s.counted[t]), counted := s.counted - {t})
    case Acked(ack) =>
      s.(window := UpdateServerAck(s.window, ack))
    case ClientAcked =>
      s.(window := IncClientAck(s.window))
    case Taken =>
      s.(queue := s.queue[1..], taken := s.taken + [s.queue[0]])
    case ResumeCheck(t, ack, own) =>
      s.(resumes := s.resumes[t := Checked(ack, own)])
    case ResumeUpdate(t) =>
      var r := s.resumes[t];
      s.(window := if r.own then UpdateServerAck(s.window, r.ack) else s.window,
         resumes := s.resumes[t := Updated(r.ack)])
    case ResumeSet(t) =>
      s.(window := SetServerAck(s.window, s.resumes[t].ack), resumes := s.resumes[t := AckSet])
    case ResumeCopy(t) =>
      s.(resumes := s.resumes[t := Replaying(s.window.pending)])
    case ResumeOffer(t) =>
      var left := s.resumes[t].left;
      if left == [] || |s.queue| >= QUEUE_SIZE then s.(resumes := s.resumes - {t})
      else s.(queue := s.queue + [left[0]], resumes := s.resumes[t := Replaying(left[1..])])
  }

  /** How many accepted messages have left the window. */
  function Base(s: Session): int {
    |s.history| - |s.window.pending|
  }

  /** How far the acknowledged count is ahead of the messages dropped. */
  function Drift(s: Session): int {
    s.window.serverAck - Base(s)
  }

  /** What every step keeps, resume or not: the window is a suffix of the history, and the sent count
      is short by the senders between push and count. */
  ghost predicate Consistent(s: Session) {
    && IsSuffix(s.window.pending, s.history)
    && |s.history| == s.window.sentNum + |s.pushed|
  }

  predicate IsSuffix(pending: seq<Item>, history: seq<Item>) {
    |pending| <= |history| && pending == history[|history| - |pending|..]
  }

  lemma PushKeepsSuffix(w: Window, history: seq<Item>, m: Item)
    requires IsSuffix(w.pending, history)
    ensures IsSuffix(Push(w, m).pending, history + [m])
  {
    var base := |history| - |w.pending|;
    assert (history + [m])[base..] == history[base..] + [m];
  }

  /** An acknowledgement drops as many messages as it adds to the acknowledged count. */
  lemma UpdateKeepsSuffix(w: Window, history: seq<Item>, ack: int)
    requires IsSuffix(w.pending, history)
    ensures var v := UpdateServerAck(w, ack);
      IsSuffix(v.pending, history) && v.serverAck + |v.pending| == w.serverAck + |w.pending| && v.sentNum == w.sentNum
  {
    var k := ack - w.serverAck;
    if 0 <= k <= |w.pending| {
      var base := |history| - |w.pending|;
      assert w.pending[k..] == history[base + k..];
    }
  }

  /** Only accepted messages are on their way out. */
  ghost predicate OnlyAccepted(s: Session) {
    && (forall t :: t in s.pushed ==> s.pushed[t] in s.history)
    && (forall t :: t in s.counted ==> s.counted[t] in s.history)
    && (forall t :: t in s.resumes && s.resumes[t].Replaying? ==> AllIn(s.resumes[t].left, s.history))
    && AllIn(s.queue, s.history) && AllIn(s.taken, s.history)
  }

  ghost predicate AllIn(items: seq<Item>, history: seq<Item>) {
    forall m :: m in items ==> m in history
  }

  lemma RemoveOne<K, V>(m: map<K, V>, k: K)
    requires k in m
    ensures |m - {k}| == |m| - 1
  {
    assert (m - {k}).Keys == m.Keys - {k};
    assert |m.Keys| == |m| && |(m - {k}).Keys| == |m - {k}|;
  }

  /** Only ResumeSet moves the drift; every other step, an effective acknowledgement included, keeps it. */
  lemma StepKeepsConsistent(s: Session, e: Event)
    requires Consistent(s) && Enabled(s, e)
    ensures StepIsConsistent(s, e)
  {
    match e
    case SendPush(_, _) => SenderStepKeepsConsistent(s, e);
    case SendCount(_) => SenderStepKeepsConsistent(s, e);
    case SendOffer(_) =>
    case Acked(ack) => UpdateKeepsSuffix(s.window, s.history, ack);
    case _ => HandlerStepKeepsConsistent(s, e);
  }

  lemma SenderStepKeepsConsistent(s: Session, e: Event)
    requires Consistent(s) && Enabled(s, e) && (e.SendPush? || e.SendCount?)
    ensures StepIsConsistent(s, e)
  {
    match e
    case SendPush(_, m) => PushKeepsSuffix(s.window, s.history, m);
    case SendCount(t) => RemoveOne(s.pushed, t);
  }

  ghost predicate StepIsConsistent(s: Session, e: Event)
    requires Enabled(s, e)
  {
    var s' := Step(s, e);
    && Consistent(s')
    && (if e.ResumeSet? then Base(s') == Base(s) && s'.window.serverAck == s.resumes[e.t].ack
        else Drift(s') == Drift(s))
  }

  lemma HandlerStepKeepsConsistent(s: Session, e: Event)
    requires Consistent(s) && Enabled(s, e)
    requires !e.SendPush? && !e.SendCount? && !e.SendOffer? && !e.Acked?
    ensures StepIsConsistent(s, e)
  {
    match e
    case ResumeUpdate(t) => UpdateKeepsSuffix(s.window, s.history, s.resumes[t].ack);
    case _ =>
  }

  lemma StepKeepsOnlyAccepted(s: Session, e: Event)
    requires Consistent(s) && OnlyAccepted(s) && Enabled(s, e)
    ensures OnlyAccepted(Step(s, e))
  {
    match e
    case SendPush(t, m) =>
    case ResumeCopy(t) =>
    case ResumeOffer(t) =>
    case _ =>
  }

  // ---------------------------------------------------------------- every schedule

  /** The states an arbitrary interleaving goes through. */
  ghost predicate Trace(states: seq<Session>, events: seq<Event>) {
    && |states| == |events| + 1
    && states[0] == START
    && forall i :: 0 <= i < |events| ==> Enabled(states[i], events[i]) && states[i + 1] == Step(states[i], events[i])
  }

  lemma {:induction false} TraceConsistent(states: seq<Session>, events: seq<Event>, i: nat)
    requires Trace(states, events) && i <= |events|
    ensures Consistent(states[i]) && OnlyAccepted(states[i])
    decreases i
  {
    if i == 0 {
    } else {
      TraceConsistent(states, events, i - 1);
      StepKeepsConsistent(states[i - 1], events[i - 1]);
      StepKeepsOnlyAccepted(states[i - 1], events[i - 1]);
    }
  }

  /** What was pushed in the first `i` events, and how many sends and received messages were counted. */
  function PushedAll(events: seq<Event>, i: nat): seq<Item>
    requires i <= |events|
  {
    if i == 0 then []
    else PushedAll(events, i - 1) + if events[i - 1].SendPush? then [events[i - 1].m] else []
  }

  function CountWhere(events: seq<Event>, i: nat, p: Event -> bool): nat
    requires i <= |events|
  {
    if i == 0 then 0 else CountWhere(events, i - 1, p) + if p(events[i - 1]) then 1 else 0
  }

  function IsSend(): Event -> bool {
    (e: Event) => e.SendCount?
  }

  function IsReceipt(): Event -> bool {
    (e: Event) => e.ClientAcked?
  }

  lemma StepCounts(s: Session, e: Event)
    requires Enabled(s, e)
    ensures Step(s, e).history == s.history + if e.SendPush? then [e.m] else []
    ensures Step(s, e).window.sentNum == s.window.sentNum + if e.SendCount? then 1 else 0
    ensures Step(s, e).window.clientAck == s.window.clientAck + if e.ClientAcked? then 1 else 0
  {
    assert s.history + [] == s.history;
  }

  /** The counters count, whatever acknowledgements and resumes come in between. */
  lemma {:induction false} CountersCount(states: seq<Session>, events: seq<Event>, i: nat)
    requires Trace(states, events) && i <= |events|
    ensures states[i].history == PushedAll(events, i)
    ensures states[i].window.sentNum == CountWhere(events, i, IsSend())
    ensures states[i].window.clientAck == CountWhere(events, i, IsReceipt())
    decreases i
  {
    if i == 0 {
    } else {
      CountersCount(states, events, i - 1);
      StepCounts(states[i - 1], events[i - 1]);
    }
  }

  ghost predicate NoResumeBefore(events: seq<Event>, i: nat)
    requires i <= |events|
  {
    forall k :: 0 <= k < i ==> !events[k].ResumeSet?
  }

  /** The acknowledged count and the window tile the history. */
  ghost predicate Exact(s: Session) {
    var w := s.window;
    && w.serverAck + |w.pending| == w.sentNum + |s.pushed|
    && 0 <= w.serverAck <= w.sentNum && w.serverAck <= |s.history|
    && w.pending == s.history[w.serverAck..]
  }

  lemma StepKeepsAckBelowSent(s: Session, e: Event)
    requires Enabled(s, e) && !e.ResumeSet?
    requires 0 <= s.window.serverAck <= s.window.sentNum
    ensures 0 <= Step(s, e).window.serverAck <= Step(s, e).window.sentNum
  {}

  lemma {:induction false} NoDrift(states: seq<Session>, events: seq<Event>, i: nat)
    requires Trace(states, events) && i <= |events| && NoResumeBefore(events, i)
    ensures Consistent(states[i]) && Drift(states[i]) == 0
    ensures 0 <= states[i].window.serverAck <= states[i].window.sentNum
    decreases i
  {
    if i == 0 {
    } else {
      NoDrift(states, events, i - 1);
      StepKeepsConsistent(states[i - 1], events[i - 1]);
      StepKeepsAckBelowSent(states[i - 1], events[i - 1]);
    }
  }

  /** Any number of senders, any acknowledgements, no resume: the window is exactly the history above
      the acknowledged count, and the bounds check inside UpdateServerAck never fails. */
  lemma AckWindow(states: seq<Session>, events: seq<Event>, i: nat)
    requires Trace(states, events) && i <= |events| && NoResumeBefore(events, i)
    ensures Exact(states[i])
    ensures forall ack :: states[i].window.serverAck < ack <= states[i].window.sentNum ==>
              ack <= |states[i].history|
              && UpdateServerAck(states[i].window, ack).serverAck == ack
              && UpdateServerAck(states[i].window, ack).pending == states[i].history[ack..]
  {
    NoDrift(states, events, i);
    var s := states[i];
    forall ack | s.window.serverAck < ack <= s.window.sentNum
      ensures ack <= |s.history|
      ensures UpdateServerAck(s.window, ack).serverAck == ack
      ensures UpdateServerAck(s.window, ack).pending == s.history[ack..]
    {
      assert s.history[s.window.serverAck..][ack - s.window.serverAck..] == s.history[ack..];
    }
  }

  // ---------------------------------------------------------------- each sender's order

  /** What thread `t` has pushed in the first `i` events. */
  function PushedBy(events: seq<Event>, i: nat, t: Thread): seq<Item>
    requires i <= |events|
  {
    if i == 0 then []
    else PushedBy(events, i - 1, t) + PushedNow(events[i - 1], t)
  }

  /** What the event puts on the queue, and which sender it comes from. */
  function OfferedNow(s: Session, e: Event): seq<(Thread, Item)>
    requires Enabled(s, e)
  {
    if e.SendOffer? && |s.queue| < QUEUE_SIZE then [(e.t, s.counted[e.t])] else []
  }

  function Offered(states: seq<Session>, events: seq<Event>, i: nat): seq<(Thread, Item)>
    requires i <= |events| <= |states| && forall k :: 0 <= k < |events| ==> Enabled(states[k], events[k])
  {
    if i == 0 then [] else Offered(states, events, i - 1) + OfferedNow(states[i - 1], events[i - 1])
  }

  function From(offers: seq<(Thread, Item)>, t: Thread): seq<Item> {
    if offers == [] then []
    else
      var last := offers[|offers| - 1];
      From(offers[..|offers| - 1], t) + if last.0 == t then [last.1] else []
  }

  lemma OffersAppend(offers: seq<(Thread, Item)>, more: seq<(Thread, Item)>, t: Thread)
    requires |more| <= 1
    ensures From(offers + more, t) == From(offers, t) + if more != [] && more[0].0 == t then [more[0].1] else []
  {
    if more == [] {
      assert offers + more == offers;
    } else {
      assert (offers + more)[..|offers|] == offers;
    }
  }

  /** The message a sender is in the middle of sending. */
  function Busy(s: Session, t: Thread): seq<Item> {
    if t in s.pushed then [s.pushed[t]] else if t in s.counted then [s.counted[t]] else []
  }

  /** A sender's queued messages are some of those it pushed, in order; the one it is busy with is its
      last push and not queued yet. */
  ghost predicate InOrder(pushed: seq<Item>, busy: seq<Item>, queued: seq<Item>) {
    && |busy| <= 1 && |busy| <= |pushed|
    && pushed[|pushed| - |busy|..] == busy && Subsequence(queued, pushed[..|pushed| - |busy|])
  }

  lemma PushInOrder(pushed: seq<Item>, queued: seq<Item>, m: Item)
    requires InOrder(pushed, [], queued)
    ensures InOrder(pushed + [m], [m], queued)
  {
    assert pushed[..|pushed|] == pushed && (pushed + [m])[..|pushed|] == pushed;
  }

  lemma OfferInOrder(pushed: seq<Item>, queued: seq<Item>, m: Item)
    requires InOrder(pushed, [m], queued)
    ensures InOrder(pushed, [], queued) && InOrder(pushed, [], queued + [m])
  {
    var before := pushed[..|pushed| - 1];
    assert pushed == before + [m] && pushed[..|pushed|] == pushed;
    SubsequenceAppend(queued, before, m);
  }

  function PushedNow(e: Event, t: Thread): seq<Item> {
    if e.SendPush? && e.t == t then [e.m] else []
  }

  function QueuedNow(s: Session, e: Event, t: Thread): seq<Item>
    requires Enabled(s, e)
  {
    var now := OfferedNow(s, e);
    if now != [] && now[0].0 == t then [now[0].1] else []
  }

  /** No thread is in two of its steps at once. */
  ghost predicate OneStepEach(s: Session) {
    forall t :: t in s.pushed ==> t !in s.counted
  }

  lemma StepBusy(s: Session, e: Event, t: Thread)
    requires Enabled(s, e) && OneStepEach(s)
    ensures OneStepEach(Step(s, e))
    ensures
      if e.SendPush? && e.t == t then Busy(s, t) == [] && Busy(Step(s, e), t) == [e.m] && QueuedNow(s, e, t) == []
      else if e.SendOffer? && e.t == t then
        && |Busy(s, t)| == 1 && Busy(Step(s, e), t) == []
        && (QueuedNow(s, e, t) == [] || QueuedNow(s, e, t) == Busy(s, t))
      else Busy(Step(s, e), t) == Busy(s, t) && QueuedNow(s, e, t) == []
  {}

  lemma StepKeepsInOrder(s: Session, e: Event, pushed: seq<Item>, queued: seq<Item>, t: Thread)
    requires Enabled(s, e) && OneStepEach(s) && InOrder(pushed, Busy(s, t), queued)
    ensures InOrder(pushed + PushedNow(e, t), Busy(Step(s, e), t), queued + QueuedNow(s, e, t))
  {
    StepBusy(s, e, t);
    assert pushed + [] == pushed && queued + [] == queued;
    if e.SendPush? && e.t == t {
      PushInOrder(pushed, queued, e.m);
    } else if e.SendOffer? && e.t == t {
      OfferInOrder(pushed, queued, Busy(s, t)[0]);
    }
  }

  lemma {:induction false} SenderInOrder(states: seq<Session>, events: seq<Event>, i: nat, t: Thread)
    requires Trace(states, events) && i <= |events|
    ensures OneStepEach(states[i])
    ensures InOrder(PushedBy(events, i, t), Busy(states[i], t), From(Offered(states, events, i), t))
    decreases i
  {
    if i == 0 {
    } else {
      SenderInOrder(states, events, i - 1, t);
      StepBusy(states[i - 1], events[i - 1], t);
      StepKeepsInOrder(states[i - 1], events[i - 1], PushedBy(events, i - 1, t),
                       From(Offered(states, events, i - 1), t), t);
      OffersAppend(Offered(states, events, i - 1), OfferedNow(states[i - 1], events[i - 1]), t);
    }
  }

  /** Each sender's offers are some of its own messages, in its own order and none more often than pushed. */
  lemma SendersKeepOrder(states: seq<Session>, events: seq<Event>, i: nat, t: Thread)
    requires Trace(states, events) && i <= |events|
    ensures Subsequence(From(Offered(states, events, i), t), PushedBy(events, i, t))
    ensures multiset(From(Offered(states, events, i), t)) <= multiset(PushedBy(events, i, t))
    ensures Subsequence(From(Offered(states, events, i), t), states[i].taken + states[i].queue)
  {
    SenderInOrder(states, events, i, t);
    InOrderMeans(PushedBy(events, i, t), Busy(states[i], t), From(Offered(states, events, i), t));
    SubsequenceCounts(From(Offered(states, events, i), t), PushedBy(events, i, t));
    OffersAreEnqueued(states, events, i, t);
    QueueIsEnqueued(states, events, i);
  }

  lemma InOrderMeans(pushed: seq<Item>, busy: seq<Item>, queued: seq<Item>)
    requires InOrder(pushed, busy, queued)
    ensures Subsequence(queued, pushed)
  {
    var before := pushed[..|pushed| - |busy|];
    if busy == [] {
      assert before == pushed;
    } else {
      assert pushed == before + [busy[0]];
      SubsequenceAppend(queued, before, busy[0]);
    }
  }

  // ---------------------------------------------------------------- a replay among other steps

  /** What handler `t` has put on the queue in the events from `c` up to `i`. */
  function ReplayedBy(states: seq<Session>, events: seq<Event>, c: nat, i: nat, t: Thread): seq<Item>
    requires c <= i <= |events| <= |states| && forall k :: 0 <= k < |events| ==> Enabled(states[k], events[k])
  {
    if i == c then []
    else ReplayedBy(states, events, c, i - 1, t) + ReplayedNow(states[i - 1], events[i - 1], t)
  }

  function ReplayedNow(s: Session, e: Event, t: Thread): seq<Item>
    requires Enabled(s, e)
  {
    if e.ResumeOffer? && e.t == t && s.resumes[t].left != [] && |s.queue| < QUEUE_SIZE
    then [s.resumes[t].left[0]]
    else []
  }

  /** Handler `t` copies the window at event `c` and is still replaying up to `i`. */
  ghost predicate ReplayingSince(states: seq<Session>, events: seq<Event>, c: nat, i: nat, t: Thread) {
    && Trace(states, events) && c < i <= |events| && events[c] == ResumeCopy(t)
    && forall j :: c < j <= i ==> t in states[j].resumes && states[j].resumes[t].Replaying?
  }

  /** A step moves at most the first message of what handler `t` has left, and then to the queue. */
  lemma StepOfReplay(s: Session, e: Event, t: Thread, added: seq<Item>, pending: seq<Item>)
    requires Enabled(s, e) && t in s.resumes && s.resumes[t].Replaying? && t in Step(s, e).resumes
    requires added + s.resumes[t].left == pending
    ensures Step(s, e).resumes[t].Replaying?
    ensures (added + ReplayedNow(s, e, t)) + Step(s, e).resumes[t].left == pending
  {
    var left := s.resumes[t].left;
    assert added + [] == added;
    assert left != [] ==> left == [left[0]] + left[1..];
  }

  /** Whatever senders, the writer and other handlers do in between: what a replay has put on the queue
      and what it has left is the window it copied, in order. */
  lemma {:induction false} InterleavedReplay(states: seq<Session>, events: seq<Event>, c: nat, i: nat, t: Thread)
    requires ReplayingSince(states, events, c, i, t)
    ensures ReplayedBy(states, events, c, i, t) + states[i].resumes[t].left == states[c].window.pending
    decreases i
  {
    if i == c + 1 {
      assert ReplayedBy(states, events, c, c, t) == [];
    } else {
      InterleavedReplay(states, events, c, i - 1, t);
      assert states[i] == Step(states[i - 1], events[i - 1]) && t in states[i].resumes;
      StepOfReplay(states[i - 1], events[i - 1], t, ReplayedBy(states, events, c, i - 1, t), states[c].window.pending);
    }
  }

  /** So when it stops, it has put a prefix of that window on the queue: all of it if and only if nothing
      was left, and otherwise the queue was full at that moment. */
  lemma ReplayEnds(states: seq<Session>, events: seq<Event>, c: nat, i: nat, t: Thread)
    requires ReplayingSince(states, events, c, i, t)
    requires i < |events| && events[i] == ResumeOffer(t) && t !in states[i + 1].resumes
    ensures ReplayedBy(states, events, c, i + 1, t) <= states[c].window.pending
    ensures ReplayedBy(states, events, c, i + 1, t) == states[c].window.pending <==> states[i].resumes[t].left == []
    ensures states[i].resumes[t].left != [] ==> |states[i].queue| >= QUEUE_SIZE
  {
    InterleavedReplay(states, events, c, i, t);
  }

  // ---------------------------------------------------------------- what the writer gets

  /** What the event puts on the queue, whoever does it. */
  function EnqueuedNow(s: Session, e: Event): seq<Item>
    requires Enabled(s, e)
  {
    match e
    case SendOffer(t) => if |s.queue| < QUEUE_SIZE then [s.counted[t]] else []
    case ResumeOffer(t) => ReplayedNow(s, e, t)
    case _ => []
  }

  /** All that was put on the queue in the events from `c` up to `i`. */
  function Enqueued(states: seq<Session>, events: seq<Event>, c: nat, i: nat): seq<Item>
    requires c <= i <= |events| <= |states| && forall k :: 0 <= k < |events| ==> Enabled(states[k], events[k])
  {
    if i == c then [] else Enqueued(states, events, c, i - 1) + EnqueuedNow(states[i - 1], events[i - 1])
  }

  lemma StepEnqueues(s: Session, e: Event)
    requires Enabled(s, e)
    ensures Step(s, e).taken + Step(s, e).queue == s.taken + s.queue + EnqueuedNow(s, e)
  {
    assert s.taken + s.queue + [] == s.taken + s.queue;
    if e.Taken? {
      assert s.queue == [s.queue[0]] + s.queue[1..];
    }
  }

  /** On every schedule, what the writer has taken and what it still can take is what senders and replays
      have put on the queue, in that order. */
  lemma {:induction false} QueueIsEnqueued(states: seq<Session>, events: seq<Event>, i: nat)
    requires Trace(states, events) && i <= |events|
    ensures states[i].taken + states[i].queue == Enqueued(states, events, 0, i)
    decreases i
  {
    if i == 0 {
    } else {
      QueueIsEnqueued(states, events, i - 1);
      StepEnqueues(states[i - 1], events[i - 1]);
    }
  }

  lemma {:induction false} EnqueuedSplits(states: seq<Session>, events: seq<Event>, b: nat, c: nat, i: nat)
    requires Trace(states, events) && b <= c <= i <= |events|
    ensures Enqueued(states, events, b, i) == Enqueued(states, events, b, c) + Enqueued(states, events, c, i)
    decreases i
  {
    if i == c {
      assert Enqueued(states, events, b, c) + [] == Enqueued(states, events, b, c);
    } else {
      EnqueuedSplits(states, events, b, c, i - 1);
    }
  }

  lemma {:induction false} OffersAreEnqueued(states: seq<Session>, events: seq<Event>, i: nat, t: Thread)
    requires Trace(states, events) && i <= |events|
    ensures Subsequence(From(Offered(states, events, i), t), Enqueued(states, events, 0, i))
    decreases i
  {
    if i == 0 {
    } else {
      var now, offer := EnqueuedNow(states[i - 1], events[i - 1]), OfferedNow(states[i - 1], events[i - 1]);
      OffersAreEnqueued(states, events, i - 1, t);
      OffersAppend(Offered(states, events, i - 1), offer, t);
      OneMore(From(Offered(states, events, i - 1), t), Enqueued(states, events, 0, i - 1),
              if offer != [] && offer[0].0 == t then [offer[0].1] else [], now);
    }
  }

  lemma OneMore(a: seq<Item>, b: seq<Item>, x: seq<Item>, y: seq<Item>)
    requires Subsequence(a, b) && |y| <= 1 && (x == [] || x == y)
    ensures Subsequence(a + x, b + y)
  {
    assert a + [] == a && b + [] == b;
    if y != [] {
      assert y == [y[0]];
      SubsequenceAppend(a, b, y[0]);
    }
  }

  /** What a replay puts on the queue, among what everybody does. */
  lemma {:induction false} ReplayIsEnqueued(states: seq<Session>, events: seq<Event>, c: nat, i: nat, t: Thread)
    requires Trace(states, events) && c <= i <= |events|
    ensures Subsequence(ReplayedBy(states, events, c, i, t), Enqueued(states, events, c, i))
    decreases i
  {
    if i == c {
    } else {
      ReplayIsEnqueued(states, events, c, i - 1, t);
      OneMore(ReplayedBy(states, events, c, i - 1, t), Enqueued(states, events, c, i - 1),
              ReplayedNow(states[i - 1], events[i - 1], t), EnqueuedNow(states[i - 1], events[i - 1]));
    }
  }

  /** Handler `t` copies the window at event `c` and finds at event `i` that it has replayed all of it. */
  ghost predicate CompleteReplay(states: seq<Session>, events: seq<Event>, c: nat, i: nat, t: Thread) {
    && ReplayingSince(states, events, c, i, t)
    && i < |events| && events[i] == ResumeOffer(t) && states[i].resumes[t].left == []
  }

  /** Then the writer gets the whole window, in order, after what was queued before the copy. */
  lemma CompleteReplayIsQueued(states: seq<Session>, events: seq<Event>, c: nat, i: nat, t: Thread)
    requires CompleteReplay(states, events, c, i, t)
    ensures var last := states[|events|];
      && Enqueued(states, events, 0, c) <= last.taken + last.queue
      && Subsequence(states[c].window.pending, (last.taken + last.queue)[|Enqueued(states, events, 0, c)|..])
  {
    InterleavedReplay(states, events, c, i, t);
    assert ReplayedBy(states, events, c, i, t) + [] == ReplayedBy(states, events, c, i, t);
    ReplayIsEnqueued(states, events, c, i, t);
    EnqueuedSplits(states, events, c, i, |events|);
    EnqueuedSplits(states, events, 0, c, |events|);
    SubsequenceExtends(states[c].window.pending, Enqueued(states, events, c, i), Enqueued(states, events, i, |events|));
    QueueIsEnqueued(states, events, |events|);
  }

  // ---------------------------------------------------------------- resume

  /** No message above the acknowledged count has left the window. */
  predicate Lossless(s: Session) {
    Base(s) <= s.window.serverAck
  }

  /** What that gives: each unacknowledged message is still pending, in its place. */
  lemma LosslessMeaning(s: Session, k: nat)
    requires Consistent(s) && Lossless(s) && s.window.serverAck <= k < |s.history|
    ensures 0 <= k - Base(s) < |s.window.pending| && s.window.pending[k - Base(s)] == s.history[k]
  {}

  /** And when it fails, the message at the acknowledged count is gone. */
  lemma LossMeaning(s: Session)
    requires Consistent(s) && !Lossless(s) && 0 <= s.window.serverAck
    ensures s.window.serverAck < |s.history| && s.history[s.window.serverAck..] != s.window.pending
    ensures |s.window.pending| < |s.history[s.window.serverAck..]|
  {}

  /** The acknowledgement a handler stores still covers everything that was dropped: the messages
      counted, and those pushed but not counted yet, less those still pending. */
  predicate SetCoversDropped(s: Session, e: Event)
    requires Enabled(s, e)
  {
    e.ResumeSet? ==> s.window.sentNum + |s.pushed| - |s.window.pending| <= s.resumes[e.t].ack
  }

  /** Exactly which schedules with resume lose nothing: those in which every stored acknowledgement
      is at least the number of messages already dropped. */
  lemma {:induction false} ResumeLosesNothing(states: seq<Session>, events: seq<Event>, i: nat)
    requires Trace(states, events) && i <= |events|
    ensures (forall j :: 0 <= j <= i ==> Lossless(states[j]))
       <==> (forall j :: 0 <= j < i ==> SetCoversDropped(states[j], events[j]))
    decreases i
  {
    if i == 0 {
    } else {
      ResumeLosesNothing(states, events, i - 1);
      TraceConsistent(states, events, i - 1);
      StepKeepsConsistent(states[i - 1], events[i - 1]);
      assert Lossless(states[i - 1]) ==> (Lossless(states[i]) <==> SetCoversDropped(states[i - 1], events[i - 1]));
    }
  }

  // A handler on its own.

  /** What a token check leaves on the window of the connection on file: `own` says that the message came
      in on that very one. */
  function Resumed(w: Window, own: bool, ack: int): Window {
    SetServerAck(if own then UpdateServerAck(w, ack) else w, ack)
  }

  /** The acknowledgement is stored in any case. Messages are dropped only on the connection's own
      message, and only for an acknowledgement that is ahead, of messages sent and still there. */
  lemma ResumedMeans(w: Window, own: bool, ack: int)
    ensures var v := Resumed(w, own, ack);
      && v.serverAck == ack && v.sentNum == w.sentNum && v.clientAck == w.clientAck
      && v.pending == if own && w.serverAck < ack <= w.sentNum && ack - w.serverAck <= |w.pending|
                      then w.pending[ack - w.serverAck..] else w.pending
  {}

  predicate Possible(s: Session, events: seq<Event>)
    decreases |events|
  {
    events == [] || (Enabled(s, events[0]) && Possible(Step(s, events[0]), events[1..]))
  }

  function After(s: Session, events: seq<Event>): Session
    requires Possible(s, events)
    decreases |events|
  {
    if events == [] then s else After(Step(s, events[0]), events[1..])
  }

  lemma OneMoreEvent(s: Session, e: Event, rest: seq<Event>)
    requires Enabled(s, e) && Possible(Step(s, e), rest)
    ensures Possible(s, [e] + rest) && After(s, [e] + rest) == After(Step(s, e), rest)
  {
    assert ([e] + rest)[1..] == rest;
  }

  /** AsyncSend that nothing interrupts is these steps, and comes to this. */
  lemma SendRun(s: Session, t: Thread, m: Item)
    requires t !in s.pushed && t !in s.counted
    ensures var events := [SendPush(t, m), SendCount(t), SendOffer(t)];
      && Possible(s, events)
      && After(s, events) == s.(
           window := s.window.(pending := s.window.pending + [m], sentNum := s.window.sentNum + 1),
           history := s.history + [m], queue := if |s.queue| < 5000 then s.queue + [m] else s.queue)
  {
    var s1 := Step(s, SendPush(t, m));
    var s2 := Step(s1, SendCount(t));
    var s3 := Step(s2, SendOffer(t));
    assert Possible(s3, []) && After(s3, []) == s3;
    OneMoreEvent(s2, SendOffer(t), []);
    OneMoreEvent(s1, SendCount(t), [SendOffer(t)]);
    OneMoreEvent(s, SendPush(t, m), [SendCount(t), SendOffer(t)]);
    assert s1.pushed - {t} == s.pushed && s2.counted - {t} == s.counted;
    assert [SendOffer(t)] + [] == [SendOffer(t)];
    assert [SendCount(t)] + [SendOffer(t)] == [SendCount(t), SendOffer(t)];
    assert [SendPush(t, m)] + [SendCount(t), SendOffer(t)] == [SendPush(t, m), SendCount(t), SendOffer(t)];
  }

  /** The offers of a replay that nothing interrupts, up to the one that finds it at its end. */
  lemma {:induction false} ReplayRun(s: Session, t: Thread) returns (events: seq<Event>)
    requires t in s.resumes && s.resumes[t].Replaying?
    ensures (forall e :: e in events ==> e == ResumeOffer(t)) && Possible(s, events)
    ensures After(s, events) == s.(queue := Replay(s.queue, s.resumes[t].left), resumes := s.resumes - {t})
    decreases |s.resumes[t].left|
  {
    var v := Step(s, ResumeOffer(t));
    if t in v.resumes {
      var rest := ReplayRun(v, t);
      events := [ResumeOffer(t)] + rest;
      assert events[1..] == rest && v.resumes - {t} == s.resumes - {t};
    } else {
      events := [ResumeOffer(t)];
      assert events[1..] == [];
    }
  }

  /** A token check that nothing interrupts is these steps of the session, and comes to this. */
  lemma TokenCheckRun(s: Session, t: Thread, ack: int, own: bool) returns (offers: seq<Event>)
    requires t !in s.resumes && CheckServerAck(s.window, ack)
    ensures forall e :: e in offers ==> e == ResumeOffer(t)
    ensures var events := [ResumeCheck(t, ack, own), ResumeUpdate(t), ResumeSet(t), ResumeCopy(t)] + offers;
      && Possible(s, events)
      && After(s, events) == s.(window := Resumed(s.window, own, ack),
                                queue := Replay(s.queue, Resumed(s.window, own, ack).pending))
  {
    var s1 := Step(s, ResumeCheck(t, ack, own));
    var s2 := Step(s1, ResumeUpdate(t));
    var s3 := Step(s2, ResumeSet(t));
    var s4 := Step(s3, ResumeCopy(t));
    offers := ReplayRun(s4, t);
    OneMoreEvent(s3, ResumeCopy(t), offers);
    OneMoreEvent(s2, ResumeSet(t), [ResumeCopy(t)] + offers);
    OneMoreEvent(s1, ResumeUpdate(t), [ResumeSet(t)] + ([ResumeCopy(t)] + offers));
    OneMoreEvent(s, ResumeCheck(t, ack, own), [ResumeUpdate(t)] + ([ResumeSet(t)] + ([ResumeCopy(t)] + offers)));
    assert [ResumeCheck(t, ack, own), ResumeUpdate(t), ResumeSet(t), ResumeCopy(t)] + offers
        == [ResumeCheck(t, ack, own)] + ([ResumeUpdate(t)] + ([ResumeSet(t)] + ([ResumeCopy(t)] + offers)));
    assert s4.resumes - {t} == s.resumes;
  }

  /** In particular when no resume acknowledgement falls below the stored one: the window is the
      history from some point at or below the acknowledged count. */
  lemma {:induction false} MonotoneResume(states: seq<Session>, events: seq<Event>, i: nat)
    requires Trace(states, events) && i <= |events|
    requires forall j :: 0 <= j < i && events[j].ResumeSet? ==>
               states[j].window.serverAck <= states[j].resumes[events[j].t].ack
    ensures 0 <= Base(states[i]) <= states[i].window.serverAck
    ensures states[i].window.pending == states[i].history[Base(states[i])..]
    decreases i
  {
    TraceConsistent(states, events, i);
    if i == 0 {
    } else {
      MonotoneResume(states, events, i - 1);
      TraceConsistent(states, events, i - 1);
      StepKeepsConsistent(states[i - 1], events[i - 1]);
    }
  }

  /** What the resume test lets through, in terms of the history: anything up to the drift beyond its
      end, however far below the stored acknowledgement. */
  lemma CheckMeaning(s: Session, ack: int)
    requires Consistent(s)
    ensures CheckServerAck(s.window, ack) <==> ack <= s.window.clientAck && ack <= |s.history| + Drift(s)
  {}

  lemma Extend(states: seq<Session>, events: seq<Event>, e: Event)
    returns (states': seq<Session>, events': seq<Event>)
    requires Trace(states, events) && Enabled(states[|events|], e)
    ensures Trace(states', events') && |events'| == |events| + 1
    ensures states'[|events'|] == Step(states[|events|], e)
  {
    states', events' := states + [Step(states[|events|], e)], events + [e];
  }

  lemma SendAndAcknowledge(m: Item) returns (states: seq<Session>, events: seq<Event>)
    ensures Trace(states, events)
    ensures states[|events|] == START.(window := Window([], 1, 1, 0), history := [m], counted := map[0 := m])
  {
    states, events := [START], [];
    states, events := Extend(states, events, SendPush(0, m));
    states, events := Extend(states, events, SendCount(0));
    var s := states[|events|];
    assert s.window == Window([m], 0, 1, 0) && s.pushed == map[] && s.counted == map[0 := m];
    states, events := Extend(states, events, Acked(1));
  }

  /** So the test alone does not prevent a loss: here the client has acknowledged the only message and
      then resumes from 0. The acknowledgement passes, and the message is neither acknowledged nor
      pending any more. */
  lemma LowResumeLoses(m: Item) returns (states: seq<Session>, events: seq<Event>)
    ensures Trace(states, events) && !Lossless(states[|events|])
    ensures states[|events|].window == Window([], 0, 1, 1) && states[|events|].history == [m]
  {
    states, events := SendAndAcknowledge(m);
    states, events := Extend(states, events, ClientAcked);
    states, events := Extend(states, events, ResumeCheck(1, 0, false));
    states, events := Extend(states, events, ResumeUpdate(1));
    states, events := Extend(states, events, ResumeSet(1));
  }
}
