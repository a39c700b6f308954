/** The reliable send path end to end: the window, the queue, the writer and the reader together. */
module Resume {
  import opened ByteOrder
  import opened Framing
  import opened Messages
  import opened Outbox
  import opened Prelude
  import SendWindow

  /** Nothing is waiting to be written and no write has failed. */
  predicate Drained(b: Box) {
    b.queue == [] && b.batch == [] && b.torn == None
  }

  /** A running writer whose writes succeed gets there: one turn for each item, and the timer. */
  lemma {:induction false} WriterCanDrain(b: Box, pack: Packer) returns (events: seq<Event>)
    requires b.running && b.torn.None?
    ensures Schedule(b, events, pack) && Drained(Run(b, events, pack))
    ensures |events| == |b.queue| + 1 && Syncs(events) == []
    decreases |b.queue|
  {
    var e := if b.queue == [] then Tick(Written) else Receive([], Written, Written);
    StepGoesOn(b, e, pack);
    if b.queue == [] {
      events := [e];
      assert events[1..] == [];
    } else {
      var rest := WriterCanDrain(Step(b, e, pack), pack);
      events := [e] + rest;
      assert events[1..] == rest;
    }
  }

  lemma DrainedFrames(h: Account, packed: seq<Bytes>, syncs: seq<Bytes>) returns (out: seq<Bytes>)
    requires AllPacked(h) == packed && h.synced == syncs && Interleaves(h.out, h.sent, h.synced)
    requires ConcatAll(h.held) == [] && h.lost == []
    ensures ConcatAll(out) == ConcatAll(h.out) && Interleaves(out, packed, syncs)
  {
    out := h.out + h.held;
    InterleavesAppend(h.out, h.sent, h.synced, h.held);
    ConcatAppend(h.out, h.held);
    assert h.sent + h.held + h.lost == h.sent + h.held;
  }

  lemma DrainedSince(b: Box, held: seq<Bytes>, events: seq<Event>, pack: Packer) returns (out: seq<Bytes>)
    requires b.writes == [] && b.torn == None && b.batch == ConcatAll(held) && |b.batch| < BATCH_SIZE
    requires Schedule(b, events, pack) && Drained(Run(b, events, pack))
    ensures ConcatAll(Run(b, events, pack).writes) == ConcatAll(out)
    ensures Interleaves(out, held + Packed(b.queue + Accepted(b, events, pack), pack), Syncs(events))
  {
    var g := NOTHING.(held := held);
    var h := RunAccounts(b, g, events, pack);
    QueueConserves(b, events, pack);
    var received := Received(b, events, pack);
    assert received + [] == received;
    assert AllPacked(g) == held && g.synced + Syncs(events) == Syncs(events);
    out := DrainedFrames(h, held + Packed(received, pack), Syncs(events));
  }

  /** A writer at any moment of its life, with whole frames `held` in its batch, that from then on gets
      its queue and batch empty: what it has put on the wire since is the held frames, then the queue's
      messages, then those accepted meanwhile, in order, between the synchronous frames. */
  lemma DrainedQueueIsOnTheWire(b: Box, held: seq<Bytes>, events: seq<Event>, pack: Packer)
    returns (out: seq<Bytes>)
    requires b.batch == ConcatAll(held) && |b.batch| < BATCH_SIZE
    requires Schedule(b, events, pack) && Drained(Run(b, events, pack))
    ensures b.torn == None
    ensures ConcatAll(Run(b, events, pack).writes) == ConcatAll(b.writes) + ConcatAll(out)
    ensures Interleaves(out, held + Packed(b.queue + Accepted(b, events, pack), pack), Syncs(events))
  {
    if b.torn.Some? {
      TornStays(b, events, pack);
    }
    var now := b.(writes := []);
    assert Onto(b.writes, now) == b by { assert b.writes + [] == b.writes; }
    RunAppends(now, b.writes, events, pack);
    out := DrainedSince(now, held, events, pack);
    ConcatAppend(b.writes, Run(now, events, pack).writes);
  }

  // ---------------------------------------------------------------- subsequences, from items to bodies

  lemma {:induction false} InterleavingHolds<T>(w: seq<T>, a: seq<T>, b: seq<T>)
    requires Interleaves(w, a, b)
    ensures Subsequence(a, w)
    decreases |w|
  {
    if w == [] {
    } else if a != [] && w[0] == a[0] && Interleaves(w[1..], a[1..], b) {
      InterleavingHolds(w[1..], a[1..], b);
    } else {
      InterleavingHolds(w[1..], a, b[1..]);
    }
  }

  lemma {:induction false} SubsequencePacked(a: seq<Item>, b: seq<Item>, pack: Packer)
    requires Subsequence(a, b)
    ensures Subsequence(Packed(a, pack), Packed(b, pack))
    decreases |b|
  {
    if b == [] {
    } else if a != [] && a[0] == b[0] && Subsequence(a[1..], b[1..]) {
      SubsequencePacked(a[1..], b[1..], pack);
    } else {
      SubsequencePacked(a, b[1..], pack);
    }
  }

  lemma {:induction false} SubsequenceBodies(a: seq<Bytes>, b: seq<Bytes>, accepts: Bytes -> bool)
    requires Subsequence(a, b) && AllFrames(b, accepts)
    ensures AllFrames(a, accepts) && Subsequence(Bodies(a), Bodies(b))
    decreases |b|
  {
    if b == [] {
    } else if a != [] && a[0] == b[0] && Subsequence(a[1..], b[1..]) {
      SubsequenceBodies(a[1..], b[1..], accepts);
      assert a == [a[0]] + a[1..];
    } else {
      SubsequenceBodies(a, b[1..], accepts);
    }
  }

  // ---------------------------------------------------------------- resume, end to end

  /** The accepted messages above the acknowledged count. */
  function Unacknowledged(s: SendWindow.Session): seq<Item> {
    if 0 <= s.window.serverAck <= |s.history| then s.history[s.window.serverAck..] else []
  }

  /** The writer is offered what the session's senders and replays put on the queue, and goes on until
      nothing is left. */
  ghost predicate Drains(states: seq<SendWindow.Session>, events: seq<SendWindow.Event>,
                         schedule: seq<Event>, pack: Packer)
  {
    && SendWindow.Trace(states, events) && Schedule(EMPTY, schedule, pack)
    && Accepted(EMPTY, schedule, pack) == SendWindow.Enqueued(states, events, 0, |events|)
    && Drained(Run(EMPTY, schedule, pack))
  }

  lemma PendingHolds(s: SendWindow.Session)
    requires SendWindow.Consistent(s) && SendWindow.Lossless(s)
    ensures Subsequence(Unacknowledged(s), s.window.pending)
  {
    var k := s.window.serverAck - SendWindow.Base(s);
    var pending := s.window.pending;
    if s.window.serverAck <= |s.history| {
      assert Unacknowledged(s) == pending[k..];
      SubsequenceOfSelf(pending[k..]);
      SubsequencePrepends(pending[..k], pending[k..], pending[k..]);
      assert pending == pending[..k] + pending[k..];
    } else {
      SubsequenceOfSelf(pending);
      SubsequencePrepends(pending, [], []);
      assert pending + [] == pending;
    }
  }

  lemma SubsequenceAfter(before: seq<Item>, a: seq<Item>, b: seq<Item>, all: seq<Item>)
    requires before <= all && Subsequence(a, b) && Subsequence(b, all[|before|..])
    ensures Subsequence(before + a, all)
  {
    SubsequenceTransitive(a, b, all[|before|..]);
    SubsequencePrepends(before, a, all[|before|..]);
    assert all == before + all[|before|..];
  }

  /** What a complete replay adds to the writer's input. */
  lemma ReplayReachesWriter(states: seq<SendWindow.Session>, events: seq<SendWindow.Event>, c: nat, i: nat,
                            t: SendWindow.Thread)
    requires SendWindow.CompleteReplay(states, events, c, i, t) && SendWindow.Lossless(states[c])
    ensures Subsequence(SendWindow.Enqueued(states, events, 0, c) + Unacknowledged(states[c]),
                        SendWindow.Enqueued(states, events, 0, |events|))
  {
    SendWindow.CompleteReplayIsQueued(states, events, c, i, t);
    SendWindow.QueueIsEnqueued(states, events, |events|);
    SendWindow.TraceConsistent(states, events, c);
    PendingHolds(states[c]);
    SubsequenceAfter(SendWindow.Enqueued(states, events, 0, c), Unacknowledged(states[c]), states[c].window.pending,
                     SendWindow.Enqueued(states, events, 0, |events|));
  }

  /** A writer that drains the session's queue, and the peer's reader. */
  lemma DrainedIsRead(items: seq<Item>, schedule: seq<Event>, pack: Packer, accepts: Bytes -> bool)
    requires Schedule(EMPTY, schedule, pack) && Drained(Run(EMPTY, schedule, pack))
    requires Subsequence(items, Accepted(EMPTY, schedule, pack))
    requires AllFrames(Packed(Accepted(EMPTY, schedule, pack), pack), accepts) && AllFrames(Syncs(schedule), accepts)
    ensures var (bodies, end) := Read(Wire(Run(EMPTY, schedule, pack)), accepts);
      && end == AtEof && AllFrames(Packed(items, pack), accepts)
      && Subsequence(Bodies(Packed(items, pack)), bodies)
  {
    var accepted := Accepted(EMPTY, schedule, pack);
    var out := DrainedQueueIsOnTheWire(EMPTY, [], schedule, pack);
    var packed := Packed(accepted, pack);
    assert [] + accepted == accepted && [] + packed == packed;
    InterleavedFrom(out, packed, Syncs(schedule));
    ReadWhole(out, accepts);
    assert Wire(Run(EMPTY, schedule, pack)) == ConcatAll(out);
    SubsequencePacked(items, accepted, pack);
    InterleavingHolds(out, packed, Syncs(schedule));
    SubsequenceTransitive(Packed(items, pack), packed, out);
    SubsequenceBodies(Packed(items, pack), out, accepts);
  }

  /** End to end, with senders, acknowledgements, other handlers and the writer running between any two
      steps of the replay: when nothing unacknowledged was lost before the window was copied, the replay
      came to its end without meeting a full queue, and the writer has drained its queue, the peer of the
      connection replayed on has read, in this order and perhaps among other messages, what was queued
      before the copy and then every message that was not acknowledged. (The handler replays on the
      connection it found for the token. When the token came in on another one, that peer is not the
      client that resumes.) */
  lemma UnacknowledgedIsDelivered(states: seq<SendWindow.Session>, events: seq<SendWindow.Event>, c: nat, i: nat,
                                  t: SendWindow.Thread, schedule: seq<Event>, pack: Packer, accepts: Bytes -> bool)
    requires SendWindow.CompleteReplay(states, events, c, i, t) && SendWindow.Lossless(states[c])
    requires Drains(states, events, schedule, pack)
    requires AllFrames(Packed(Accepted(EMPTY, schedule, pack), pack), accepts) && AllFrames(Syncs(schedule), accepts)
    ensures var (bodies, end) := Read(Wire(Run(EMPTY, schedule, pack)), accepts);
      var due := Packed(SendWindow.Enqueued(states, events, 0, c) + Unacknowledged(states[c]), pack);
      end == AtEof && AllFrames(due, accepts) && Subsequence(Bodies(due), bodies)
  {
    ReplayReachesWriter(states, events, c, i, t);
    DrainedIsRead(SendWindow.Enqueued(states, events, 0, c) + Unacknowledged(states[c]), schedule, pack, accepts);
  }

  lemma {:induction false} PackedContains(items: seq<Item>, pack: Packer, item: Item, frame: Bytes)
    requires item in items && Assemble(pack, item) == Some(frame)
    ensures frame in Packed(items, pack)
    decreases |items|
  {
    if items[0] != item {
      PackedContains(items[1..], pack, item, frame);
    }
  }

  /** In particular the body of each message that was not acknowledged. */
  lemma EachIsDelivered(states: seq<SendWindow.Session>, events: seq<SendWindow.Event>, c: nat, i: nat,
                        t: SendWindow.Thread, schedule: seq<Event>, pack: Packer, accepts: Bytes -> bool,
                        k: nat, frame: Bytes)
    requires SendWindow.CompleteReplay(states, events, c, i, t) && SendWindow.Lossless(states[c])
    requires Drains(states, events, schedule, pack)
    requires AllFrames(Packed(Accepted(EMPTY, schedule, pack), pack), accepts) && AllFrames(Syncs(schedule), accepts)
    requires states[c].window.serverAck <= k < |states[c].history|
    requires Assemble(pack, states[c].history[k]) == Some(frame)
    ensures |frame| >= HEAD_LEN && Body(frame) in Read(Wire(Run(EMPTY, schedule, pack)), accepts).0
  {
    var s := states[c];
    SendWindow.TraceConsistent(states, events, c);
    var items := SendWindow.Enqueued(states, events, 0, c) + Unacknowledged(s);
    assert Unacknowledged(s)[k - s.window.serverAck] == s.history[k];
    PackedContains(items, pack, s.history[k], frame);
    UnacknowledgedIsDelivered(states, events, c, i, t, schedule, pack, accepts);
    var j :| 0 <= j < |Packed(items, pack)| && Packed(items, pack)[j] == frame;
    assert Bodies(Packed(items, pack))[j] == Body(frame);
    var bodies := Read(Wire(Run(EMPTY, schedule, pack)), accepts).0;
    SubsequenceCounts(Bodies(Packed(items, pack)), bodies);
    assert Body(frame) in multiset(Bodies(Packed(items, pack)));
    assert Body(frame) in multiset(bodies);
  }
}
