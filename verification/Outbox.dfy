/** network/tcp_net/conn.go, batchWriteLoop and SyncSend: one goroutine turns queued messages into
    batched writes while others write synchronously to the same socket and add to the queue. A
    schedule is a sequence of events in the order they happen; a single Write call is atomic, so the
    two Write calls of one loop turn are a place where synchronous writes can get in between. A write
    that fails may have sent some of its bytes; it ends the loop, but not the writes of others. */
module Outbox {
  import opened ByteOrder
  import opened Framing
  import opened Messages
  import opened Prelude

  const BATCH_SIZE := 8192

  /** `writes` is the sequence of buffers the socket took, `torn` what it took of one that failed,
      `later` the buffers it took after that; `closed` says that the connection is closed. */
  datatype Box = Box(
    queue: seq<Item>, batch: Bytes, writes: seq<Bytes>, running: bool,
    torn: Option<Bytes>, later: seq<Bytes>, closed: bool)

  /** What the socket answers to a Write: all taken, or an error after some of the bytes. */
  datatype Answer = Written | Failed(sent: nat)

  datatype Event =
    | Offered(item: Item)                     // another goroutine's non-blocking send to the queue
    | Synced(data: Bytes)                     // SyncSend by another goroutine
    | Receive(meanwhile: seq<Bytes>, flush: Answer, own: Answer)
                                              // a queued item arrives; synchronous writes before its own
    | Tick(flush: Answer)                     // the flush timer fires
    | Done(flush: Answer)                     // cancellation

  type Packer = ServerProto -> Option<Bytes>

  /** Is this an event that can happen in this state? */
  predicate Enabled(b: Box, e: Event) {
    match e
    case Offered(_) => true
    case Synced(_) => true
    case Receive(meanwhile, flush, _) => b.running && b.queue != [] && (flush.Failed? ==> meanwhile == [])
    case Tick(_) => b.running
    case Done(_) => b.running
  }

  function Step(b: Box, e: Event, pack: Packer): Box
    requires Enabled(b, e)
  {
    match e
    case Offered(item) => b.(queue := Offer(b.queue, item))
    case Synced(data) => Sync(b, data)
    case Receive(meanwhile, flush, own) =>
      Closing(AddToBatch(b.(queue := b.queue[1..]), Assemble(pack, b.queue[0]), meanwhile, flush, own))
    case Tick(flush) => Closing(Flush(b, flush))
    case Done(flush) => Flush(b, flush).(running := false)
  }

  /** A failed write closes the connection and ends the loop. */
  function Closing(b: Box): Box {
    if b.torn.Some? then b.(running := false, closed := true) else b
  }

  /** A write of another goroutine's that succeeds. */
  function Sync(b: Box, data: Bytes): Box {
    if b.torn.None? then b.(writes := b.writes + [data]) else b.(later := b.later + [data])
  }

  function Write(b: Box, data: Bytes, answer: Answer): Box {
    match answer
    case Written => b.(writes := b.writes + [data])
    case Failed(sent) => b.(torn := Some(if sent <= |data| then data[..sent] else data), later := [])
  }

  function Flush(b: Box, answer: Answer): Box {
    if |b.batch| > 0 then Write(b, b.batch, answer).(batch := if answer.Written? then [] else b.batch) else b
  }

  function AddToBatch(b: Box, assembled: Option<Bytes>, meanwhile: seq<Bytes>, flush: Answer, own: Answer): Box {
    match assembled
    case None => b.(writes := b.writes + meanwhile)
    case Some(data) =>
      if |b.batch| + |data| < BATCH_SIZE then
        b.(writes := b.writes + meanwhile, batch := b.batch + data)
      else
        var flushed := Flush(b, flush);
        if flushed.torn.Some? then flushed
        else Write(flushed.(writes := flushed.writes + meanwhile), data, own)
  }

  predicate Schedule(b: Box, events: seq<Event>, pack: Packer)
    decreases |events|
  {
    events == [] || (Enabled(b, events[0]) && Schedule(Step(b, events[0], pack), events[1..], pack))
  }

  function Run(b: Box, events: seq<Event>, pack: Packer): Box
    requires Schedule(b, events, pack)
    decreases |events|
  {
    if events == [] then b else Run(Step(b, events[0], pack), events[1..], pack)
  }

  const EMPTY := Box([], [], [], true, None, [], false)

  // ---------------------------------------------------------------- what the schedule supplies

  /** The items the queue took in, in order. */
  function AcceptedBy(b: Box, e: Event): seq<Item> {
    if e.Offered? && |b.queue| < QUEUE_SIZE then [e.item] else []
  }

  function ReceivedBy(b: Box, e: Event): seq<Item>
    requires Enabled(b, e)
  {
    if e.Receive? then [b.queue[0]] else []
  }

  function Packed(items: seq<Item>, pack: Packer): seq<Bytes> {
    if items == [] then []
    else
      var rest := Packed(items[1..], pack);
      match Assemble(pack, items[0])
      case None => rest
      case Some(data) => [data] + rest
  }

  function SyncedBy(e: Event): seq<Bytes> {
    match e
    case Synced(data) => [data]
    case Receive(meanwhile, _, _) => meanwhile
    case _ => []
  }

  function Accepted(b: Box, events: seq<Event>, pack: Packer): seq<Item>
    requires Schedule(b, events, pack)
    decreases |events|
  {
    if events == [] then []
    else AcceptedBy(b, events[0]) + Accepted(Step(b, events[0], pack), events[1..], pack)
  }

  function Received(b: Box, events: seq<Event>, pack: Packer): seq<Item>
    requires Schedule(b, events, pack)
    decreases |events|
  {
    if events == [] then []
    else ReceivedBy(b, events[0]) + Received(Step(b, events[0], pack), events[1..], pack)
  }

  function Syncs(events: seq<Event>): seq<Bytes> {
    if events == [] then [] else SyncedBy(events[0]) + Syncs(events[1..])
  }

  // ---------------------------------------------------------------- the queue is first in, first out

  lemma StepConserves(b: Box, e: Event, pack: Packer)
    requires Enabled(b, e)
    ensures b.queue + AcceptedBy(b, e) == ReceivedBy(b, e) + Step(b, e, pack).queue
  {
    match e
    case Receive(_, _, _) => assert b.queue == [b.queue[0]] + b.queue[1..];
    case _ =>
  }

  /** Nothing is lost, invented or reordered between the senders and the writer. */
  lemma {:induction false} QueueConserves(b: Box, events: seq<Event>, pack: Packer)
    requires Schedule(b, events, pack)
    ensures b.queue + Accepted(b, events, pack) == Received(b, events, pack) + Run(b, events, pack).queue
    decreases |events|
  {
    if events == [] {
    } else {
      var c, rest := Step(b, events[0], pack), events[1..];
      StepConserves(b, events[0], pack);
      QueueConserves(c, rest, pack);
      Regroup(b.queue, AcceptedBy(b, events[0]), Accepted(c, rest, pack));
      Regroup(ReceivedBy(b, events[0]), c.queue, Accepted(c, rest, pack));
      Regroup(ReceivedBy(b, events[0]), Received(c, rest, pack), Run(c, rest, pack).queue);
    }
  }

  // ---------------------------------------------------------------- one socket for life

  lemma AddAppends(b: Box, w: seq<Bytes>, data: Bytes, meanwhile: seq<Bytes>, flush: Answer, own: Answer)
    ensures AddToBatch(Onto(w, b), Some(data), meanwhile, flush, own)
         == Onto(w, AddToBatch(b, Some(data), meanwhile, flush, own))
  {
    Regroup(w, b.writes, meanwhile);
    Regroup(w, b.writes, [b.batch]);
    Regroup(w, b.writes + [b.batch], meanwhile);
    Regroup(w, Flush(b, flush).writes + meanwhile, [data]);
  }

  /** A connection keeps one socket from its creation to its end, so bytes are only ever added. */
  lemma StepAppends(b: Box, w: seq<Bytes>, e: Event, pack: Packer)
    requires Enabled(b, e)
    ensures Step(Onto(w, b), e, pack) == Onto(w, Step(b, e, pack))
  {
    match e
    case Offered(_) =>
    case Synced(data) => Regroup(w, b.writes, [data]);
    case Receive(meanwhile, flush, own) =>
      match Assemble(pack, b.queue[0]) {
        case None => Regroup(w, b.writes, meanwhile);
        case Some(data) => AddAppends(b.(queue := b.queue[1..]), w, data, meanwhile, flush, own);
      }
    case Tick(_) => Regroup(w, b.writes, [b.batch]);
    case Done(_) => Regroup(w, b.writes, [b.batch]);
  }

  function Onto(w: seq<Bytes>, b: Box): Box {
    b.(writes := w + b.writes)
  }

  lemma {:induction false} RunAppends(b: Box, w: seq<Bytes>, events: seq<Event>, pack: Packer)
    requires Schedule(Onto(w, b), events, pack)
    ensures Schedule(b, events, pack)
    ensures Run(Onto(w, b), events, pack) == Onto(w, Run(b, events, pack))
    ensures Accepted(Onto(w, b), events, pack) == Accepted(b, events, pack)
    ensures Received(Onto(w, b), events, pack) == Received(b, events, pack)
    decreases |events|
  {
    if events == [] {
    } else {
      StepAppends(b, w, events[0], pack);
      RunAppends(Step(b, events[0], pack), w, events[1..], pack);
    }
  }

  // ---------------------------------------------------------------- interleavings

  /** `w` is made of all of `a` and all of `b`, each in its own order. */
  predicate Interleaves<T(==)>(w: seq<T>, a: seq<T>, b: seq<T>) {
    if w == [] then a == [] && b == []
    else
      || (a != [] && w[0] == a[0] && Interleaves(w[1..], a[1..], b))
      || (b != [] && w[0] == b[0] && Interleaves(w[1..], a, b[1..]))
  }

  lemma {:induction false} InterleavesAppend<T>(w: seq<T>, a: seq<T>, b: seq<T>, more: seq<T>)
    requires Interleaves(w, a, b)
    ensures Interleaves(w + more, a + more, b) && Interleaves(w + more, a, b + more)
    decreases |w|, |more|
  {
    if w != [] {
      assert (w + more)[1..] == w[1..] + more;
      if a != [] && w[0] == a[0] && Interleaves(w[1..], a[1..], b) {
        InterleavesAppend(w[1..], a[1..], b, more);
        assert (a + more)[1..] == a[1..] + more;
      } else {
        InterleavesAppend(w[1..], a, b[1..], more);
        assert (b + more)[1..] == b[1..] + more;
      }
    } else if more != [] {
      InterleavesAppend(w, a, b, more[1..]);
      assert w + more == more && a + more == more && b + more == more;
      assert w + more[1..] == more[1..] && a + more[1..] == more[1..] && b + more[1..] == more[1..];
    } else {
      assert w + more == w && a + more == a && b + more == b;
    }
  }

  // ---------------------------------------------------------------- the wire

  /** The frames behind the bytes: those written, those still in the batch, the one whose own write
      failed, those written after a failed write, and the two streams the first ones come from. */
  datatype Account = Account(
    out: seq<Bytes>, held: seq<Bytes>, lost: seq<Bytes>, late: seq<Bytes>, sent: seq<Bytes>, synced: seq<Bytes>)

  const NOTHING := Account([], [], [], [], [], [])

  ghost predicate Accounts(b: Box, g: Account) {
    && ConcatAll(b.writes) == ConcatAll(g.out)
    && b.batch == ConcatAll(g.held)
    && Interleaves(g.out, g.sent, g.synced)
    && |b.batch| < BATCH_SIZE
    && (if b.torn.None? then g.lost == [] && g.late == []
        else |g.lost| <= 1 && b.torn.value <= ConcatAll(g.held + g.lost) && ConcatAll(b.later) == ConcatAll(g.late))
  }

  /** A failed write ends the loop. */
  predicate Sound(b: Box) {
    b.torn.Some? ==> !b.running
  }

  ghost function Release(b: Box, g: Account, answer: Answer): Account {
    if |b.batch| > 0 && answer.Written? then g.(out := g.out + g.held, held := [], sent := g.sent + g.held) else g
  }

  ghost function Mix(g: Account, frames: seq<Bytes>): Account {
    g.(out := g.out + frames, synced := g.synced + frames)
  }

  ghost function Send(g: Account, data: Bytes, answer: Answer): Account {
    if answer.Written?
    then g.(out := g.out + g.held + [data], sent := g.sent + g.held + [data], held := [])
    else g.(lost := [data])
  }

  lemma ReleaseAccounts(b: Box, g: Account, answer: Answer)
    requires Accounts(b, g) && b.torn.None?
    ensures Accounts(Flush(b, answer), Release(b, g, answer))
  {
    if answer.Written? {
      ConcatAppend(b.writes, [b.batch]);
      ConcatAppend(g.out, g.held);
      assert ConcatAll([b.batch]) == b.batch;
      InterleavesAppend(g.out, g.sent, g.synced, g.held);
    } else {
      assert g.held + g.lost == g.held;
    }
  }

  ghost function Other(b: Box, g: Account, data: Bytes): Account {
    if b.torn.None? then Mix(g, [data]) else g.(late := g.late + [data])
  }

  lemma OtherAccounts(b: Box, g: Account, data: Bytes)
    requires Accounts(b, g)
    ensures Accounts(Sync(b, data), Other(b, g, data))
  {
    if b.torn.None? {
      MixAccounts(b, g, [data]);
    } else {
      ConcatAppend(b.later, [data]);
      ConcatAppend(g.late, [data]);
    }
  }

  lemma MixAccounts(b: Box, g: Account, frames: seq<Bytes>)
    requires Accounts(b, g) && b.torn.None?
    ensures Accounts(b.(writes := b.writes + frames), Mix(g, frames))
  {
    ConcatAppend(b.writes, frames);
    ConcatAppend(g.out, frames);
    InterleavesAppend(g.out, g.sent, g.synced, frames);
  }

  /** A frame of its own, written when the batch bytes are already out. */
  lemma SendAccounts(b: Box, g: Account, data: Bytes, answer: Answer)
    requires Accounts(b, g) && b.batch == [] && b.torn.None?
    ensures Accounts(Write(b, data, answer), Send(g, data, answer))
  {
    assert ConcatAll([data]) == data;
    if answer.Written? {
      ConcatAppend(b.writes, [data]);
      ConcatAppend(g.out + g.held, [data]);
      ConcatAppend(g.out, g.held);
      InterleavesAppend(g.out, g.sent, g.synced, g.held);
      InterleavesAppend(g.out + g.held, g.sent + g.held, g.synced, [data]);
    } else {
      ConcatAppend(g.held, [data]);
    }
  }

  lemma HoldAccounts(b: Box, g: Account, data: Bytes)
    requires Accounts(b, g) && |b.batch| + |data| < BATCH_SIZE && b.torn.None?
    ensures Accounts(b.(batch := b.batch + data), g.(held := g.held + [data]))
  {
    ConcatAppend(g.held, [data]);
    assert ConcatAll([data]) == data;
  }

  ghost function Take(b: Box, g: Account, data: Bytes, meanwhile: seq<Bytes>, flush: Answer, own: Answer): Account {
    if |b.batch| + |data| < BATCH_SIZE then
      var h := Mix(g, meanwhile); h.(held := h.held + [data])
    else if Flush(b, flush).torn.Some? then g.(lost := [data])
    else Send(Mix(Release(b, g, flush), meanwhile), data, own)
  }

  /** What one event does to the account. */
  ghost function Enter(b: Box, g: Account, e: Event, pack: Packer): Account
    requires Enabled(b, e)
  {
    match e
    case Offered(_) => g
    case Synced(data) => Other(b, g, data)
    case Receive(meanwhile, flush, own) =>
      (match Assemble(pack, b.queue[0])
       case None => Mix(g, meanwhile)
       case Some(data) => Take(b, g, data, meanwhile, flush, own))
    case Tick(flush) => Release(b, g, flush)
    case Done(flush) => Release(b, g, flush)
  }

  lemma TakeAccounts(b: Box, g: Account, data: Bytes, meanwhile: seq<Bytes>, flush: Answer, own: Answer)
    requires Accounts(b, g) && b.torn.None?
    ensures Accounts(AddToBatch(b, Some(data), meanwhile, flush, own), Take(b, g, data, meanwhile, flush, own))
  {
    if |b.batch| + |data| < BATCH_SIZE {
      MixAccounts(b, g, meanwhile);
      HoldAccounts(b.(writes := b.writes + meanwhile), Mix(g, meanwhile), data);
    } else {
      var f, h := Flush(b, flush), Release(b, g, flush);
      ReleaseAccounts(b, g, flush);
      if f.torn.Some? {
        ConcatAppend(g.held, [data]);
        assert g.held + g.lost == g.held;
      } else {
        MixAccounts(f, h, meanwhile);
        SendAccounts(f.(writes := f.writes + meanwhile), Mix(h, meanwhile), data, own);
      }
    }
  }

  lemma EnterAccounts(b: Box, g: Account, e: Event, pack: Packer)
    requires Accounts(b, g) && Sound(b) && Enabled(b, e)
    ensures Accounts(Step(b, e, pack), Enter(b, g, e, pack)) && Sound(Step(b, e, pack))
  {
    match e
    case Offered(_) =>
    case Synced(data) => OtherAccounts(b, g, data);
    case Receive(meanwhile, flush, own) =>
      var c := b.(queue := b.queue[1..]);
      match Assemble(pack, b.queue[0]) {
        case None => MixAccounts(c, g, meanwhile);
        case Some(data) => TakeAccounts(c, g, data, meanwhile, flush, own);
      }
    case Tick(flush) => ReleaseAccounts(b, g, flush);
    case Done(flush) => ReleaseAccounts(b, g, flush);
  }

  /** The packed messages of an account, wherever they are by now. */
  ghost function AllPacked(g: Account): seq<Bytes> {
    g.sent + g.held + g.lost
  }

  ghost function AllSynced(g: Account): seq<Bytes> {
    g.synced + g.late
  }

  lemma TakeExtends(b: Box, g: Account, data: Bytes, meanwhile: seq<Bytes>, flush: Answer, own: Answer)
    requires b.torn.None? && g.lost == [] && g.late == [] && (flush.Failed? ==> meanwhile == [])
    ensures var h := Take(b, g, data, meanwhile, flush, own);
      AllPacked(h) == AllPacked(g) + [data] && h.synced == g.synced + meanwhile && h.late == []
  {
    assert g.sent + g.held + [data] == g.sent + (g.held + [data]);
  }

  /** The two streams only ever grow at their ends, by what the event supplies. */
  lemma EnterExtends(b: Box, g: Account, e: Event, pack: Packer)
    requires Accounts(b, g) && Sound(b) && Enabled(b, e)
    ensures var h := Enter(b, g, e, pack);
      AllPacked(h) == AllPacked(g) + Packed(ReceivedBy(b, e), pack) && AllSynced(h) == AllSynced(g) + SyncedBy(e)
  {
    match e
    case Receive(meanwhile, flush, own) =>
      match Assemble(pack, b.queue[0]) {
        case None =>
          assert Packed([b.queue[0]], pack) == Packed([b.queue[0]][1..], pack) == [];
        case Some(data) =>
          assert Packed([b.queue[0]], pack) == [data] + Packed([], pack);
          TakeExtends(b, g, data, meanwhile, flush, own);
      }
    case _ =>
  }

  lemma {:induction false} PackedAppend(a: seq<Item>, b: seq<Item>, pack: Packer)
    ensures Packed(a + b, pack) == Packed(a, pack) + Packed(b, pack)
    decreases |a|
  {
    if a == [] {
      assert a + b == b;
    } else {
      assert (a + b)[1..] == a[1..] + b;
      PackedAppend(a[1..], b, pack);
    }
  }

  lemma {:induction false} RunAccounts(b: Box, g: Account, events: seq<Event>, pack: Packer) returns (h: Account)
    requires Schedule(b, events, pack) && Accounts(b, g) && Sound(b)
    ensures Accounts(Run(b, events, pack), h) && Sound(Run(b, events, pack))
    ensures AllPacked(h) == AllPacked(g) + Packed(Received(b, events, pack), pack)
    ensures AllSynced(h) == AllSynced(g) + Syncs(events)
    decreases |events|
  {
    if events == [] {
      h := g;
    } else {
      var e := events[0];
      var next := Enter(b, g, e, pack);
      EnterAccounts(b, g, e, pack);
      EnterExtends(b, g, e, pack);
      h := RunAccounts(Step(b, e, pack), next, events[1..], pack);
      var now, later := ReceivedBy(b, e), Received(Step(b, e, pack), events[1..], pack);
      PackedAppend(now, later, pack);
      Regroup(AllPacked(g), Packed(now, pack), Packed(later, pack));
      Regroup(AllSynced(g), SyncedBy(e), Syncs(events[1..]));
    }
  }

  /** How the bytes of a box are made up: the frames written are an interleaving of the first packed
      messages and the first synchronous frames; the next packed messages are still in the batch; after a
      failed write, what the socket took of it is the front of those, or of the one that was to follow,
      and what it took then is the other synchronous frames. */
  ghost predicate Layout(b: Box, g: Account, packed: seq<Bytes>, syncs: seq<Bytes>) {
    Accounts(b, g) && AllPacked(g) == packed && AllSynced(g) == syncs
  }

  lemma RunHasLayout(events: seq<Event>, pack: Packer) returns (g: Account)
    requires Schedule(EMPTY, events, pack)
    ensures Layout(Run(EMPTY, events, pack), g, Packed(Received(EMPTY, events, pack), pack), Syncs(events))
  {
    g := RunAccounts(EMPTY, NOTHING, events, pack);
  }

  /** For every schedule and whatever the socket answers: the bytes written are whole frames, an
      interleaving of the packed messages and the synchronous frames with each stream in its own order;
      the bytes still in the batch are whole frames too, the next packed messages; the batch stays under
      its limit; a failed write leaves at most one more message behind; and only synchronous frames
      follow it. */
  lemma WireIntegrity(events: seq<Event>, pack: Packer)
    requires Schedule(EMPTY, events, pack)
    ensures exists g ::
              Layout(Run(EMPTY, events, pack), g, Packed(Received(EMPTY, events, pack), pack), Syncs(events))
  {
    var g := RunHasLayout(events, pack);
  }

  /** The timer, and a cancellation, put the whole batch on the wire if the socket takes it. */
  lemma FlushDrains(b: Box, e: Event, pack: Packer)
    requires Enabled(b, e) && Sound(b) && (e == Tick(Written) || e == Done(Written))
    ensures Step(b, e, pack).batch == [] && Step(b, e, pack).torn == None
    ensures ConcatAll(Step(b, e, pack).writes) == ConcatAll(b.writes) + b.batch
  {
    ConcatAppend(b.writes, [b.batch]);
    assert ConcatAll([b.batch]) == b.batch;
  }

  // ---------------------------------------------------------------- what one event writes, and when it ends the loop

  /** A message of one kind or the other is packed like this; packing is done message by message. */
  lemma PackedOne(item: Item, pack: Packer)
    ensures Packed([item], pack)
         == match item
            case Raw(data) => [data]
            case Message(proto) => (if pack(proto).Some? then [pack(proto).value] else [])
            case Unknown => []
  {
    assert [item][1..] == [];
  }

  /** What the socket took of a buffer. */
  function Part(data: Bytes, sent: nat): Bytes {
    if sent <= |data| then data[..sent] else data
  }

  /** What a received message of `data` does when no write fails: below the limit it waits in the batch,
      and from the limit on everything goes out, the batch first. */
  lemma ReceiveWrites(b: Box, meanwhile: seq<Bytes>, data: Bytes, pack: Packer)
    requires b.running && b.torn.None? && b.queue != [] && Packed([b.queue[0]], pack) == [data]
    ensures var c := Step(b, Receive(meanwhile, Written, Written), pack);
      && c.queue == b.queue[1..] && c.running
      && (if |b.batch| + |data| < 8192
          then c.batch == b.batch + data && c.writes == b.writes + meanwhile
          else c.batch == [] && ConcatAll(c.writes) == ConcatAll(b.writes) + b.batch + ConcatAll(meanwhile) + data
               && |c.writes| == |b.writes| + |meanwhile| + if b.batch == [] then 1 else 2)
  {
    PackedOne(b.queue[0], pack);
    var flushed := if b.batch == [] then b.writes else b.writes + [b.batch];
    ConcatAppend(b.writes, [b.batch]);
    ConcatAppend(flushed, meanwhile);
    ConcatAppend(flushed + meanwhile, [data]);
    assert ConcatAll([b.batch]) == b.batch && ConcatAll([data]) == data;
  }

  /** What cannot be packed is dropped. */
  lemma ReceiveDrops(b: Box, meanwhile: seq<Bytes>, flush: Answer, own: Answer, pack: Packer)
    requires Enabled(b, Receive(meanwhile, flush, own)) && Sound(b) && Packed([b.queue[0]], pack) == []
    ensures Step(b, Receive(meanwhile, flush, own), pack) == b.(queue := b.queue[1..], writes := b.writes + meanwhile)
  {
    PackedOne(b.queue[0], pack);
  }

  /** Does a write of the writer's fail in this step? */
  predicate Fails(b: Box, e: Event, pack: Packer)
    requires Enabled(b, e)
  {
    match e
    case Receive(_, flush, own) =>
      var packed := Packed([b.queue[0]], pack);
      packed != [] && |b.batch| + |packed[0]| >= 8192 && ((b.batch != [] && flush.Failed?) || own.Failed?)
    case Tick(flush) => b.batch != [] && flush.Failed?
    case Done(flush) => b.batch != [] && flush.Failed?
    case _ => false
  }

  /** The loop goes on unless it is cancelled or a write fails. */
  lemma StepGoesOn(b: Box, e: Event, pack: Packer)
    requires Enabled(b, e) && b.running && b.torn.None?
    ensures var c := Step(b, e, pack);
      && (c.torn.Some? <==> Fails(b, e, pack))
      && (c.running <==> !e.Done? && !Fails(b, e, pack))
      && (c.closed <==> b.closed || (Fails(b, e, pack) && !e.Done?))
  {
    if e.Receive? {
      PackedOne(b.queue[0], pack);
    }
  }

  /** What the socket has of a write that failed is the front of the buffer that was being written, and
      the batch stays as it is unless it went out before. */
  lemma FailureLeaves(b: Box, e: Event, pack: Packer)
    requires Enabled(b, e) && b.torn.None? && Fails(b, e, pack)
    ensures var c := Step(b, e, pack);
      match e
      case Receive(meanwhile, flush, own) =>
        if b.batch != [] && flush.Failed?
        then c.torn == Some(Part(b.batch, flush.sent)) && c.batch == b.batch && c.writes == b.writes
        else c.torn == Some(Part(Packed([b.queue[0]], pack)[0], own.sent)) && c.batch == []
             && c.writes == (if b.batch == [] then b.writes else b.writes + [b.batch]) + meanwhile
      case Tick(flush) => c.torn == Some(Part(b.batch, flush.sent)) && c.batch == b.batch && c.writes == b.writes
      case Done(flush) => c.torn == Some(Part(b.batch, flush.sent)) && c.batch == b.batch && c.writes == b.writes
      case _ => true
  {
    if e.Receive? {
      PackedOne(b.queue[0], pack);
    }
  }

  /** Is there a step of the run in which a write fails, other than in answer to a cancellation? */
  predicate FailsBefore(b: Box, events: seq<Event>, pack: Packer)
    requires Schedule(b, events, pack)
    decreases |events|
  {
    events != [] &&
    ((Fails(b, events[0], pack) && !events[0].Done?) || FailsBefore(Step(b, events[0], pack), events[1..], pack))
  }

  /** On every schedule: the loop is still running exactly when it was not cancelled and no write failed,
      and the writer has closed the connection exactly when a write failed before a cancellation. */
  lemma {:induction false} LoopGoesOn(b: Box, events: seq<Event>, pack: Packer)
    requires Schedule(b, events, pack) && b.running && b.torn.None?
    ensures var c := Run(b, events, pack);
      && (c.running <==> (forall e :: e in events ==> !e.Done?) && !FailsBefore(b, events, pack))
      && (c.closed <==> b.closed || FailsBefore(b, events, pack))
    decreases |events|
  {
    if events != [] {
      var e, rest := events[0], events[1..];
      var c := Step(b, e, pack);
      assert events == [e] + rest;
      StepGoesOn(b, e, pack);
      if c.running {
        LoopGoesOn(c, rest, pack);
      } else {
        EndedLoopIsSilent(c, rest, pack);
        NothingFailsLater(c, rest, pack);
      }
    }
  }

  lemma {:induction false} NothingFailsLater(b: Box, events: seq<Event>, pack: Packer)
    requires Schedule(b, events, pack) && !b.running
    ensures !FailsBefore(b, events, pack) && Run(b, events, pack).closed == b.closed
    decreases |events|
  {
    if events != [] {
      NothingFailsLater(Step(b, events[0], pack), events[1..], pack);
    }
  }

  /** A failure is never made up for. */
  lemma {:induction false} TornStays(b: Box, events: seq<Event>, pack: Packer)
    requires Schedule(b, events, pack) && b.torn.Some?
    ensures Run(b, events, pack).torn.Some?
    decreases |events|
  {
    if events == [] {
    } else {
      TornStays(Step(b, events[0], pack), events[1..], pack);
    }
  }

  /** Once the loop has ended nothing of the queue or the batch is written any more: all that the socket
      can still take is what other goroutines write themselves. */
  lemma {:induction false} EndedLoopIsSilent(b: Box, events: seq<Event>, pack: Packer)
    requires Schedule(b, events, pack) && !b.running
    ensures var c := Run(b, events, pack);
      && !c.running && c.batch == b.batch && c.torn == b.torn && Received(b, events, pack) == []
      && (b.torn.Some? ==> c.writes == b.writes && c.later == b.later + Syncs(events))
      && (b.torn.None? ==> c.writes == b.writes + Syncs(events))
    decreases |events|
  {
    if events == [] {
      assert b.later + [] == b.later && b.writes + [] == b.writes;
    } else {
      EndedLoopIsSilent(Step(b, events[0], pack), events[1..], pack);
      Regroup(b.later, SyncedBy(events[0]), Syncs(events[1..]));
      Regroup(b.writes, SyncedBy(events[0]), Syncs(events[1..]));
      assert b.later + [] == b.later && b.writes + [] == b.writes;
    }
  }

  lemma {:induction false} InterleavedFrom<T>(w: seq<T>, a: seq<T>, b: seq<T>)
    requires Interleaves(w, a, b)
    ensures forall x :: x in w ==> x in a || x in b
    decreases |w|
  {
    if w == [] {
    } else if a != [] && w[0] == a[0] && Interleaves(w[1..], a[1..], b) {
      InterleavedFrom(w[1..], a[1..], b);
    } else {
      InterleavedFrom(w[1..], a, b[1..]);
    }
  }

  /** All the bytes that reach the peer. */
  function Wire(b: Box): Bytes {
    ConcatAll(b.writes) + if b.torn.Some? then b.torn.value + ConcatAll(b.later) else []
  }

  /** The frames that a failed write may have begun with. */
  ghost function Next(g: Account): seq<Bytes> {
    g.held + g.lost
  }

  /** What the peer's reader makes of those bytes: first the frames written, then those of the failed write
      that are complete. If the failed write stopped between two frames, or nothing was written after it,
      the others follow, and that is all. */
  ghost predicate ReadsBack(b: Box, g: Account, accepts: Bytes -> bool)
    requires Accounts(b, g)
  {
    && AllFrames(g.out, accepts) && AllFrames(Next(g), accepts) && AllFrames(g.late, accepts)
    && var (bodies, end) := Read(Wire(b), accepts);
       if b.torn.None? then bodies == Bodies(g.out) && end == AtEof
       else
         var done := Next(g)[..Completed(Next(g), b.torn.value)];
         && AllFrames(done, accepts) && Bodies(g.out) + Bodies(done) <= bodies
         && (g.late == [] || b.torn.value == ConcatAll(done) ==>
               bodies == Bodies(g.out) + (Bodies(done) + Bodies(g.late)) && RanOut(end))
  }

  lemma LayoutIsFramed(g: Account, packed: seq<Bytes>, syncs: seq<Bytes>, accepts: Bytes -> bool)
    requires AllPacked(g) == packed && Interleaves(g.out, g.sent, g.synced) && AllSynced(g) == syncs
    requires AllFrames(packed, accepts) && AllFrames(syncs, accepts)
    ensures AllFrames(g.out, accepts) && AllFrames(Next(g), accepts) && AllFrames(g.late, accepts)
  {
    InterleavedFrom(g.out, g.sent, g.synced);
    assert forall f :: f in g.sent || f in Next(g) ==> f in packed;
    assert forall f :: f in g.synced || f in g.late ==> f in syncs;
  }

  lemma WireReads(b: Box, g: Account, accepts: Bytes -> bool)
    requires Accounts(b, g)
    requires AllFrames(g.out, accepts) && AllFrames(Next(g), accepts) && AllFrames(g.late, accepts)
    ensures ReadsBack(b, g, accepts)
  {
    if b.torn.None? {
      ReadWhole(g.out, accepts);
      assert Wire(b) == ConcatAll(g.out);
    } else {
      var rest := b.torn.value + ConcatAll(g.late);
      TornThenMore(Next(g), b.torn.value, g.late, accepts);
      FramesReadBack(g.out, rest, accepts);
      assert Wire(b) == ConcatAll(g.out) + rest;
    }
  }

  /** End to end: when Pack and the callers of SyncSend emit length-prefixed frames, readLoop on the
      other side delivers the body of every frame written so far, in order, and then waits for more.
      After a failed write it goes on with the complete frames of that, and then with the frames written
      later if there are none or if the failed write stopped between two frames. (When it stopped inside
      one there is no such promise: Framing.TearHarmless.) */
  lemma WireIsReadBack(events: seq<Event>, pack: Packer, accepts: Bytes -> bool)
    requires Schedule(EMPTY, events, pack)
    requires AllFrames(Packed(Received(EMPTY, events, pack), pack), accepts) && AllFrames(Syncs(events), accepts)
    ensures exists g ::
              && Layout(Run(EMPTY, events, pack), g, Packed(Received(EMPTY, events, pack), pack), Syncs(events))
              && ReadsBack(Run(EMPTY, events, pack), g, accepts)
  {
    var g := RunHasLayout(events, pack);
    LayoutIsFramed(g, Packed(Received(EMPTY, events, pack), pack), Syncs(events), accepts);
    WireReads(Run(EMPTY, events, pack), g, accepts);
  }
}
