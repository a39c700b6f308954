/** database/shard_manager.go, ShardExecutor: a bounded queue that any goroutine may submit to, and one
    loop that collects events into batches and writes them. A schedule is a sequence of events in the
    order they happen. Submissions while a batch is being written only touch the queue, so they can
    stand after the loop's event. What BulkWrite answers is an input. */
module ShardExecutor {
  import opened Prelude

  /** `model` stands for the mongo.WriteModel; no callback is None. */
  datatype WriteEvent = WriteEvent(model: int, callback: Option<int>)

  type WriteError = Option<int>

  datatype Batch = Batch(models: seq<int>, events: seq<WriteEvent>, error: WriteError)

  /** One run of a callback. A panicking callback has run too: the panic is recovered. */
  datatype Call = Call(callback: int, error: WriteError)

  /** The queue, the loop's two slices, and the record of what it has done. */
  datatype Exec = Exec(
    queue: seq<WriteEvent>, buffer: seq<int>, events: seq<WriteEvent>, running: bool,
    batches: seq<Batch>, calls: seq<Call>, accepted: seq<WriteEvent>)

  const FRESH := Exec([], [], [], true, [], [], [])

  datatype Sizes = Sizes(batchSize: nat, queueSize: nat)

  datatype Step =
    | Submit(evt: WriteEvent)                     // another goroutine's non-blocking send
    | Handover(evt: WriteEvent, error: WriteError) // a send that meets the loop waiting on an empty queue
    | Receive(error: WriteError)                  // the loop takes the oldest event
    | Tick(error: WriteError)                     // the ticker fires
    | Cancel(error: WriteError)                   // ctx.Done

  predicate Enabled(x: Exec, s: Step) {
    match s
    case Submit(_) => true
    case Handover(_, _) => x.running && x.queue == []
    case Receive(_) => x.running && x.queue != []
    case Tick(_) => x.running
    case Cancel(_) => x.running
  }

  function Take(z: Sizes, x: Exec, s: Step): Exec
    requires Enabled(x, s)
  {
    match s
    case Submit(evt) =>
      if |x.queue| < z.queueSize then x.(queue := x.queue + [evt], accepted := x.accepted + [evt]) else x
    case Handover(evt, error) => Collect(z, x.(accepted := x.accepted + [evt]), evt, error)
    case Receive(error) => Collect(z, x.(queue := x.queue[1..]), x.queue[0], error)
    case Tick(error) => Flush(x, error)
    case Cancel(error) => Flush(x, error).(running := false)
  }

  function Collect(z: Sizes, x: Exec, evt: WriteEvent, error: WriteError): Exec {
    var y := x.(buffer := x.buffer + [evt.model], events := x.events + [evt]);
    if |y.buffer| >= z.batchSize then Flush(y, error) else y
  }

  function Flush(x: Exec, error: WriteError): Exec {
    if x.buffer == [] then x
    else x.(batches := x.batches + [Batch(x.buffer, x.events, error)], calls := x.calls + CallsOf(x.events, error),
            buffer := [], events := [])
  }

  function CallsOf(events: seq<WriteEvent>, error: WriteError): seq<Call> {
    if events == [] then []
    else
      (if events[0].callback.Some? then [Call(events[0].callback.value, error)] else []) + CallsOf(events[1..], error)
  }

  /** Which events of a batch have a callback, by index and in order. */
  predicate WithCallback(events: seq<WriteEvent>, js: seq<nat>) {
    && (forall k :: 0 <= k < |js| ==> js[k] < |events| && events[js[k]].callback.Some?)
    && (forall k, l :: 0 <= k < l < |js| ==> js[k] < js[l])
    && (forall j :: 0 <= j < |events| && events[j].callback.Some? ==> j in js)
  }

  /** Exactly these callbacks ran, in this order, each with the given error. */
  predicate RanWith(events: seq<WriteEvent>, js: seq<nat>, error: WriteError, calls: seq<Call>)
    requires WithCallback(events, js)
  {
    |calls| == |js| && forall k :: 0 <= k < |js| ==> calls[k] == Call(events[js[k]].callback.value, error)
  }

  function Shifted(js: seq<nat>): (r: seq<nat>)
    ensures |r| == |js| && forall k :: 0 <= k < |js| ==> r[k] == js[k] + 1
  {
    seq(|js|, k requires 0 <= k < |js| => js[k] + 1)
  }

  lemma ConsWithCallback(e: WriteEvent, rest: seq<WriteEvent>, js: seq<nat>)
    requires WithCallback(rest, js)
    ensures WithCallback([e] + rest, (if e.callback.Some? then [0] else []) + Shifted(js))
  {
    var all := (if e.callback.Some? then [0] else []) + Shifted(js);
    forall j | 0 <= j < |[e] + rest| && ([e] + rest)[j].callback.Some?
      ensures j in all
    {
      if j > 0 {
        assert rest[j - 1].callback.Some?;
        var k :| 0 <= k < |js| && js[k] == j - 1;
        assert Shifted(js)[k] == j;
      }
    }
  }

  lemma ConsRanWith(e: WriteEvent, rest: seq<WriteEvent>, js: seq<nat>, error: WriteError, calls: seq<Call>)
    requires WithCallback(rest, js) && RanWith(rest, js, error, calls)
    requires WithCallback([e] + rest, (if e.callback.Some? then [0] else []) + Shifted(js))
    ensures RanWith([e] + rest, (if e.callback.Some? then [0] else []) + Shifted(js), error,
                    (if e.callback.Some? then [Call(e.callback.value, error)] else []) + calls)
  {}

  lemma {:induction false} CallsAreOfThese(events: seq<WriteEvent>, error: WriteError) returns (js: seq<nat>)
    ensures WithCallback(events, js) && RanWith(events, js, error, CallsOf(events, error))
    decreases |events|
  {
    if events == [] {
      js := [];
    } else {
      var rest := CallsAreOfThese(events[1..], error);
      ConsWithCallback(events[0], events[1..], rest);
      ConsRanWith(events[0], events[1..], rest, error, CallsOf(events[1..], error));
      js := (if events[0].callback.Some? then [0] else []) + Shifted(rest);
      assert [events[0]] + events[1..] == events;
    }
  }

  // ---------------------------------------------------------------- the running executor

  class Executor {
    const sizes: Sizes
    var queue: seq<WriteEvent>
    var batches: seq<Batch>
    var calls: seq<Call>
    ghost var accepted: seq<WriteEvent>

    /** The executor while its loop holds these locals. */
    ghost function State(buffer: seq<int>, events: seq<WriteEvent>, running: bool): Exec
      reads this
    {
      Exec(queue, buffer, events, running, batches, calls, accepted)
    }

    constructor (sizes: Sizes)
      ensures this.sizes == sizes && State([], [], true) == FRESH
    {
      this.sizes, queue, batches, calls, accepted := sizes, [], [], [], [];
    }

    /** `waiting` says that the loop is at its select with the queue empty: then the send hands the event
        over to it, whatever the queue's size. */
    method Submit(evt: WriteEvent, waiting: bool) returns (ok: bool)
      requires waiting ==> queue == []
      modifies `queue, `accepted
      ensures ok <==> waiting || |old(queue)| < sizes.queueSize
      ensures queue == if ok && !waiting then old(queue) + [evt] else old(queue)
      ensures !waiting ==> forall b, e, r :: State(b, e, r) == Take(sizes, old(State(b, e, r)), Step.Submit(evt))
      ensures waiting ==> forall b, e, error ::
                Collect(sizes, State(b, e, true), evt, error) == Take(sizes, old(State(b, e, true)), Step.Handover(evt, error))
    {
      ok := waiting || |queue| < sizes.queueSize;
      if ok {
        accepted := accepted + [evt];
        if !waiting {
          queue := queue + [evt];
        }
      }
    }

    /** Write the batch, then run the callbacks. */
    method WriteBatch(models: seq<int>, events: seq<WriteEvent>, error: WriteError)
      modifies `batches, `calls
      ensures batches == old(batches) + [Batch(models, events, error)]
      ensures calls == old(calls) + CallsOf(events, error)
      ensures exists js :: WithCallback(events, js) && RanWith(events, js, error, calls[|old(calls)|..])
    {
      batches := batches + [Batch(models, events, error)];
      var i := 0;
      while i < |events|
        invariant i <= |events| && batches == old(batches) + [Batch(models, events, error)]
        invariant calls + CallsOf(events[i..], error) == old(calls) + CallsOf(events, error)
      {
        ghost var before := calls;
        if events[i].callback.Some? {
          calls := calls + [Call(events[i].callback.value, error)];
        }
        assert events[i..][1..] == events[i + 1..];
        assert before + CallsOf(events[i..], error) == calls + CallsOf(events[i + 1..], error);
        i := i + 1;
      }
      assert calls + [] == calls;
      ghost var js := CallsAreOfThese(events, error);
      assert calls[|old(calls)|..] == CallsOf(events, error);
    }

    /** The closure in loop: nothing to do on an empty buffer. */
    method FlushBuffer(buffer: seq<int>, events: seq<WriteEvent>, error: WriteError)
      returns (buffer': seq<int>, events': seq<WriteEvent>)
      modifies `batches, `calls
      ensures State(buffer', events', true) == Flush(old(State(buffer, events, true)), error)
    {
      buffer', events' := buffer, events;
      if |buffer| == 0 {
        return;
      }
      WriteBatch(buffer, events, error);
      buffer', events' := [], [];
    }

    method CollectOne(buffer: seq<int>, events: seq<WriteEvent>, evt: WriteEvent, error: WriteError)
      returns (buffer': seq<int>, events': seq<WriteEvent>)
      modifies `batches, `calls
      ensures State(buffer', events', true) == Collect(sizes, old(State(buffer, events, true)), evt, error)
    {
      buffer', events' := buffer + [evt.model], events + [evt];
      if |buffer'| >= sizes.batchSize {
        buffer', events' := FlushBuffer(buffer', events', error);
      }
    }

    method Loop(schedule: seq<Step>) returns (buffer: seq<int>, events: seq<WriteEvent>, running: bool)
      requires Schedule(sizes, State([], [], true), schedule)
      modifies this
      ensures State(buffer, events, running) == Run(sizes, old(State([], [], true)), schedule)
    {
      buffer, events, running := [], [], true;
      var i := 0;
      while i < |schedule|
        invariant i <= |schedule|
        invariant Schedule(sizes, State(buffer, events, running), schedule[i..])
        invariant Run(sizes, old(State([], [], true)), schedule) == Run(sizes, State(buffer, events, running), schedule[i..])
      {
        ghost var before := State(buffer, events, running);
        var step := schedule[i];
        assert schedule[i..][1..] == schedule[i + 1..];
        match step {
          case Submit(evt) =>
            var ok := Submit(evt, false);
          case Handover(evt, error) =>
            var ok := Submit(evt, true);
            buffer, events := CollectOne(buffer, events, evt, error);
          case Receive(error) =>
            var evt := queue[0];
            queue := queue[1..];
            buffer, events := CollectOne(buffer, events, evt, error);
          case Tick(error) =>
            buffer, events := FlushBuffer(buffer, events, error);
          case Cancel(error) =>
            buffer, events := FlushBuffer(buffer, events, error);
            running := false;
        }
        assert State(buffer, events, running) == Take(sizes, before, step);
        i := i + 1;
      }
    }
  }

  // ---------------------------------------------------------------- every schedule

  predicate Schedule(z: Sizes, x: Exec, steps: seq<Step>)
    decreases |steps|
  {
    steps == [] || (Enabled(x, steps[0]) && Schedule(z, Take(z, x, steps[0]), steps[1..]))
  }

  function Run(z: Sizes, x: Exec, steps: seq<Step>): Exec
    requires Schedule(z, x, steps)
    decreases |steps|
  {
    if steps == [] then x else Run(z, Take(z, x, steps[0]), steps[1..])
  }

  function Models(events: seq<WriteEvent>): (models: seq<int>)
    ensures |models| == |events|
  {
    if events == [] then [] else [events[0].model] + Models(events[1..])
  }

  /** Everything in the batches, in the order it was written. */
  function Flushed(batches: seq<Batch>): seq<WriteEvent> {
    if batches == [] then [] else Flushed(batches[..|batches| - 1]) + batches[|batches| - 1].events
  }

  /** The callbacks of all those events, each with the error of its batch. */
  function CallsDue(batches: seq<Batch>): seq<Call> {
    if batches == [] then []
    else
      var last := batches[|batches| - 1];
      CallsDue(batches[..|batches| - 1]) + CallsOf(last.events, last.error)
  }

  predicate BatchOk(z: Sizes, b: Batch) {
    b.models == Models(b.events) && 1 <= |b.models| && (|b.models| == 1 || |b.models| <= z.batchSize)
  }

  ghost predicate Consistent(z: Sizes, x: Exec) {
    && x.accepted == Flushed(x.batches) + x.events + x.queue
    && x.buffer == Models(x.events)
    && (|x.buffer| == 0 || |x.buffer| < z.batchSize)
    && x.calls == CallsDue(x.batches)
    && (forall b :: b in x.batches ==> BatchOk(z, b))
    && |x.queue| <= z.queueSize
    && (!x.running ==> x.events == [])
  }

  lemma {:induction false} ModelsAppend(a: seq<WriteEvent>, e: WriteEvent)
    ensures Models(a + [e]) == Models(a) + [e.model]
    decreases |a|
  {
    if a == [] {
    } else {
      assert (a + [e])[1..] == a[1..] + [e];
      ModelsAppend(a[1..], e);
    }
  }

  lemma FlushKeepsConsistent(z: Sizes, x: Exec, error: WriteError)
    requires x.accepted == Flushed(x.batches) + x.events + x.queue && x.buffer == Models(x.events)
    requires |x.buffer| <= 1 || |x.buffer| <= z.batchSize
    requires x.calls == CallsDue(x.batches) && (forall b :: b in x.batches ==> BatchOk(z, b)) && |x.queue| <= z.queueSize
    requires x.running
    ensures Consistent(z, Flush(x, error)) && Flush(x, error).events == []
  {
    if x.buffer != [] {
      var b := Batch(x.buffer, x.events, error);
      assert (x.batches + [b])[..|x.batches|] == x.batches;
      assert Flushed(x.batches + [b]) == Flushed(x.batches) + x.events;
    }
  }

  lemma CollectKeepsConsistent(z: Sizes, x: Exec, evt: WriteEvent, error: WriteError)
    requires x.running && x.buffer == Models(x.events) && (|x.buffer| == 0 || |x.buffer| < z.batchSize)
    requires x.accepted == Flushed(x.batches) + x.events + ([evt] + x.queue)
    requires x.calls == CallsDue(x.batches) && (forall b :: b in x.batches ==> BatchOk(z, b)) && |x.queue| <= z.queueSize
    ensures Consistent(z, Collect(z, x, evt, error))
  {
    ModelsAppend(x.events, evt);
    var y := x.(buffer := x.buffer + [evt.model], events := x.events + [evt]);
    assert y.accepted == Flushed(y.batches) + y.events + y.queue;
    if |y.buffer| >= z.batchSize {
      FlushKeepsConsistent(z, y, error);
    }
  }

  lemma TakeKeepsConsistent(z: Sizes, x: Exec, s: Step)
    requires Consistent(z, x) && Enabled(x, s)
    ensures Consistent(z, Take(z, x, s))
  {
    match s
    case Submit(evt) =>
      assert Flushed(x.batches) + x.events + x.queue + [evt] == Flushed(x.batches) + x.events + (x.queue + [evt]);
    case Handover(evt, error) =>
      assert x.accepted + [evt] == Flushed(x.batches) + x.events + ([evt] + x.queue);
      CollectKeepsConsistent(z, x.(accepted := x.accepted + [evt]), evt, error);
    case Receive(error) =>
      assert x.queue == [x.queue[0]] + x.queue[1..];
      CollectKeepsConsistent(z, x.(queue := x.queue[1..]), x.queue[0], error);
    case Tick(error) => FlushKeepsConsistent(z, x, error);
    case Cancel(error) => FlushKeepsConsistent(z, x, error);
  }

  /** On every schedule: accepted events are flushed, held or queued, in order, none twice; every batch
      has between one and max(1, batchSize) models, its events' own; every callback due has run once,
      with the error of its batch. */
  lemma {:induction false} Conservation(z: Sizes, x: Exec, steps: seq<Step>)
    requires Consistent(z, x) && Schedule(z, x, steps)
    ensures Consistent(z, Run(z, x, steps))
    decreases |steps|
  {
    if steps == [] {
    } else {
      TakeKeepsConsistent(z, x, steps[0]);
      Conservation(z, Take(z, x, steps[0]), steps[1..]);
    }
  }

  /** An event with a callback, by the index of its batch and its own. */
  predicate Due(batches: seq<Batch>, d: (nat, nat)) {
    d.0 < |batches| && d.1 < |batches[d.0].events| && batches[d.0].events[d.1].callback.Some?
  }

  function CallFor(batches: seq<Batch>, d: (nat, nat)): Call
    requires Due(batches, d)
  {
    Call(batches[d.0].events[d.1].callback.value, batches[d.0].error)
  }

  predicate Earlier(d: (nat, nat), e: (nat, nat)) {
    d.0 < e.0 || (d.0 == e.0 && d.1 < e.1)
  }

  /** All of them, in the order of batches and events. */
  ghost predicate AllWithCallback(batches: seq<Batch>, due: seq<(nat, nat)>) {
    && (forall k, l :: 0 <= k < l < |due| ==> Earlier(due[k], due[l]))
    && (forall d: (nat, nat) :: Due(batches, d) <==> d in due)
  }

  ghost predicate AllRan(batches: seq<Batch>, due: seq<(nat, nat)>, calls: seq<Call>) {
    |calls| == |due| && forall k :: 0 <= k < |due| ==> Due(batches, due[k]) && calls[k] == CallFor(batches, due[k])
  }

  function InBatch(n: nat, js: seq<nat>): (r: seq<(nat, nat)>)
    ensures |r| == |js| && forall k :: 0 <= k < |js| ==> r[k] == (n, js[k])
  {
    seq(|js|, k requires 0 <= k < |js| => (n, js[k]))
  }

  lemma OneMoreBatch(batches: seq<Batch>, due: seq<(nat, nat)>, b: Batch, js: seq<nat>)
    requires AllWithCallback(batches, due) && WithCallback(b.events, js)
    ensures AllWithCallback(batches + [b], due + InBatch(|batches|, js))
  {
    var n, all := |batches|, due + InBatch(|batches|, js);
    forall d: (nat, nat)
      ensures Due(batches + [b], d) <==> d in all
    {
      assert Due(batches + [b], d) <==> Due(batches, d) || (d.0 == n && d.1 < |b.events| && b.events[d.1].callback.Some?);
      if d.0 == n && d.1 in js {
        var k :| 0 <= k < |js| && js[k] == d.1;
        assert InBatch(n, js)[k] == d;
      }
    }
    forall k, l | 0 <= k < l < |all|
      ensures Earlier(all[k], all[l])
    {
      assert k < |due| ==> Due(batches, all[k]);
    }
  }

  lemma OneMoreBatchRan(batches: seq<Batch>, due: seq<(nat, nat)>, calls: seq<Call>, b: Batch, js: seq<nat>, more: seq<Call>)
    requires AllRan(batches, due, calls) && WithCallback(b.events, js) && RanWith(b.events, js, b.error, more)
    ensures AllRan(batches + [b], due + InBatch(|batches|, js), calls + more)
  {
    var n, bs, all := |batches|, batches + [b], due + InBatch(|batches|, js);
    forall k | 0 <= k < |all|
      ensures Due(bs, all[k]) && (calls + more)[k] == CallFor(bs, all[k])
    {
      if k < |due| {
        assert Due(batches, due[k]) && bs[due[k].0] == batches[due[k].0];
      } else {
        assert bs[n] == b && all[k] == (n, js[k - |due|]);
      }
    }
  }

  lemma {:induction false} CallsDueAreOfThese(batches: seq<Batch>) returns (due: seq<(nat, nat)>)
    ensures AllWithCallback(batches, due) && AllRan(batches, due, CallsDue(batches))
    decreases |batches|
  {
    if batches == [] {
      due := [];
    } else {
      var first, last := batches[..|batches| - 1], batches[|batches| - 1];
      var before := CallsDueAreOfThese(first);
      var js := CallsAreOfThese(last.events, last.error);
      due := before + InBatch(|first|, js);
      assert first + [last] == batches;
      assert AllWithCallback(batches, due) by {
        OneMoreBatch(first, before, last, js);
      }
      assert AllRan(batches, due, CallsDue(first) + CallsOf(last.events, last.error)) by {
        OneMoreBatchRan(first, before, CallsDue(first), last, js, CallsOf(last.events, last.error));
      }
    }
  }

  /** On every schedule each event written that has a callback has had it run exactly once, in the order
      the events were written, with what BulkWrite answered for its batch; and nothing else was run. */
  lemma EachCallbackOnce(z: Sizes, steps: seq<Step>)
    requires Schedule(z, FRESH, steps)
    ensures exists due ::
              AllWithCallback(Run(z, FRESH, steps).batches, due)
              && AllRan(Run(z, FRESH, steps).batches, due, Run(z, FRESH, steps).calls)
  {
    Conservation(z, FRESH, steps);
    var due := CallsDueAreOfThese(Run(z, FRESH, steps).batches);
  }

  /** When a batch is written, of what, and with which answer: from batchSize events on, or on a tick or
      a cancellation if there is anything to write. */
  lemma WhenWritten(z: Sizes, x: Exec, s: Step)
    requires Consistent(z, x) && Enabled(x, s)
    ensures var y := Take(z, x, s);
      match s
      case Submit(evt) =>
        && y.batches == x.batches && y.calls == x.calls && y.events == x.events
        && y.queue == x.queue + (if |x.queue| < z.queueSize then [evt] else [])
      case Handover(evt, error) => y.queue == [] && Collected(z, x, evt, error, y)
      case Receive(error) => y.queue == x.queue[1..] && Collected(z, x, x.queue[0], error, y)
      case Tick(error) => y.queue == x.queue && y.events == [] && Wrote(x, x.events, error, y)
      case Cancel(error) => y.queue == x.queue && y.events == [] && Wrote(x, x.events, error, y)
  {
    match s
    case Handover(evt, _) => ModelsAppend(x.events, evt);
    case Receive(_) => ModelsAppend(x.events, x.queue[0]);
    case _ =>
  }

  ghost predicate Collected(z: Sizes, x: Exec, evt: WriteEvent, error: WriteError, y: Exec) {
    if |x.events| + 1 < z.batchSize
    then y.batches == x.batches && y.events == x.events + [evt]
    else y.events == [] && Wrote(x, x.events + [evt], error, y)
  }

  /** One batch of these events, if there are any. */
  ghost predicate Wrote(x: Exec, events: seq<WriteEvent>, error: WriteError, y: Exec) {
    if events == [] then y.batches == x.batches
    else
      && |y.batches| == |x.batches| + 1 && y.batches[..|x.batches|] == x.batches
      && y.batches[|x.batches|].events == events && y.batches[|x.batches|].error == error
  }

  /** The loop goes on until it is cancelled. */
  lemma {:induction false} LoopGoesOn(z: Sizes, x: Exec, steps: seq<Step>)
    requires Schedule(z, x, steps) && x.running
    ensures Run(z, x, steps).running <==> forall s :: s in steps ==> !s.Cancel?
    decreases |steps|
  {
    if steps != [] {
      var y := Take(z, x, steps[0]);
      assert steps == [steps[0]] + steps[1..];
      if y.running {
        LoopGoesOn(z, y, steps[1..]);
      } else {
        StaysEnded(z, y, steps[1..]);
      }
    }
  }

  lemma {:induction false} StaysEnded(z: Sizes, x: Exec, steps: seq<Step>)
    requires Schedule(z, x, steps) && !x.running
    ensures !Run(z, x, steps).running
    decreases |steps|
  {
    if steps != [] {
      StaysEnded(z, Take(z, x, steps[0]), steps[1..]);
    }
  }

  /** A loop that is running can always write all there is: by taking each queued event, and a tick. */
  lemma {:induction false} LoopCanWriteAll(z: Sizes, x: Exec) returns (steps: seq<Step>)
    requires Consistent(z, x) && x.running
    ensures Schedule(z, x, steps) && |steps| == |x.queue| + 1
    ensures var y := Run(z, x, steps); y.accepted == x.accepted == Flushed(y.batches)
    decreases |x.queue|
  {
    var s := if x.queue == [] then Tick(None) else Receive(None);
    TakeKeepsConsistent(z, x, s);
    WhenWritten(z, x, s);
    if x.queue == [] {
      steps := [s];
      assert steps[1..] == [];
      assert Flushed(Take(z, x, s).batches) + [] + [] == Flushed(Take(z, x, s).batches);
    } else {
      var rest := LoopCanWriteAll(z, Take(z, x, s));
      steps := [s] + rest;
      assert steps[1..] == rest;
    }
  }

  /** A tick writes everything collected so far. */
  lemma TickWritesAll(z: Sizes, x: Exec, error: WriteError)
    requires Consistent(z, x) && x.running
    ensures var y := Take(z, x, Tick(error)); y.events == [] && y.accepted == Flushed(y.batches) + y.queue
  {
    TakeKeepsConsistent(z, x, Tick(error));
    FlushKeepsConsistent(z, x, error);
  }

  /** After the loop has been cancelled nothing is held back: what was accepted and never written, and
      so never called back, is exactly what is left in the queue. */
  lemma CancelledLeavesOnlyTheQueue(z: Sizes, steps: seq<Step>)
    requires Schedule(z, FRESH, steps) && !Run(z, FRESH, steps).running
    ensures var x := Run(z, FRESH, steps);
      x.events == [] && x.buffer == [] && x.accepted == Flushed(x.batches) + x.queue && x.calls == CallsDue(x.batches)
  {
    Conservation(z, FRESH, steps);
  }
}
