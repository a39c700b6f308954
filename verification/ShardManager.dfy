/** database/shard_manager.go, ShardManager: one executor per shard, created on demand by any number of
    threads with double-checked locking. Each event is one critical section of the manager's lock, one
    non-blocking send, or one step of some executor's loop. */
module ShardManager {
  import opened ShardExecutor

  /** The manager's own object. GetOrCreateExecutor is its two critical sections, one after the other. */
  class Manager {
    const sizes: Sizes
    var executors: map<int, Executor>

    constructor (sizes: Sizes)
      ensures this.sizes == sizes && executors == map[]
    {
      this.sizes, executors := sizes, map[];
    }

    /** Under the read lock. */
    method LookUp(shardKey: int) returns (exec: Executor?)
      ensures exec == if shardKey in executors then executors[shardKey] else null
    {
      exec := if shardKey in executors then executors[shardKey] else null;
    }

    /** Under the write lock: whatever happened since the look-up, check again before creating. */
    method CreateLocked(shardKey: int) returns (exec: Executor)
      modifies `executors
      ensures executors == old(executors)[shardKey := exec]
      ensures if shardKey in old(executors) then exec == old(executors)[shardKey]
              else fresh(exec) && exec.sizes == sizes && exec.State([], [], true) == FRESH
    {
      if shardKey in executors {
        return executors[shardKey];
      }
      exec := new Executor(sizes);
      executors := executors[shardKey := exec];
    }

    method GetOrCreateExecutor(shardKey: int) returns (exec: Executor)
      modifies `executors
      ensures executors == old(executors)[shardKey := exec]
      ensures if shardKey in old(executors) then exec == old(executors)[shardKey]
              else fresh(exec) && exec.sizes == sizes && exec.State([], [], true) == FRESH
    {
      var found := LookUp(shardKey);
      if found != null {
        return found;
      }
      exec := CreateLocked(shardKey);
    }

    /** `waiting` says that the shard's loop is at its select with its queue empty. */
    method Submit(shardKey: int, evt: WriteEvent, waiting: bool) returns (ok: bool)
      requires waiting && shardKey in executors ==> executors[shardKey].queue == []
      modifies this, (if shardKey in executors then {executors[shardKey]} else {})
      ensures executors.Keys == old(executors).Keys + {shardKey}
      ensures shardKey in old(executors) ==>
                && executors == old(executors)
                && ok == (waiting || |old(executors[shardKey].queue)| < executors[shardKey].sizes.queueSize)
                && executors[shardKey].queue == old(executors[shardKey].queue) + (if ok && !waiting then [evt] else [])
      ensures shardKey !in old(executors) ==>
                && ok == (waiting || sizes.queueSize > 0)
                && executors[shardKey].queue == if ok && !waiting then [evt] else []
      ensures forall k :: k in old(executors) && k != shardKey ==> executors[k] == old(executors)[k]
      ensures forall x | x in old(executors).Values &&
                         (shardKey in old(executors) ==> x != old(executors)[shardKey]) ::
                unchanged(x)
    {
      var exec := GetOrCreateExecutor(shardKey);
      assert shardKey in old(executors) ==> exec in old(executors).Values;
      ok := exec.Submit(evt, waiting);
    }
  }

  // ---------------------------------------------------------------- interleaved callers

  type Thread = nat
  type Id = nat

  /** A thread inside Submit: past the first look without an executor, or with one in hand. */
  datatype Progress = Missed(shard: int) | Holding(shard: int, id: Id)

  /** `executors` is the manager's map, `heap` the executors ever created, `returned` what every call
      of GetOrCreateExecutor gave back, `submitted` the accepted events with the shard asked for. */
  datatype System = System(
    executors: map<int, Id>, heap: map<Id, Exec>, threads: map<Thread, Progress>,
    returned: seq<(int, Id)>, submitted: seq<(int, WriteEvent)>)

  const START := System(map[], map[], map[], [], [])

  datatype Event =
    | Look(t: Thread, shard: int)               // the check under the read lock
    | Create(t: Thread)                         // the section under the write lock: check again, create
    | Send(t: Thread, step: Step)               // exec.Submit
    | Work(id: Id, step: Step)                  // the executor's own loop

  predicate Possible(s: System, e: Event) {
    match e
    case Look(t, _) => t !in s.threads
    case Create(t) => t in s.threads && s.threads[t].Missed?
    case Send(t, step) =>
      && t in s.threads && s.threads[t].Holding? && s.threads[t].id in s.heap
      && (step.Submit? || step.Handover?) && Enabled(s.heap[s.threads[t].id], step)
    case Work(id, step) =>
      id in s.heap && (step.Receive? || step.Tick? || step.Cancel?) && Enabled(s.heap[id], step)
  }

  function Return(s: System, t: Thread, shard: int, id: Id): System {
    s.(threads := s.threads[t := Holding(shard, id)], returned := s.returned + [(shard, id)])
  }

  /** NewShardExecutor: an executor different from all others. */
  function NewExecutor(s: System, shard: int): System {
    var id := |s.heap|;
    s.(heap := s.heap[id := FRESH], executors := s.executors[shard := id])
  }

  function Accepts(z: Sizes, x: Exec, step: Step): bool {
    step.Handover? || (step.Submit? && |x.queue| < z.queueSize)
  }

  function Next(z: Sizes, s: System, e: Event): System
    requires Possible(s, e)
  {
    match e
    case Look(t, shard) =>
      if shard in s.executors then Return(s, t, shard, s.executors[shard])
      else s.(threads := s.threads[t := Missed(shard)])
    case Create(t) =>
      var shard := s.threads[t].shard;
      if shard in s.executors then Return(s, t, shard, s.executors[shard])
      else Return(NewExecutor(s, shard), t, shard, |s.heap|)
    case Send(t, step) =>
      var Holding(shard, id) := s.threads[t];
      s.(heap := s.heap[id := Take(z, s.heap[id], step)],
         threads := s.threads - {t},
         submitted := if Accepts(z, s.heap[id], step) then s.submitted + [(shard, step.evt)] else s.submitted)
    case Work(id, step) =>
      s.(heap := s.heap[id := Take(z, s.heap[id], step)])
  }

  /** The events accepted for one shard, in the order they were accepted. */
  function ForShard(submitted: seq<(int, WriteEvent)>, shard: int): seq<WriteEvent> {
    if submitted == [] then []
    else
      var n := |submitted| - 1;
      ForShard(submitted[..n], shard) + if submitted[n].0 == shard then [submitted[n].1] else []
  }

  /** The map is a bijection between the shards seen and the executors created, and whatever a thread
      holds or was given is what the map says now. */
  ghost predicate OneEach(s: System) {
    && (forall id :: id in s.heap <==> 0 <= id < |s.heap|)
    && (forall k :: k in s.executors ==> s.executors[k] in s.heap)
    && (forall k, l :: k in s.executors && l in s.executors && s.executors[k] == s.executors[l] ==> k == l)
    && (forall t :: t in s.threads && s.threads[t].Holding? ==> Current(s, s.threads[t].shard, s.threads[t].id))
    && (forall i :: 0 <= i < |s.returned| ==> Current(s, s.returned[i].0, s.returned[i].1))
  }

  predicate Current(s: System, shard: int, id: Id) {
    shard in s.executors && s.executors[shard] == id
  }

  /** Each executor's accepted events are its shard's, in order. */
  ghost predicate Routed(z: Sizes, s: System) {
    && (forall id :: id in s.heap ==> Consistent(z, s.heap[id]))
    && (forall k :: k in s.executors && s.executors[k] in s.heap ==>
          s.heap[s.executors[k]].accepted == ForShard(s.submitted, k))
    && (forall k :: k !in s.executors ==> ForShard(s.submitted, k) == [])
  }

  /** A new executor for a new shard takes nothing away from the others. */
  lemma NewKeepsCurrent(s: System, shard: int)
    requires OneEach(s) && shard !in s.executors
    ensures var s' := NewExecutor(s, shard);
      && |s.heap| !in s.heap && |s'.heap| == |s.heap| + 1 && Current(s', shard, |s.heap|)
      && forall k, id :: Current(s, k, id) ==> Current(s', k, id) && k != shard
  {
    assert |s.heap| !in s.heap;
  }

  lemma NewKeepsOneEach(s: System, shard: int)
    requires OneEach(s) && shard !in s.executors
    ensures OneEach(NewExecutor(s, shard))
  {
    NewKeepsCurrent(s, shard);
    var s' := NewExecutor(s, shard);
    forall k, l | k in s'.executors && l in s'.executors && s'.executors[k] == s'.executors[l]
      ensures k == l
    {
    }
    forall i | 0 <= i < |s'.returned|
      ensures Current(s', s'.returned[i].0, s'.returned[i].1)
    {
      assert Current(s, s.returned[i].0, s.returned[i].1);
    }
  }

  lemma ReturnKeepsOneEach(s: System, t: Thread, shard: int, id: Id)
    requires OneEach(s) && Current(s, shard, id)
    ensures OneEach(Return(s, t, shard, id))
  {
    var s' := Return(s, t, shard, id);
    forall i | 0 <= i < |s'.returned|
      ensures Current(s', s'.returned[i].0, s'.returned[i].1)
    {
      assert i < |s.returned| ==> s'.returned[i] == s.returned[i];
    }
  }

  lemma NextKeepsOneEach(z: Sizes, s: System, e: Event)
    requires OneEach(s) && Possible(s, e)
    ensures OneEach(Next(z, s, e))
  {
    match e
    case Look(t, shard) =>
      if shard in s.executors {
        ReturnKeepsOneEach(s, t, shard, s.executors[shard]);
      }
    case Create(t) =>
      var shard := s.threads[t].shard;
      if shard in s.executors {
        ReturnKeepsOneEach(s, t, shard, s.executors[shard]);
      } else {
        NewKeepsOneEach(s, shard);
        NewKeepsCurrent(s, shard);
        ReturnKeepsOneEach(NewExecutor(s, shard), t, shard, |s.heap|);
      }
    case Send(t, step) => UpdateKeepsDomain(s.heap, s.threads[t].id, Take(z, s.heap[s.threads[t].id], step));
    case Work(id, step) => UpdateKeepsDomain(s.heap, id, Take(z, s.heap[id], step));
  }

  lemma UpdateKeepsDomain(heap: map<Id, Exec>, id: Id, x: Exec)
    requires id in heap
    ensures heap[id := x].Keys == heap.Keys && |heap[id := x]| == |heap|
  {
    assert |heap[id := x].Keys| == |heap[id := x]| && |heap.Keys| == |heap|;
  }

  lemma TakeAccepts(z: Sizes, x: Exec, step: Step)
    requires Enabled(x, step)
    ensures Take(z, x, step).accepted == if Accepts(z, x, step) then x.accepted + [step.evt] else x.accepted
  {}

  lemma ForShardAppend(submitted: seq<(int, WriteEvent)>, entry: (int, WriteEvent), shard: int)
    ensures ForShard(submitted + [entry], shard)
         == ForShard(submitted, shard) + if entry.0 == shard then [entry.1] else []
  {
    assert (submitted + [entry])[..|submitted|] == submitted;
  }

  lemma CreateKeepsRouted(z: Sizes, s: System, shard: int)
    requires OneEach(s) && Routed(z, s) && shard !in s.executors
    ensures Routed(z, NewExecutor(s, shard))
  {
    assert |s.heap| !in s.heap;
  }

  lemma SendKeepsRouted(z: Sizes, s: System, t: Thread, step: Step)
    requires OneEach(s) && Routed(z, s) && Possible(s, Send(t, step))
    ensures Routed(z, Next(z, s, Send(t, step)))
  {
    var Holding(shard, id) := s.threads[t];
    assert Current(s, shard, id);
    TakeKeepsConsistent(z, s.heap[id], step);
    TakeAccepts(z, s.heap[id], step);
    if Accepts(z, s.heap[id], step) {
      forall k
        ensures ForShard(s.submitted + [(shard, step.evt)], k)
             == ForShard(s.submitted, k) + if shard == k then [step.evt] else []
      {
        ForShardAppend(s.submitted, (shard, step.evt), k);
      }
    }
  }

  lemma WorkKeepsRouted(z: Sizes, s: System, id: Id, step: Step)
    requires OneEach(s) && Routed(z, s) && Possible(s, Work(id, step))
    ensures Routed(z, Next(z, s, Work(id, step)))
  {
    TakeKeepsConsistent(z, s.heap[id], step);
    TakeAccepts(z, s.heap[id], step);
  }

  lemma NextKeepsRouted(z: Sizes, s: System, e: Event)
    requires OneEach(s) && Routed(z, s) && Possible(s, e)
    ensures Routed(z, Next(z, s, e))
  {
    match e
    case Look(t, shard) =>
    case Create(t) =>
      if s.threads[t].shard !in s.executors {
        CreateKeepsRouted(z, s, s.threads[t].shard);
      }
    case Send(t, step) => SendKeepsRouted(z, s, t, step);
    case Work(id, step) => WorkKeepsRouted(z, s, id, step);
  }

  // ---------------------------------------------------------------- every schedule

  ghost predicate Trace(z: Sizes, states: seq<System>, events: seq<Event>) {
    && |states| == |events| + 1
    && states[0] == START
    && forall i :: 0 <= i < |events| ==> Possible(states[i], events[i]) && states[i + 1] == Next(z, states[i], events[i])
  }

  lemma {:induction false} TraceInvariant(z: Sizes, states: seq<System>, events: seq<Event>, i: nat)
    requires Trace(z, states, events) && i <= |events|
    ensures OneEach(states[i]) && Routed(z, states[i])
    decreases i
  {
    if i == 0 {
    } else {
      TraceInvariant(z, states, events, i - 1);
      NextKeepsOneEach(z, states[i - 1], events[i - 1]);
      NextKeepsRouted(z, states[i - 1], events[i - 1]);
    }
  }

  // ---------------------------------------------------------------- each executor on its own

  /** The step that an event makes the executor `id` take, if any. */
  function StepNow(s: System, e: Event, id: Id): seq<Step>
    requires Possible(s, e)
  {
    match e
    case Send(t, step) => if s.threads[t].id == id then [step] else []
    case Work(w, step) => if w == id then [step] else []
    case _ => []
  }

  function StepsOf(states: seq<System>, events: seq<Event>, i: nat, id: Id): seq<Step>
    requires i <= |events| <= |states| && forall k :: 0 <= k < |events| ==> Possible(states[k], events[k])
  {
    if i == 0 then []
    else StepsOf(states, events, i - 1, id) + StepNow(states[i - 1], events[i - 1], id)
  }

  /** An event changes an executor by that step and in no other way, and creates it fresh. */
  lemma EventIsStep(z: Sizes, s: System, e: Event, id: Id)
    requires OneEach(s) && Possible(s, e)
    ensures var s', now := Next(z, s, e), StepNow(s, e, id);
      && (id in s.heap ==> id in s'.heap)
      && (now != [] ==> |now| == 1 && id in s.heap && Enabled(s.heap[id], now[0]))
      && (id in s'.heap ==>
            s'.heap[id] == if id !in s.heap then FRESH
                           else if now == [] then s.heap[id] else Take(z, s.heap[id], now[0]))
  {}

  lemma {:induction false} OneMoreStep(z: Sizes, x: Exec, steps: seq<Step>, s: Step)
    requires Schedule(z, x, steps) && Enabled(Run(z, x, steps), s)
    ensures Schedule(z, x, steps + [s]) && Run(z, x, steps + [s]) == Take(z, Run(z, x, steps), s)
    decreases |steps|
  {
    if steps == [] {
      assert [s][1..] == [] && steps + [s] == [s];
    } else {
      OneMoreStep(z, Take(z, x, steps[0]), steps[1..], s);
      assert (steps + [s])[1..] == steps[1..] + [s];
    }
  }

  ghost predicate RunsTo(z: Sizes, steps: seq<Step>, x: Exec) {
    Schedule(z, FRESH, steps) && x == Run(z, FRESH, steps)
  }

  lemma RunsOn(z: Sizes, steps: seq<Step>, x: Exec, now: seq<Step>)
    requires RunsTo(z, steps, x) && |now| <= 1 && (now != [] ==> Enabled(x, now[0]))
    ensures RunsTo(z, steps + now, if now == [] then x else Take(z, x, now[0]))
  {
    if now == [] {
      assert steps + now == steps;
    } else {
      assert now == [now[0]];
      OneMoreStep(z, FRESH, steps, now[0]);
    }
  }

  /** These steps lead to the executor's state, or there is no such executor yet. */
  ghost predicate Accounted(z: Sizes, s: System, id: Id, steps: seq<Step>) {
    if id in s.heap then RunsTo(z, steps, s.heap[id]) else steps == []
  }

  lemma EventAccounted(z: Sizes, s: System, e: Event, id: Id, steps: seq<Step>)
    requires OneEach(s) && Possible(s, e) && Accounted(z, s, id, steps)
    ensures Accounted(z, Next(z, s, e), id, steps + StepNow(s, e, id))
  {
    EventIsStep(z, s, e, id);
    if id in s.heap {
      RunsOn(z, steps, s.heap[id], StepNow(s, e, id));
    }
  }

  /** However everything interleaves, each executor runs as an executor does on its own, on exactly the
      submissions sent to it and the steps of its loop. */
  lemma {:induction false} ExecutorsRun(z: Sizes, states: seq<System>, events: seq<Event>, i: nat, id: Id)
    requires Trace(z, states, events) && i <= |events|
    ensures Accounted(z, states[i], id, StepsOf(states, events, i, id))
    decreases i
  {
    if i == 0 {
    } else {
      TraceInvariant(z, states, events, i - 1);
      ExecutorsRun(z, states, events, i - 1, id);
      EventAccounted(z, states[i - 1], events[i - 1], id, StepsOf(states, events, i - 1, id));
    }
  }

  /** A look finds the executor on file at once, and exactly the first section for a shard creates one. */
  lemma WhenCreated(z: Sizes, s: System, e: Event)
    requires OneEach(s) && Possible(s, e)
    ensures var s' := Next(z, s, e);
      match e
      case Look(t, shard) =>
        && s'.heap == s.heap && s'.executors == s.executors
        && s'.threads == s.threads[t := if shard in s.executors then Holding(shard, s.executors[shard]) else Missed(shard)]
      case Create(t) =>
        var shard := s.threads[t].shard;
        && |s'.heap| == |s.heap| + (if shard in s.executors then 0 else 1)
        && shard in s'.executors && s'.threads == s.threads[t := Holding(shard, s'.executors[shard])]
        && (forall k :: k in s.executors ==> k in s'.executors && s'.executors[k] == s.executors[k])
      case Send(t, _) => s'.executors == s.executors && t !in s'.threads
      case Work(_, _) => s'.executors == s.executors && s'.threads == s.threads
  {
    if e.Create? && s.threads[e.t].shard !in s.executors {
      NewKeepsCurrent(s, s.threads[e.t].shard);
    }
  }

  /** GetOrCreateExecutor that nothing interrupts: a look, and a creation if there was no executor. */
  lemma GetAlone(z: Sizes, s: System, t: Thread, shard: int) returns (s': System)
    requires OneEach(s) && t !in s.threads
    ensures Possible(s, Look(t, shard))
    ensures var looked := Next(z, s, Look(t, shard));
      if shard in s.executors then s' == looked else Possible(looked, Create(t)) && s' == Next(z, looked, Create(t))
    ensures shard in s'.executors && s'.executors[shard] in s'.heap
    ensures s'.threads == s.threads[t := Holding(shard, s'.executors[shard])]
    ensures s'.heap[s'.executors[shard]] == if shard in s.executors then s.heap[s.executors[shard]] else FRESH
  {
    s' := Next(z, s, Look(t, shard));
    if shard !in s.executors {
      NewKeepsCurrent(s', shard);
      s' := Next(z, s', Create(t));
    }
  }

  /** And the submission: after the send the event is at the end of the shard's queue if there was room. */
  lemma SubmitAlone(z: Sizes, s: System, t: Thread, shard: int, evt: WriteEvent) returns (holding: System)
    requires OneEach(s) && t !in s.threads
    ensures Possible(holding, Send(t, Step.Submit(evt)))
    ensures var done := Next(z, holding, Send(t, Step.Submit(evt)));
      && done.threads == s.threads && shard in done.executors && done.executors[shard] in done.heap
      && var queue := if shard in s.executors then s.heap[s.executors[shard]].queue else [];
         done.heap[done.executors[shard]].queue == queue + if |queue| < z.queueSize then [evt] else []
  {
    holding := GetAlone(z, s, t, shard);
    assert s.threads[t := Holding(shard, holding.executors[shard])] - {t} == s.threads;
  }

  // ---------------------------------------------------------------- the guarantees

  /** However the threads interleave at the two checks and the lock, all calls for one shard that ever
      return give the same executor, and calls for different shards different ones. */
  lemma OneExecutorPerShard(z: Sizes, states: seq<System>, events: seq<Event>, i: nat)
    requires Trace(z, states, events) && i <= |events|
    ensures forall a, b :: a in states[i].returned && b in states[i].returned ==> (a.0 == b.0 <==> a.1 == b.1)
  {
    TraceInvariant(z, states, events, i);
    var s := states[i];
    forall a, b | a in s.returned && b in s.returned
      ensures a.0 == b.0 <==> a.1 == b.1
    {
      assert Current(s, a.0, a.1) && Current(s, b.0, b.1);
    }
  }

  /** So a shard's events are written in the order its submissions were accepted: what the shard's
      executor has flushed, holds and queues is exactly that sequence. */
  lemma ShardOrder(z: Sizes, states: seq<System>, events: seq<Event>, i: nat, shard: int)
    requires Trace(z, states, events) && i <= |events|
    ensures var s := states[i];
      if shard in s.executors then
        s.executors[shard] in s.heap
        && var x := s.heap[s.executors[shard]];
           ForShard(s.submitted, shard) == Flushed(x.batches) + x.events + x.queue
      else ForShard(s.submitted, shard) == []
  {
    TraceInvariant(z, states, events, i);
  }
}
