/** service.go: the four service states, driven by any number of concurrent Start and Stop callers.
    A caller enters through the guarded checkAndSetState and leaves through the unguarded setState;
    everything it does in between is an input saying how it ended. */
module Lifecycle {
  import opened Prelude

  datatype State = Stopped | Starting | Running | Stopping

  /** checkAndSetState: the new state, or the state that was in the way. */
  function CheckAndSet(state: State, from: State, to: State): Result<State, State> {
    if state != from then Err(state) else Ok(to)
  }

  class Service {
    var state: State

    constructor ()
      ensures state == Stopped
    {
      state := Stopped;
    }

    method CheckAndSetState(from: State, to: State) returns (ok: bool)
      modifies this
      ensures ok == CheckAndSet(old(state), from, to).Ok?
      ensures state == if ok then to else old(state)
    {
      if state != from {
        return false;
      }
      state := to;
      ok := true;
    }

    method SetState(to: State)
      modifies this
      ensures state == to
    {
      state := to;
    }

    /** Start with nobody else at work: the three inputs are the steps that can fail. */
    method Start(componentsOk: bool, handlersOk: bool, startOk: bool) returns (ok: bool)
      modifies this
      ensures ok <==> old(state) == Stopped && componentsOk && handlersOk && startOk
      ensures state == if ok then Running else old(state)
    {
      var entered := CheckAndSetState(Stopped, Starting);
      if !entered {
        return false;
      }
      if !componentsOk || !handlersOk || !startOk {
        SetState(Stopped);
        return false;
      }
      SetState(Running);
      ok := true;
    }

    method Stop() returns (ok: bool)
      modifies this
      ensures ok <==> old(state) == Running
      ensures state == if ok then Stopped else old(state)
    {
      var entered := CheckAndSetState(Running, Stopping);
      if !entered {
        return false;
      }
      SetState(Stopped);
      ok := true;
    }
  }

  // ---------------------------------------------------------------- concurrent callers

  type Caller = nat

  /** The shared state, and the callers between their two writes. */
  datatype System = System(state: State, starting: set<Caller>, stopping: set<Caller>)

  datatype Event =
    | CallStart(caller: Caller)                  // checkAndSetState(Stopped, Starting)
    | LeaveStart(caller: Caller, failed: bool)   // setState(Stopped) or setState(Running)
    | CallStop(caller: Caller)                   // checkAndSetState(Running, Stopping)
    | LeaveStop(caller: Caller)                  // setState(Stopped)

  /** A caller is busy from its first write to its last. */
  predicate Enabled(s: System, e: Event) {
    match e
    case CallStart(c) => c !in s.starting && c !in s.stopping
    case LeaveStart(c, _) => c in s.starting
    case CallStop(c) => c !in s.starting && c !in s.stopping
    case LeaveStop(c) => c in s.stopping
  }

  function Step(s: System, e: Event): System
    requires Enabled(s, e)
  {
    match e
    case CallStart(c) =>
      var r := CheckAndSet(s.state, Stopped, Starting);
      if r.Ok? then s.(state := r.value, starting := s.starting + {c}) else s
    case LeaveStart(c, failed) =>
      s.(state := if failed then Stopped else Running, starting := s.starting - {c})
    case CallStop(c) =>
      var r := CheckAndSet(s.state, Running, Stopping);
      if r.Ok? then s.(state := r.value, stopping := s.stopping + {c}) else s
    case LeaveStop(c) =>
      s.(state := Stopped, stopping := s.stopping - {c})
  }

  predicate UnguardedWrite(e: Event) {
    e.LeaveStart? || e.LeaveStop?
  }

  /** At most one caller is between its writes, and the state says which kind it is. */
  ghost predicate Exclusive(s: System) {
    && |s.starting| == (if s.state == Starting then 1 else 0)
    && |s.stopping| == (if s.state == Stopping then 1 else 0)
  }

  predicate LegalEdge(from: State, to: State) {
    (from == Starting && (to == Running || to == Stopped)) || (from == Stopping && to == Stopped)
  }

  lemma StepKeepsExclusive(s: System, e: Event)
    requires Exclusive(s) && Enabled(s, e)
    ensures Exclusive(Step(s, e))
    ensures UnguardedWrite(e) ==> LegalEdge(s.state, Step(s, e).state)
  {}

  /** Who gets in, and what each way out leaves behind. */
  lemma WhatStepsDo(s: System, e: Event)
    requires Exclusive(s) && Enabled(s, e)
    ensures var t := Step(s, e);
      match e
      case CallStart(c) =>
        (if s.state == Stopped then t.state == Starting && t.starting == {c} && t.stopping == {} else t == s)
      case LeaveStart(c, failed) =>
        s.state == Starting && t.state == (if failed then Stopped else Running) && t.starting == {} && t.stopping == {}
      case CallStop(c) =>
        (if s.state == Running then t.state == Stopping && t.stopping == {c} && t.starting == {} else t == s)
      case LeaveStop(c) =>
        s.state == Stopping && t.state == Stopped && t.stopping == {} && t.starting == {}
  {
    if s.starting != {} {
      OnlyOne(s.starting);
    }
    if s.stopping != {} {
      OnlyOne(s.stopping);
    }
    if e.LeaveStart? {
      OnlyElement(s.starting, e.caller);
    } else if e.LeaveStop? {
      OnlyElement(s.stopping, e.caller);
    }
  }

  lemma OnlyOne(callers: set<Caller>)
    requires callers != {}
    ensures |callers| > 0
  {}

  lemma OnlyElement(callers: set<Caller>, c: Caller)
    requires c in callers && |callers| <= 1
    ensures callers == {c}
  {
    assert |callers - {c}| == 0;
    assert callers == {c} + (callers - {c});
  }

  /** Start and Stop by a caller that is alone are these steps: what they come to is what the methods of
      Service promise, where failed says that one of the steps in between did. */
  lemma AloneIsService(state: State, c: Caller, failed: bool)
    requires state == Stopped || state == Running
    ensures var s, t := System(state, {}, {}), Step(System(state, {}, {}), CallStart(c));
      if state == Stopped
      then Enabled(t, LeaveStart(c, failed))
           && Step(t, LeaveStart(c, failed)) == System(if failed then Stopped else Running, {}, {})
      else t == s
    ensures var s, t := System(state, {}, {}), Step(System(state, {}, {}), CallStop(c));
      if state == Running
      then Enabled(t, LeaveStop(c)) && Step(t, LeaveStop(c)) == System(Stopped, {}, {})
      else t == s
  {
    assert {c} - {c} == {};
    assert {} + {c} == {c};
  }

  /** The states a schedule goes through. */
  ghost predicate Trace(states: seq<System>, events: seq<Event>) {
    && |states| == |events| + 1
    && states[0] == System(Stopped, {}, {})
    && forall i :: 0 <= i < |events| ==> Enabled(states[i], events[i]) && states[i + 1] == Step(states[i], events[i])
  }

  /** How many of the first `i` events made the service run, and how many began to stop it. */
  function Successes(events: seq<Event>, i: nat): nat
    requires i <= |events|
  {
    if i == 0 then 0
    else Successes(events, i - 1) + if events[i - 1].LeaveStart? && !events[i - 1].failed then 1 else 0
  }

  function StopsBegun(states: seq<System>, events: seq<Event>, i: nat): nat
    requires i <= |events| < |states|
  {
    if i == 0 then 0
    else StopsBegun(states, events, i - 1)
         + if events[i - 1].CallStop? && events[i - 1].caller in states[i].stopping then 1 else 0
  }

  /** On every schedule: the service runs exactly while one more start has succeeded than stops have begun. */
  lemma {:induction false} StartsAndStops(states: seq<System>, events: seq<Event>, i: nat)
    requires Trace(states, events) && i <= |events|
    ensures Successes(events, i) == StopsBegun(states, events, i) + if states[i].state == Running then 1 else 0
    decreases i
  {
    if i == 0 {
    } else {
      StartsAndStops(states, events, i - 1);
      EverySchedule(states, events, i - 1);
      WhatStepsDo(states[i - 1], events[i - 1]);
    }
  }

  /** On every schedule of any number of callers: one holder at a time, and the unguarded writes only
      ever finish the transition their caller began. */
  lemma {:induction false} EverySchedule(states: seq<System>, events: seq<Event>, i: nat)
    requires Trace(states, events) && i <= |events|
    ensures Exclusive(states[i]) && |states[i].starting| + |states[i].stopping| <= 1
    ensures i < |events| && UnguardedWrite(events[i]) ==> LegalEdge(states[i].state, states[i + 1].state)
    decreases i
  {
    if i == 0 {
    } else {
      EverySchedule(states, events, i - 1);
      StepKeepsExclusive(states[i - 1], events[i - 1]);
    }
    if i < |events| {
      StepKeepsExclusive(states[i], events[i]);
    }
  }
}
