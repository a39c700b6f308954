/** utils/snowflake.go: 64-bit ids from a clock, a node number and a counter. Times are int64 values
    as ints; the clock is whatever sequence of readings the environment supplies, forwards or
    backwards. The id is the uint64 the shifts and ors produce, wrap-around included, computed as a sum
    modulo 2^64; PackIsTheWord proves that this is the number the 64-bit word stands for. */
module Snowflake {
  import opened Prelude
  import opened Word64

  const EPOCH := 1420041600000
  const MAX_NODE := 31
  const SEQUENCES := 4096
  const CLOCK_ERROR := 3001
  const TWO_64 := 0x1_0000_0000_0000_0000
  const TIME_UNIT := 0x40_0000

  datatype Worker = Worker(lastTimestamp: int, workerId: int, datacenterId: int, sequence: int)

  /** What a call does: return an id, or keep reading the clock because no reading was late enough. */
  datatype Outcome = Returned(id: int) | Spinning

  function Pack(time: int, datacenter: int, worker: int, sequence: int): int {
    ((time - EPOCH) * TIME_UNIT + datacenter * 0x2_0000 + worker * 0x1000 + sequence) % TWO_64
  }

  /** On machine words: the or of the shifted fields is their sum, and shifting back recovers them. */
  lemma MachineWord(elapsed: bv64, datacenter: bv64, worker: bv64, sequence: bv64)
    requires datacenter < 32 && worker < 32 && sequence < 4096
    ensures var id := (elapsed << 22) | (datacenter << 17) | (worker << 12) | sequence;
      && id == (elapsed << 22) + (datacenter << 17) + (worker << 12) + sequence
      && (id >> 17) & 31 == datacenter && (id >> 12) & 31 == worker && id & 4095 == sequence
      && (elapsed < 0x400_0000_0000 ==> id >> 22 == elapsed)
  {}

  lemma PackOfResidue(time: int, elapsed: int, datacenter: int, worker: int, sequence: int)
    requires elapsed == (time - EPOCH) % TWO_64
    ensures (elapsed * TIME_UNIT + (datacenter * 0x2_0000 + worker * 0x1000 + sequence)) % TWO_64
         == Pack(time, datacenter, worker, sequence)
  {
    var turns := (time - EPOCH) / TWO_64;
    assert time - EPOCH == turns * TWO_64 + elapsed;
  }

  /** The formula above is what the machine computes: when `elapsed` is the two's complement word of the
      milliseconds since the epoch, the or of the shifted fields stands for the number Pack gives. */
  lemma PackIsTheWord(time: int, elapsed: bv64, datacenter: bv64, worker: bv64, sequence: bv64)
    requires datacenter < 32 && worker < 32 && sequence < 4096
    requires Value(elapsed, 64) == (time - EPOCH) % TWO_64
    ensures Value(Fields(elapsed, datacenter, worker, sequence), 64)
         == Pack(time, Value(datacenter, 64), Value(worker, 64), Value(sequence, 64))
  {
    FieldsValue(elapsed, datacenter, worker, sequence);
    PackOfResidue(time, Value(elapsed, 64), Value(datacenter, 64), Value(worker, 64), Value(sequence, 64));
  }

  /** And every time has such a word. */
  lemma EveryTimeHasAWord(time: int) returns (elapsed: bv64)
    ensures Value(elapsed, 64) == (time - EPOCH) % TWO_64
  {
    TwoTo64();
    elapsed := EveryNumberHasAWord((time - EPOCH) % TWO_64, 64);
  }

  /** The index of the first reading later than `last`, or the number of readings. */
  function FirstPast(readings: seq<int>, last: int): (k: nat)
    ensures k <= |readings|
    ensures forall i :: 0 <= i < k ==> readings[i] <= last
    ensures k < |readings| ==> last < readings[k]
  {
    if readings == [] || last < readings[0] then 0 else 1 + FirstPast(readings[1..], last)
  }

  function Next(w: Worker, now: int, readings: seq<int>): (Worker, Outcome) {
    if now < w.lastTimestamp then
      (w, Returned(CLOCK_ERROR))
    else if now != w.lastTimestamp then
      Issue(w.(lastTimestamp := now, sequence := 0))
    else if (w.sequence + 1) % SEQUENCES != 0 then
      Issue(w.(sequence := (w.sequence + 1) % SEQUENCES))
    else
      var k := FirstPast(readings, w.lastTimestamp);
      if k == |readings| then (w.(sequence := 0), Spinning)
      else Issue(w.(lastTimestamp := readings[k], sequence := 0))
  }

  function Issue(w: Worker): (Worker, Outcome) {
    (w, Returned(CurrentId(w)))
  }

  function CurrentId(w: Worker): int {
    Pack(w.lastTimestamp, w.datacenterId, w.workerId, w.sequence)
  }

  // ---------------------------------------------------------------- the mutable worker

  class SnowflakeIdWorker {
    var lastTimestamp: int
    const workerId: int
    const datacenterId: int
    var sequence: int

    ghost function State(): Worker
      reads this
    {
      Worker(lastTimestamp, workerId, datacenterId, sequence)
    }

    constructor (wId: int, dId: int)
      ensures State() == Worker(0, wId, dId, 0)
    {
      lastTimestamp, workerId, datacenterId, sequence := 0, wId, dId, 0;
    }

    /** `now` is the first clock reading, `readings` the ones the waiting loop would take. */
    method NextId(now: int, readings: seq<int>) returns (outcome: Outcome)
      modifies this
      ensures (State(), outcome) == Next(old(State()), now, readings)
    {
      var time := now;
      if time < lastTimestamp {
        return Returned(CLOCK_ERROR);
      }
      if lastTimestamp == time {
        sequence := (sequence + 1) % SEQUENCES;
        if sequence == 0 {
          var k := 0;
          while time <= lastTimestamp
            invariant k <= |readings|
            invariant time <= lastTimestamp ==>
                        FirstPast(readings, lastTimestamp) == k + FirstPast(readings[k..], lastTimestamp)
            invariant lastTimestamp < time ==>
                        0 < k && time == readings[k - 1] && FirstPast(readings, lastTimestamp) == k - 1
            decreases |readings| - k
          {
            if k == |readings| {
              return Spinning;
            }
            time, k := readings[k], k + 1;
          }
        }
      } else {
        sequence := 0;
      }
      lastTimestamp := time;
      outcome := Returned(Pack(time, datacenterId, workerId, sequence));
    }
  }

  method CreateSnowflakeWorker(wId: int, dId: int) returns (r: Result<SnowflakeIdWorker, string>)
    ensures r.Ok? <==> 0 <= dId <= 31 && 0 <= wId <= 31
    ensures r.Ok? ==> fresh(r.value) && r.value.State() == Worker(0, wId, dId, 0)
  {
    if wId < 0 || wId > MAX_NODE {
      return Err("worker ID excess of quantity");
    }
    if dId < 0 || dId > MAX_NODE {
      return Err("datacenter ID excess of quantity");
    }
    var w := new SnowflakeIdWorker(wId, dId);
    r := Ok(w);
  }

  // ---------------------------------------------------------------- packing is invertible

  const SPAN := 0x400_0000_0000

  /** The timestamps that the 42 bits above the node can tell apart, the epoch itself excluded. */
  predicate InRange(time: int) {
    EPOCH < time < EPOCH + SPAN
  }

  predicate ValidNode(datacenter: int, worker: int) {
    0 <= datacenter <= MAX_NODE && 0 <= worker <= MAX_NODE
  }

  predicate ValidSequence(sequence: int) {
    0 <= sequence < SEQUENCES
  }

  function TimeOf(id: int): int { id / TIME_UNIT + EPOCH }
  function DatacenterOf(id: int): int { id / 0x2_0000 % 32 }
  function WorkerOf(id: int): int { id / 0x1000 % 32 }
  function SequenceOf(id: int): int { id % SEQUENCES }

  lemma PackInRange(time: int, datacenter: int, worker: int, sequence: int)
    requires InRange(time) && ValidNode(datacenter, worker) && ValidSequence(sequence)
    ensures Pack(time, datacenter, worker, sequence)
         == (time - EPOCH) * TIME_UNIT + datacenter * 0x2_0000 + worker * 0x1000 + sequence
  {}

  /** All four fields can be read back from an id. For 41 bits of milliseconds its top bit, the sign of
      the int64, is clear; after that it is set. */
  lemma PackingDecodes(time: int, datacenter: int, worker: int, sequence: int)
    requires InRange(time) && ValidNode(datacenter, worker) && ValidSequence(sequence)
    ensures var id := Pack(time, datacenter, worker, sequence);
      && TimeOf(id) == time && DatacenterOf(id) == datacenter
      && WorkerOf(id) == worker && SequenceOf(id) == sequence
      && 0 <= id < TWO_64 && (id < 0x8000_0000_0000_0000 <==> time < EPOCH + 0x200_0000_0000)
  {
    PackInRange(time, datacenter, worker, sequence);
    var id := Pack(time, datacenter, worker, sequence);
    assert id / 0x1000 == (time - EPOCH) * 0x400 + datacenter * 32 + worker;
    assert id / 0x2_0000 == (time - EPOCH) * 32 + datacenter;
  }

  /** The range cannot be longer: after 2^42 milliseconds the ids come round again. */
  lemma PackingWraps(time: int, datacenter: int, worker: int, sequence: int)
    ensures Pack(time + SPAN, datacenter, worker, sequence) == Pack(time, datacenter, worker, sequence)
  {
    assert (time + SPAN - EPOCH) * TIME_UNIT == (time - EPOCH) * TIME_UNIT + TWO_64;
  }

  /** Exactly when an issued id can be mistaken for the clock error: only for node (0, 0), at a time
      that the 42 bits above the node cannot tell from the epoch. */
  lemma SentinelClash(time: int, datacenter: int, worker: int, sequence: int)
    requires ValidNode(datacenter, worker) && ValidSequence(sequence)
    ensures Pack(time, datacenter, worker, sequence) == CLOCK_ERROR
        <==> (time - EPOCH) % SPAN == 0 && datacenter == 0 && worker == 0 && sequence == CLOCK_ERROR
  {
    PackModulo(time, datacenter * 0x2_0000 + worker * 0x1000 + sequence);
  }

  // ---------------------------------------------------------------- whole runs

  datatype Call = Call(now: int, readings: seq<int>)

  /** Did the call get past the backwards-clock test and come back? */
  predicate Succeeds(w: Worker, c: Call) {
    w.lastTimestamp <= c.now && Next(w, c.now, c.readings).1.Returned?
  }

  function After(w: Worker, c: Call): Worker {
    Next(w, c.now, c.readings).0
  }

  /** The ids one worker hands out over a run of calls, failed calls left out. A call that never returns
      holds the lock for good, so it ends the run. */
  function Issued(w: Worker, calls: seq<Call>): seq<int>
    decreases |calls|
  {
    if calls == [] || Stuck(w, calls[0]) then []
    else
      var rest := Issued(After(w, calls[0]), calls[1..]);
      if Succeeds(w, calls[0]) then [Next(w, calls[0].now, calls[0].readings).1.id] + rest else rest
  }

  predicate Stuck(w: Worker, c: Call) {
    Next(w, c.now, c.readings).1.Spinning?
  }

  /** Every time the worker accepts on the run is in the range. */
  predicate AcceptedInRange(w: Worker, calls: seq<Call>)
    decreases |calls|
  {
    calls == [] || Stuck(w, calls[0]) ||
    ((Succeeds(w, calls[0]) ==> InRange(After(w, calls[0]).lastTimestamp))
     && AcceptedInRange(After(w, calls[0]), calls[1..]))
  }

  predicate ValidWorker(w: Worker) {
    ValidNode(w.datacenterId, w.workerId) && ValidSequence(w.sequence)
  }

  /** A bound below every id still to come: the last one issued, if there is one. */
  function Floor(w: Worker): int {
    if InRange(w.lastTimestamp) then CurrentId(w) else CLOCK_ERROR
  }

  lemma NextAbove(w: Worker, c: Call)
    requires ValidWorker(w) && (InRange(w.lastTimestamp) || w.lastTimestamp <= EPOCH)
    requires Succeeds(w, c) && InRange(After(w, c).lastTimestamp)
    ensures Floor(w) < CurrentId(After(w, c)) == Next(w, c.now, c.readings).1.id
    ensures ValidWorker(After(w, c)) && Floor(After(w, c)) == CurrentId(After(w, c))
  {
    var v := After(w, c);
    PackInRange(v.lastTimestamp, v.datacenterId, v.workerId, v.sequence);
    if InRange(w.lastTimestamp) {
      PackInRange(w.lastTimestamp, w.datacenterId, w.workerId, w.sequence);
    }
  }

  /** The node can be read back whatever the time, before the epoch and after the ids have come round. */
  lemma NodeDecodes(time: int, datacenter: int, worker: int, sequence: int)
    requires ValidNode(datacenter, worker) && ValidSequence(sequence)
    ensures var id := Pack(time, datacenter, worker, sequence);
      DatacenterOf(id) == datacenter && WorkerOf(id) == worker
  {
    var low := datacenter * 0x2_0000 + worker * 0x1000 + sequence;
    var t := (time - EPOCH) % SPAN;
    PackModulo(time, low);
    var id := t * TIME_UNIT + low;
    assert id / 0x1000 == t * 0x400 + datacenter * 32 + worker;
    assert id / 0x2_0000 == t * 32 + datacenter;
  }

  lemma PackModulo(time: int, low: int)
    requires 0 <= low < TIME_UNIT
    ensures ((time - EPOCH) * TIME_UNIT + low) % TWO_64 == (time - EPOCH) % SPAN * TIME_UNIT + low
  {
    var e := time - EPOCH;
    assert e == e / SPAN * SPAN + e % SPAN;
    assert e * TIME_UNIT + low == e / SPAN * TWO_64 + (e % SPAN * TIME_UNIT + low);
  }

  lemma {:induction false} IssuedOnNode(w: Worker, calls: seq<Call>)
    requires ValidWorker(w)
    ensures forall id :: id in Issued(w, calls) ==> DatacenterOf(id) == w.datacenterId && WorkerOf(id) == w.workerId
    decreases |calls|
  {
    if calls == [] || Stuck(w, calls[0]) {
    } else {
      var v := After(w, calls[0]);
      IssuedOnNode(v, calls[1..]);
      NodeDecodes(v.lastTimestamp, v.datacenterId, v.workerId, v.sequence);
    }
  }

  /** Over any run, whatever the clock does, the ids of one worker strictly increase, stay clear of
      the clock error, and decode to the worker that made them. */
  lemma {:induction false} RunIncreases(w: Worker, calls: seq<Call>)
    requires ValidWorker(w) && (InRange(w.lastTimestamp) || w.lastTimestamp <= EPOCH)
    requires AcceptedInRange(w, calls)
    ensures var ids := Issued(w, calls);
      && AllAbove(ids, Floor(w)) && StrictlyIncreasing(ids)
      && (forall id :: id in ids ==> DatacenterOf(id) == w.datacenterId && WorkerOf(id) == w.workerId)
    decreases |calls|
  {
    IssuedOnNode(w, calls);
    if calls == [] || Stuck(w, calls[0]) {
    } else {
      var c := calls[0];
      RunIncreases(After(w, c), calls[1..]);
      if Succeeds(w, c) {
        NextAbove(w, c);
        Precede(CurrentId(After(w, c)), Issued(After(w, c), calls[1..]), Floor(w));
      } else {
        assert After(w, c) == w;
      }
    }
  }

  predicate AllAbove(ids: seq<int>, floor: int) {
    forall i :: 0 <= i < |ids| ==> floor < ids[i]
  }

  predicate StrictlyIncreasing(ids: seq<int>) {
    forall i, j :: 0 <= i < j < |ids| ==> ids[i] < ids[j]
  }

  lemma Precede(id: int, ids: seq<int>, floor: int)
    requires StrictlyIncreasing(ids) && AllAbove(ids, id) && floor < id
    ensures StrictlyIncreasing([id] + ids) && AllAbove([id] + ids, floor)
  {}

  /** A fresh worker: no id is ever repeated and none is the clock error. */
  lemma FreshWorkerRun(wId: int, dId: int, calls: seq<Call>)
    requires ValidNode(dId, wId)
    requires AcceptedInRange(Worker(0, wId, dId, 0), calls)
    ensures var ids := Issued(Worker(0, wId, dId, 0), calls);
      CLOCK_ERROR !in ids && StrictlyIncreasing(ids)
  {
    RunIncreases(Worker(0, wId, dId, 0), calls);
  }

  /** Workers on different nodes never produce a common id, in any two runs, whatever their clocks do. */
  lemma NodesNeverCollide(v: Worker, w: Worker, calls: seq<Call>, calls': seq<Call>)
    requires ValidWorker(v) && ValidWorker(w)
    requires (v.datacenterId, v.workerId) != (w.datacenterId, w.workerId)
    ensures forall id :: !(id in Issued(v, calls) && id in Issued(w, calls'))
  {
    IssuedOnNode(v, calls);
    IssuedOnNode(w, calls');
  }

  // ---------------------------------------------------------------- which time and sequence an id carries

  /** The reading is the first one past the last timestamp. */
  predicate FirstLater(readings: seq<int>, last: int, reading: int) {
    exists k :: 0 <= k < |readings| && readings[k] == reading && last < reading
                && forall i :: 0 <= i < k ==> readings[i] <= last
  }

  /** A clock behind the last timestamp changes nothing. A later one starts a new count. The same one goes
      on counting, and after the 4096th id of a millisecond the first later reading is taken. */
  lemma NextMeans(w: Worker, c: Call)
    requires ValidWorker(w)
    ensures var v := After(w, c);
      && v.workerId == w.workerId && v.datacenterId == w.datacenterId
      && (c.now < w.lastTimestamp ==>
            v == w && !Succeeds(w, c) && Next(w, c.now, c.readings).1 == Returned(3001))
      && (c.now > w.lastTimestamp ==> Succeeds(w, c) && v.lastTimestamp == c.now && v.sequence == 0)
      && (c.now == w.lastTimestamp && w.sequence < 4095 ==>
            Succeeds(w, c) && v.lastTimestamp == c.now && v.sequence == w.sequence + 1)
      && (c.now == w.lastTimestamp && w.sequence == 4095 && Succeeds(w, c) ==>
            FirstLater(c.readings, w.lastTimestamp, v.lastTimestamp) && v.sequence == 0)
  {}

  /** The id of a call says when it was made and the how many-th it was. */
  lemma IdMeans(w: Worker, c: Call)
    requires ValidWorker(w) && Succeeds(w, c) && InRange(After(w, c).lastTimestamp)
    ensures var id, v := Next(w, c.now, c.readings).1.id, After(w, c);
      && TimeOf(id) == v.lastTimestamp && SequenceOf(id) == v.sequence
      && DatacenterOf(id) == w.datacenterId && WorkerOf(id) == w.workerId
  {
    var v := After(w, c);
    NextMeans(w, c);
    PackingDecodes(v.lastTimestamp, v.datacenterId, v.workerId, v.sequence);
  }

  /** `n` calls that all read the clock as `time`. */
  function Repeated(time: int, n: nat): seq<Call> {
    seq(n, _ => Call(time, []))
  }

  function Numbered(time: int, w: Worker, first: int, n: nat): seq<int> {
    seq(n, i => Pack(time, w.datacenterId, w.workerId, first + i))
  }

  lemma {:induction false} SameMillisecond(w: Worker, n: nat)
    requires ValidWorker(w) && w.sequence + n < 4096
    ensures Issued(w, Repeated(w.lastTimestamp, n)) == Numbered(w.lastTimestamp, w, w.sequence + 1, n)
    decreases n
  {
    if n == 0 {
    } else {
      var c := Call(w.lastTimestamp, []);
      var v := After(w, c);
      NextMeans(w, c);
      assert Repeated(w.lastTimestamp, n) == [c] + Repeated(w.lastTimestamp, n - 1);
      SameMillisecond(v, n - 1);
      assert Numbered(w.lastTimestamp, w, w.sequence + 1, n)
          == [CurrentId(v)] + Numbered(w.lastTimestamp, v, v.sequence + 1, n - 1);
    }
  }

  /** A new millisecond is good for 4096 ids, numbered from 0 in the order of the calls. */
  lemma FullMillisecond(w: Worker, time: int, n: nat)
    requires ValidWorker(w) && w.lastTimestamp < time && n <= 4096
    ensures Issued(w, Repeated(time, n)) == Numbered(time, w, 0, n)
  {
    if n > 0 {
      var c := Call(time, []);
      var v := After(w, c);
      NextMeans(w, c);
      assert Repeated(time, n) == [c] + Repeated(time, n - 1);
      SameMillisecond(v, n - 1);
      assert Numbered(time, w, 0, n) == [CurrentId(v)] + Numbered(time, v, 1, n - 1);
    }
  }

  // ---------------------------------------------------------------- exactly which runs

  /** The 42 bits above the node. */
  function Residue(w: Worker): int {
    (w.lastTimestamp - EPOCH) % SPAN
  }

  /** Does the call leave a state whose id, on node (0, 0), is the clock error? */
  predicate Clashes(w: Worker, c: Call) {
    Succeeds(w, c) && Residue(After(w, c)) == 0 && After(w, c).sequence == CLOCK_ERROR
  }

  predicate SomeClash(w: Worker, calls: seq<Call>)
    decreases |calls|
  {
    calls != [] && !Stuck(w, calls[0]) && (Clashes(w, calls[0]) || SomeClash(After(w, calls[0]), calls[1..]))
  }

  lemma NextKeepsWorker(w: Worker, c: Call)
    requires ValidWorker(w)
    ensures ValidWorker(After(w, c))
    ensures After(w, c).datacenterId == w.datacenterId && After(w, c).workerId == w.workerId
    ensures !Succeeds(w, c) && !Stuck(w, c) ==> After(w, c) == w
    ensures Succeeds(w, c) ==> Next(w, c.now, c.readings).1.id == CurrentId(After(w, c))
  {}

  /** Whatever the clock does: an issued id equals the clock error if and only if the worker is on node
      (0, 0) and reaches sequence 3001 at a time that the ids cannot tell from the epoch. */
  lemma {:induction false} ExactlyWhenSentinel(w: Worker, calls: seq<Call>)
    requires ValidWorker(w)
    ensures CLOCK_ERROR in Issued(w, calls) <==> w.datacenterId == 0 && w.workerId == 0 && SomeClash(w, calls)
    decreases |calls|
  {
    if calls == [] || Stuck(w, calls[0]) {
    } else {
      var v := After(w, calls[0]);
      NextKeepsWorker(w, calls[0]);
      SentinelClash(v.lastTimestamp, v.datacenterId, v.workerId, v.sequence);
      ExactlyWhenSentinel(v, calls[1..]);
    }
  }

  /** From an id to the next: the same time, or one with larger bits. */
  predicate Rises(w: Worker, v: Worker) {
    v.lastTimestamp == w.lastTimestamp || Residue(w) < Residue(v)
  }

  /** Along the run every new time has larger bits than the one before it that was used; `used` says that
      the worker's own time was. */
  predicate AlwaysRises(w: Worker, used: bool, calls: seq<Call>)
    decreases |calls|
  {
    calls == [] || Stuck(w, calls[0]) ||
    var v := After(w, calls[0]);
    (if Succeeds(w, calls[0]) then (used ==> Rises(w, v)) && AlwaysRises(v, true, calls[1..])
     else AlwaysRises(v, used, calls[1..]))
  }

  predicate Increasing(ids: seq<int>) {
    |ids| < 2 || (ids[0] < ids[1] && Increasing(ids[1..]))
  }

  lemma {:induction false} IncreasingMeans(ids: seq<int>)
    ensures Increasing(ids) <==> StrictlyIncreasing(ids)
    decreases |ids|
  {
    if |ids| >= 2 {
      var rest := ids[1..];
      IncreasingMeans(rest);
      assert ids == [ids[0]] + rest;
      if Increasing(ids) {
        Precede(ids[0], rest, ids[0] - 1);
      }
      if StrictlyIncreasing(ids) {
        TailIncreases(ids);
      }
    }
  }

  lemma TailIncreases(ids: seq<int>)
    requires StrictlyIncreasing(ids) && |ids| >= 2
    ensures StrictlyIncreasing(ids[1..]) && ids[0] < ids[1]
  {
    forall i, j | 0 <= i < j < |ids[1..]|
      ensures ids[1..][i] < ids[1..][j]
    {
      assert ids[i + 1] < ids[j + 1];
    }
  }

  lemma CurrentIdParts(w: Worker)
    requires ValidWorker(w)
    ensures CurrentId(w)
         == Residue(w) * TIME_UNIT + (w.datacenterId * 0x2_0000 + w.workerId * 0x1000 + w.sequence)
  {
    PackModulo(w.lastTimestamp, w.datacenterId * 0x2_0000 + w.workerId * 0x1000 + w.sequence);
  }

  lemma NextRises(w: Worker, c: Call)
    requires ValidWorker(w) && Succeeds(w, c)
    ensures CurrentId(w) < CurrentId(After(w, c)) <==> Rises(w, After(w, c))
  {
    var v := After(w, c);
    NextKeepsWorker(w, c);
    CurrentIdParts(w);
    CurrentIdParts(v);
    assert if v.lastTimestamp == w.lastTimestamp then v.sequence == w.sequence + 1 else v.sequence == 0;
  }

  lemma {:induction false} RunRises(w: Worker, used: bool, calls: seq<Call>)
    requires ValidWorker(w)
    ensures Increasing((if used then [CurrentId(w)] else []) + Issued(w, calls)) <==> AlwaysRises(w, used, calls)
    decreases |calls|
  {
    if calls == [] || Stuck(w, calls[0]) {
    } else {
      var c, v := calls[0], After(w, calls[0]);
      var ids := Issued(v, calls[1..]);
      NextKeepsWorker(w, c);
      if Succeeds(w, c) {
        RunRises(v, true, calls[1..]);
        NextRises(w, c);
        assert [] + ([CurrentId(v)] + ids) == [CurrentId(v)] + ids;
        assert ([CurrentId(w)] + ([CurrentId(v)] + ids))[1..] == [CurrentId(v)] + ids;
      } else {
        RunRises(v, used, calls[1..]);
      }
    }
  }

  /** Whatever the clock does, before the epoch and after the ids have come round included: the ids of a
      run strictly increase if and only if each new time has larger bits than the one used before it. */
  lemma ExactlyWhenIncreasing(w: Worker, calls: seq<Call>)
    requires ValidWorker(w)
    ensures StrictlyIncreasing(Issued(w, calls)) <==> AlwaysRises(w, false, calls)
  {
    RunRises(w, false, calls);
    IncreasingMeans(Issued(w, calls));
    assert [] + Issued(w, calls) == Issued(w, calls);
  }

  /** What the caller sees: the clock error exactly when the clock went backwards or the issued id happens
      to be that number, and a wait that goes on exactly as long as no reading has passed the last
      timestamp. */
  lemma OutcomeMeaning(w: Worker, c: Call)
    requires ValidWorker(w)
    ensures Next(w, c.now, c.readings).1 == Returned(CLOCK_ERROR)
       <==> c.now < w.lastTimestamp || (w.datacenterId == 0 && w.workerId == 0 && Clashes(w, c))
    ensures Stuck(w, c) <==>
            c.now == w.lastTimestamp && w.sequence == SEQUENCES - 1
            && forall i :: 0 <= i < |c.readings| ==> c.readings[i] <= w.lastTimestamp
  {
    var v := After(w, c);
    NextKeepsWorker(w, c);
    SentinelClash(v.lastTimestamp, v.datacenterId, v.workerId, v.sequence);
  }
}
