/** core/guid.go: 64-bit ids from a high word that a remote allocator hands out and a local low word.
    The allocator's answer to a call that needs one is an input: a uint32, or nothing on failure. */
module Guid {
  import opened Prelude

  const LOW_LIMIT := 2147483647

  datatype Words = Words(high: int, low: int)

  /** Go's int32(v) of a uint32. */
  function ToInt32(v: int): int {
    if v < 0x8000_0000 then v else v - TWO_32
  }

  type Allocation = a: Option<int> | a.Some? ==> 0 <= a.value < TWO_32 witness None

  /** highGuidRefresh: on a failed call the old high word stays. */
  function Refresh(w: Words, answer: Allocation): Words {
    if answer.Some? then w.(high := ToInt32(answer.value)) else w
  }

  /** int64(high)<<32 | int64(low), for a low word that is not negative. */
  function Join(w: Words): int {
    w.high * TWO_32 + w.low
  }

  function Next(w: Words, answer: Allocation): Words {
    var v := if w.high == 0 then Refresh(w.(low := 0), answer) else w;
    if v.low + 1 == LOW_LIMIT then Refresh(v.(low := 0), answer) else v.(low := v.low + 1)
  }

  predicate NeedsAllocation(w: Words) {
    w.high == 0 || w.low + 1 == LOW_LIMIT
  }

  predicate Valid(w: Words) {
    0 <= w.low < LOW_LIMIT && -0x8000_0000 <= w.high < 0x8000_0000
  }

  class GuidManager {
    var highGuid: int
    var lowGuid: int

    ghost function State(): Words
      reads this
    {
      Words(highGuid, lowGuid)
    }

    constructor ()
      ensures State() == Words(0, 0)
    {
      highGuid, lowGuid := 0, 0;
    }

    method GetGuid(answer: Allocation) returns (guid: int)
      requires Valid(State())
      modifies this
      ensures Valid(State()) && State() == Next(old(State()), answer)
      ensures guid == Join(State())
    {
      if highGuid == 0 {
        lowGuid := 0;
        HighGuidRefresh(answer);
      }
      lowGuid := lowGuid + 1;
      if lowGuid == LOW_LIMIT {
        lowGuid := 0;
        HighGuidRefresh(answer);
      }
      guid := highGuid * TWO_32 + lowGuid;
    }

    method HighGuidRefresh(answer: Allocation)
      modifies this
      ensures State() == Refresh(old(State()), answer)
    {
      if answer.Some? {
        highGuid := ToInt32(answer.value);
      }
    }
  }

  /** What an id is made of: the allocator's word, as it was given, or the old one, above a counter that
      starts at 1 when there was no word and at 0 after a rollover. */
  lemma IdParts(w: Words, answer: Allocation)
    requires Valid(w)
    ensures var id, allocates := Join(Next(w, answer)), w.high == 0 || w.low == 2147483646;
      && id % TWO_32 == (if !allocates then w.low + 1 else if w.high == 0 then 1 else 0)
      && id / TWO_32 % TWO_32 == (if allocates && answer.Some? then answer.value else w.high % TWO_32)
  {
    var v := Next(w, answer);
    assert Join(v) / TWO_32 == v.high && Join(v) % TWO_32 == v.low;
  }

  // ---------------------------------------------------------------- whole runs

  /** The ids of successive calls; `answers[i]` is what the allocator would say to call i. */
  function Ids(w: Words, answers: seq<Allocation>): (ids: seq<int>)
    ensures |ids| == |answers|
    decreases |answers|
  {
    if answers == [] then []
    else var v := Next(w, answers[0]); [Join(v)] + Ids(v, answers[1..])
  }

  /** The states after each call; an id is the join of one. */
  function States(w: Words, answers: seq<Allocation>): (states: seq<Words>)
    ensures |states| == |answers|
    decreases |answers|
  {
    if answers == [] then [] else var v := Next(w, answers[0]); [v] + States(v, answers[1..])
  }

  predicate NoRepeat<T(==)>(s: seq<T>) {
    forall i, j :: 0 <= i < j < |s| ==> s[i] != s[j]
  }

  lemma NextKeepsValid(w: Words, answer: Allocation)
    requires Valid(w)
    ensures Valid(Next(w, answer))
    ensures !NeedsAllocation(w) ==> Next(w, answer) == Words(w.high, w.low + 1)
    ensures NeedsAllocation(w) ==> Next(w, answer).low == if w.high == 0 then 1 else 0
  {}

  lemma JoinSplits(v: Words, w: Words)
    requires Valid(v) && Valid(w) && Join(v) == Join(w)
    ensures v == w
  {}

  lemma {:induction false} IdsAreJoins(w: Words, answers: seq<Allocation>)
    requires Valid(w)
    ensures forall i :: 0 <= i < |answers| ==>
              Valid(States(w, answers)[i]) && Ids(w, answers)[i] == Join(States(w, answers)[i])
    decreases |answers|
  {
    if answers == [] {
    } else {
      NextKeepsValid(w, answers[0]);
      IdsAreJoins(Next(w, answers[0]), answers[1..]);
    }
  }

  lemma IdsRepeatAsStatesDo(w: Words, answers: seq<Allocation>)
    requires Valid(w)
    ensures NoRepeat(Ids(w, answers)) <==> NoRepeat(States(w, answers))
  {
    IdsAreJoins(w, answers);
    var ids, states := Ids(w, answers), States(w, answers);
    forall i, j | 0 <= i < j < |answers|
      ensures ids[i] == ids[j] <==> states[i] == states[j]
    {
      if ids[i] == ids[j] {
        JoinSplits(states[i], states[j]);
      }
    }
  }

  // ---------------------------------------------------------------- exactly when ids repeat

  /** `v` is the state an allocation led to, `starts` those that earlier ones led to. A high word that
      stayed or became 0 clashes with the same state; any other with a run of low words that started at
      0, or at 1 unless this one starts at 0 and no further call comes. */
  predicate Clashes(v: Words, starts: set<Words>, last: bool) {
    if v.high == 0 then v in starts
    else Words(v.high, 0) in starts || (Words(v.high, 1) in starts && (v.low == 1 || !last))
  }

  /** No allocation of the run leads to a high word that clashes with an earlier one, whether it failed,
      was answered with 0, or was answered with a word already used. */
  predicate NeverClashes(w: Words, answers: seq<Allocation>, starts: set<Words>)
    decreases |answers|
  {
    answers == [] ||
    var v := Next(w, answers[0]);
    if NeedsAllocation(w)
    then !Clashes(v, starts, |answers| == 1) && NeverClashes(v, answers[1..], starts + {v})
    else NeverClashes(v, answers[1..], starts)
  }

  /** The states gone through so far: from each start up to the end of the low words, the current high
      word's only up to where it is now. */
  predicate Visited(w: Words, starts: set<Words>, u: Words) {
    if u.high == 0 then u in starts
    else
      && u.low < LOW_LIMIT && (u.high == w.high ==> u.low <= w.low)
      && ((Words(u.high, 0) in starts && 0 <= u.low) || (Words(u.high, 1) in starts && 1 <= u.low))
  }

  /** The current high word has a start at or below the current low word. */
  predicate Started(w: Words, starts: set<Words>) {
    w.high != 0 ==> Visited(w, starts, w)
  }

  lemma CountingVisits(w: Words, starts: set<Words>, answer: Allocation, u: Words)
    requires Valid(w) && Started(w, starts) && !NeedsAllocation(w)
    ensures var v := Next(w, answer);
      && Started(v, starts) && !Visited(w, starts, v)
      && (Visited(v, starts, u) <==> Visited(w, starts, u) || u == v)
  {
    NextKeepsValid(w, answer);
  }

  lemma AllocatingVisits(w: Words, starts: set<Words>, answer: Allocation, u: Words)
    requires Valid(w) && NeedsAllocation(w)
    requires var v := Next(w, answer); !Clashes(v, starts, false)
    ensures var v := Next(w, answer);
      && Started(v, starts + {v}) && !Visited(w, starts, v)
      && (Visited(v, starts + {v}, u) <==> Visited(w, starts, u) || u == v)
  {
    NextKeepsValid(w, answer);
  }

  /** A clash shows at once, or with the next call. */
  lemma ClashShows(w: Words, starts: set<Words>, answers: seq<Allocation>)
    requires Valid(w) && NeedsAllocation(w) && answers != []
    requires Clashes(Next(w, answers[0]), starts, |answers| == 1)
    ensures exists i :: 0 <= i < |answers| && Visited(w, starts, States(w, answers)[i])
  {
    var v := Next(w, answers[0]);
    NextKeepsValid(w, answers[0]);
    assert States(w, answers)[0] == v;
    if !Visited(w, starts, v) {
      assert Next(v, answers[1]) == Words(v.high, 1);
      assert States(w, answers)[1] == States(v, answers[1..])[0] == Next(v, answers[1..][0]);
    }
  }

  /** The states to come repeat neither themselves nor what was visited. */
  ghost predicate AllNew(w: Words, starts: set<Words>, states: seq<Words>) {
    NoRepeat(states) && forall i :: 0 <= i < |states| ==> !Visited(w, starts, states[i])
  }

  /** A first state that is new, followed by states that are new after it. */
  lemma NewCons(w: Words, starts: set<Words>, v: Words, starts': set<Words>, rest: seq<Words>)
    requires !Visited(w, starts, v)
    requires forall u :: Visited(v, starts', u) <==> Visited(w, starts, u) || u == v
    ensures AllNew(w, starts, [v] + rest) <==> AllNew(v, starts', rest)
  {
    var states := [v] + rest;
    assert forall i :: 0 <= i < |rest| ==> states[i + 1] == rest[i];
    if AllNew(w, starts, states) {
      forall i | 0 <= i < |rest|
        ensures !Visited(v, starts', rest[i])
      {
        assert states[0] != states[i + 1];
      }
      forall i, j | 0 <= i < j < |rest|
        ensures rest[i] != rest[j]
      {
        assert states[i + 1] != states[j + 1];
      }
    }
  }

  lemma {:induction false} NewExactlyWithoutClash(w: Words, answers: seq<Allocation>, starts: set<Words>)
    requires Valid(w) && Started(w, starts)
    ensures AllNew(w, starts, States(w, answers)) <==> NeverClashes(w, answers, starts)
    decreases |answers|
  {
    if answers == [] {
    } else {
      var v, rest := Next(w, answers[0]), answers[1..];
      NextKeepsValid(w, answers[0]);
      if !NeedsAllocation(w) {
        forall u
          ensures Visited(v, starts, u) <==> Visited(w, starts, u) || u == v
        {
          CountingVisits(w, starts, answers[0], u);
        }
        CountingVisits(w, starts, answers[0], v);
        NewCons(w, starts, v, starts, States(v, rest));
        NewExactlyWithoutClash(v, rest, starts);
      } else if Clashes(v, starts, |answers| == 1) {
        ClashShows(w, starts, answers);
      } else if Clashes(v, starts, false) {
        assert States(w, answers) == [v] && rest == [];
      } else {
        forall u
          ensures Visited(v, starts + {v}, u) <==> Visited(w, starts, u) || u == v
        {
          AllocatingVisits(w, starts, answers[0], u);
        }
        AllocatingVisits(w, starts, answers[0], v);
        NewCons(w, starts, v, starts + {v}, States(v, rest));
        NewExactlyWithoutClash(v, rest, starts + {v});
      }
    }
  }

  /** Whatever the allocator answers, over any number of rollovers: the ids of sequential calls are all
      different if and only if no allocation clashes with an earlier one. */
  lemma ExactlyWhenUnique(answers: seq<Allocation>)
    ensures NoRepeat(Ids(Words(0, 0), answers)) <==> NeverClashes(Words(0, 0), answers, {})
  {
    var w := Words(0, 0);
    IdsRepeatAsStatesDo(w, answers);
    NewExactlyWithoutClash(w, answers, {});
  }

  /** At any rollover, a failed allocation or one that names a high word already started clashes, unless
      no further call comes. */
  lemma BadRolloverClashes(w: Words, starts: set<Words>, answer: Allocation)
    requires Valid(w) && Started(w, starts) && w.high != 0 && w.low + 1 == LOW_LIMIT
    requires answer.Some? ==>
               ToInt32(answer.value) != 0 && exists v :: v in starts && v.high == ToInt32(answer.value) && 0 <= v.low <= 1
    ensures Clashes(Next(w, answer), starts, false)
  {
    if answer.Some? {
      var v :| v in starts && v.high == ToInt32(answer.value) && 0 <= v.low <= 1;
      assert v == Words(v.high, 0) || v == Words(v.high, 1);
    }
  }

  /** Every allocation the run makes is answered with a word that is not zero and not used before. */
  predicate AlwaysFresh(w: Words, answers: seq<Allocation>, used: set<int>)
    decreases |answers|
  {
    answers == [] ||
    var v := Next(w, answers[0]);
    if NeedsAllocation(w)
    then
      && answers[0].Some? && answers[0].value != 0 && answers[0].value !in used
      && AlwaysFresh(v, answers[1..], used + {answers[0].value})
    else AlwaysFresh(v, answers[1..], used)
  }

  lemma {:induction false} FreshNeverClashes(w: Words, answers: seq<Allocation>, used: set<int>, starts: set<Words>)
    requires AlwaysFresh(w, answers, used) && forall v :: v in starts ==> v.high % TWO_32 in used
    ensures NeverClashes(w, answers, starts)
    decreases |answers|
  {
    if answers == [] {
    } else {
      var v := Next(w, answers[0]);
      if NeedsAllocation(w) {
        assert v.high % TWO_32 == answers[0].value;
        assert v.high == 0 || v.high % TWO_32 != 0;
        FreshNeverClashes(v, answers[1..], used + {answers[0].value}, starts + {v});
      } else {
        FreshNeverClashes(v, answers[1..], used, starts);
      }
    }
  }

  /** In particular when every allocation succeeds with an unused high word other than 0. */
  lemma NeverRepeats(answers: seq<Allocation>)
    requires AlwaysFresh(Words(0, 0), answers, {})
    ensures NoRepeat(Ids(Words(0, 0), answers))
  {
    FreshNeverClashes(Words(0, 0), answers, {}, {});
    ExactlyWhenUnique(answers);
  }

  // ---------------------------------------------------------------- what a failed allocation does

  function After(w: Words, answers: seq<Allocation>): Words
    decreases |answers|
  {
    if answers == [] then w else After(Next(w, answers[0]), answers[1..])
  }

  lemma {:induction false} IdsAppend(w: Words, a: seq<Allocation>, b: seq<Allocation>)
    ensures Ids(w, a + b) == Ids(w, a) + Ids(After(w, a), b)
    decreases |a|
  {
    if a == [] {
      assert a + b == b;
    } else {
      assert (a + b)[1..] == a[1..] + b;
      IdsAppend(Next(w, a[0]), a[1..], b);
    }
  }

  lemma {:induction false} CountsUp(w: Words, answers: seq<Allocation>)
    requires w.high != 0 && w.low + |answers| < LOW_LIMIT
    ensures After(w, answers) == Words(w.high, w.low + |answers|)
    decreases |answers|
  {
    if answers == [] {
    } else {
      CountsUp(Next(w, answers[0]), answers[1..]);
    }
  }

  /** For instance: when the allocation at the first rollover fails, the call after it returns the first id again. */
  lemma FailedRolloverRepeats(first: Allocation, middle: seq<Allocation>, next: Allocation)
    requires first.Some? && ToInt32(first.value) != 0 && |middle| == LOW_LIMIT - 2
    ensures var ids := Ids(Words(0, 0), [first] + middle + [None, next]);
      ids[0] == ids[|ids| - 1] == Join(Words(ToInt32(first.value), 1))
  {
    var w := Words(ToInt32(first.value), 1);
    assert Next(Words(0, 0), first) == w;
    assert After(Words(0, 0), [first]) == After(w, [first][1..]) == w;
    CountsUp(w, middle);
    IdsAppend(Words(0, 0), [first], middle + [None, next]);
    IdsAppend(w, middle, [None, next]);
    var last := Words(w.high, LOW_LIMIT - 1);
    assert [None, next][1..] == [next];
    assert Ids(last, [None, next]) == [Join(Words(w.high, 0))] + Ids(Words(w.high, 0), [next]);
    assert [first] + middle + [None, next] == [first] + (middle + [None, next]);
  }

  /** Until an allocation succeeds with a word other than 0, every call returns the id 1. */
  lemma {:induction false} FailedStartRepeats(low: int, answers: seq<Allocation>)
    requires forall i :: 0 <= i < |answers| ==> answers[i] == None || ToInt32(answers[i].value) == 0
    ensures forall i :: 0 <= i < |answers| ==> Ids(Words(0, low), answers)[i] == 1
    decreases |answers|
  {
    if answers == [] {
    } else {
      assert answers[0] == None || ToInt32(answers[0].value) == 0;
      assert Next(Words(0, low), answers[0]) == Words(0, 1);
      FailedStartRepeats(1, answers[1..]);
    }
  }
}
