/**
  The identifier allocator: a cursor that walks cyclically over the range and a map
  of the offsets in use.  Calls hold a mutex, so every concurrent use of the object
  is some sequence of `Allocate` and `FreeID` calls; `Run` ranges over all of them.
*/
module IdGenerator {
  import opened Wrappers

  // -------------------------------------------------------------- cyclic positions

  /** `x % n` for the sums that occur here. */
  function Wrap(n: nat, x: nat): (r: nat)
    requires x < 2 * n
    ensures r < n
  {
    if x >= n then x - n else x
  }

  /** How far the cursor has to walk from `a` to `b`. */
  function Distance(n: nat, a: nat, b: nat): (d: nat)
    requires a < n && b < n
    ensures d < n && Wrap(n, a + d) == b
  {
    if b >= a then b - a else b + n - a
  }

  // ------------------------------------------------------------------ specification

  /** The allocator as a value: offsets run from 0 to `n - 1`. */
  datatype State = State(min: int, n: nat, offset: nat, used: set<int>) {
    predicate Valid() {
      offset < n && forall k :: k in used ==> 0 <= k < n
    }
  }

  datatype Event = Allocate | Free(id: int)

  /** What a call returned: an identifier, or the error of a full range. */
  type Reply = Option<int>

  predicate Full(st: State) {
    forall k :: 0 <= k < st.n ==> k in st.used
  }

  /** The offset `e` steps past the cursor. */
  function Ahead(st: State, e: nat): (k: nat)
    requires st.Valid() && e < st.n
    ensures k < st.n && Distance(st.n, st.offset, k) == e
  {
    Wrap(st.n, st.offset + e)
  }

  /** The first unused offset reached by walking on from `d` steps past the cursor. */
  function FirstFree(st: State, d: nat): (r: Option<nat>)
    requires st.Valid() && d <= st.n
    ensures r.Some? ==> r.value < st.n && r.value !in st.used && d <= Distance(st.n, st.offset, r.value)
    ensures r.Some? ==> forall e :: d <= e < Distance(st.n, st.offset, r.value) ==> Ahead(st, e) in st.used
    ensures r.None? ==> forall e :: d <= e < st.n ==> Ahead(st, e) in st.used
    decreases st.n - d
  {
    if d == st.n then None
    else if Ahead(st, d) !in st.used then Some(Ahead(st, d))
    else FirstFree(st, d + 1)
  }

  function Step(st: State, e: Event): (r: (State, Reply))
    requires st.Valid()
    ensures r.0.Valid() && r.0.min == st.min && r.0.n == st.n
  {
    match e
    case Free(id) => (st.(used := st.used - {id - st.min}), None)
    case Allocate =>
      match FirstFree(st, 0)
      case None => (st, None)
      case Some(k) => (st.(offset := Wrap(st.n, k + 1), used := st.used + {k}), Some(st.min + k))
  }

  // ------------------------------------------------------------------- single calls

  /** A call fails exactly when every identifier of the range is in use, and then changes nothing. */
  lemma AllocateFailsWhenFull(st: State)
    requires st.Valid()
    ensures Step(st, Allocate).1.None? <==> Full(st)
    ensures Full(st) ==> Step(st, Allocate).0 == st
  {
    if FirstFree(st, 0).None? {
      forall k | 0 <= k < st.n ensures k in st.used {
        assert Ahead(st, Distance(st.n, st.offset, k)) == k;
      }
    }
  }

  /** A call that succeeds takes the free offset nearest to the cursor, cyclically. */
  lemma AllocateTakesNearest(st: State, k: nat)
    requires st.Valid() && k < st.n && k !in st.used
    ensures var (st', reply) := Step(st, Allocate);
            && reply.Some? && st.min <= reply.value < st.min + st.n && reply.value - st.min !in st.used
            && Distance(st.n, st.offset, reply.value - st.min) <= Distance(st.n, st.offset, k)
  {
    AllocateFailsWhenFull(st);
    assert Ahead(st, Distance(st.n, st.offset, k)) == k;
  }

  // ------------------------------------------------------------------------ all runs

  /** The state after every prefix of the run, and the replies. */
  datatype Trace = Trace(states: seq<State>, replies: seq<Reply>)

  function Run(st: State, events: seq<Event>): (t: Trace)
    requires st.Valid()
    ensures |t.states| == |events| + 1 && |t.replies| == |events| && t.states[0] == st
    ensures forall i :: 0 <= i <= |events| ==> t.states[i].Valid()
    decreases |events|
  {
    if events == [] then Trace([st], [])
    else
      var (st', reply) := Step(st, events[0]);
      var rest := Run(st', events[1..]);
      Trace([st] + rest.states, [reply] + rest.replies)
  }

  lemma {:induction false} RunSteps(st: State, events: seq<Event>, i: nat)
    requires st.Valid() && i < |events|
    ensures var t := Run(st, events);
            (t.states[i + 1], t.replies[i]) == Step(t.states[i], events[i])
            && t.states[i].min == st.min && t.states[i].n == st.n
    decreases |events|
  {
    if i > 0 {
      RunSteps(Step(st, events[0]).0, events[1..], i - 1);
    }
  }

  /** The identifiers issued and not freed since, computed from the calls and replies alone. */
  function Live(events: seq<Event>, replies: seq<Reply>): (ids: set<int>)
    requires |events| == |replies|
    decreases |events|
  {
    if events == [] then {}
    else
      var last := |events| - 1;
      var before := Live(events[..last], replies[..last]);
      match events[last]
      case Free(id) => before - {id}
      case Allocate => if replies[last].Some? then before + {replies[last].value} else before
  }

  function Fresh(min: int, n: nat): (st: State)
    requires n > 0
    ensures st.Valid()
  {
    State(min, n, 0, {})
  }

  /** Identifier `id` is live exactly when its offset is in use. */
  predicate Tracked(live: set<int>, st: State, id: int) {
    id in live <==> id - st.min in st.used
  }

  ghost predicate AllTracked(live: set<int>, st: State) {
    forall id :: Tracked(live, st, id)
  }

  lemma LiveStep(events: seq<Event>, replies: seq<Reply>, i: nat, st: State, st': State)
    requires i < |events| == |replies| && st.Valid() && Step(st, events[i]) == (st', replies[i])
    requires AllTracked(Live(events[..i], replies[..i]), st)
    ensures AllTracked(Live(events[..i + 1], replies[..i + 1]), st')
  {
    var e, r := events[..i + 1], replies[..i + 1];
    assert e[..i] == events[..i] && r[..i] == replies[..i];
    var before, after := Live(events[..i], replies[..i]), Live(e, r);
    forall id ensures Tracked(after, st', id) {
      assert Tracked(before, st, id);
    }
  }

  /** On every run the used map is exactly the live identifiers, whatever was freed or refused. */
  lemma {:induction false} UsedIsLive(min: int, n: nat, events: seq<Event>, i: nat)
    requires n > 0 && i <= |events|
    ensures var t := Run(Fresh(min, n), events);
            t.states[i].min == min && t.states[i].n == n && AllTracked(Live(events[..i], t.replies[..i]), t.states[i])
    decreases i
  {
    var t := Run(Fresh(min, n), events);
    if i > 0 {
      UsedIsLive(min, n, events, i - 1);
      RunSteps(Fresh(min, n), events, i - 1);
      LiveStep(events, t.replies, i - 1, t.states[i - 1], t.states[i]);
    }
  }

  /**
    Safety on every run: an issued identifier is in range and is not live, so no
    identifier is ever live twice.
  */
  lemma IssuedOnce(min: int, n: nat, events: seq<Event>, i: nat)
    requires n > 0 && i < |events| && events[i].Allocate?
    ensures var t := Run(Fresh(min, n), events);
            t.replies[i].Some? ==>
              && min <= t.replies[i].value < min + n
              && t.replies[i].value !in Live(events[..i], t.replies[..i])
  {
    hide Run, Live;
    var t := Run(Fresh(min, n), events);
    UsedIsLive(min, n, events, i);
    RunSteps(Fresh(min, n), events, i);
    if t.replies[i].Some? {
      assert Tracked(Live(events[..i], t.replies[..i]), t.states[i], t.replies[i].value);
    }
  }

  /** Freeing what is not live changes nothing. */
  lemma FreeingUnissued(min: int, n: nat, events: seq<Event>, i: nat)
    requires n > 0 && i < |events| && events[i].Free?
    ensures var t := Run(Fresh(min, n), events);
            events[i].id !in Live(events[..i], t.replies[..i]) ==> t.states[i + 1] == t.states[i]
  {
    hide Run, Live;
    var t := Run(Fresh(min, n), events);
    UsedIsLive(min, n, events, i);
    RunSteps(Fresh(min, n), events, i);
    assert Tracked(Live(events[..i], t.replies[..i]), t.states[i], events[i].id);
  }

  predicate AllLive(min: int, n: nat, live: set<int>) {
    forall id :: min <= id < min + n ==> id in live
  }

  /** Allocation fails in a run exactly when all `n` identifiers of the range are live. */
  lemma FailsWhenAllLive(min: int, n: nat, events: seq<Event>, i: nat)
    requires n > 0 && i < |events| && events[i].Allocate?
    ensures var t := Run(Fresh(min, n), events);
            t.replies[i].None? <==> AllLive(min, n, Live(events[..i], t.replies[..i]))
  {
    hide Run, Live;
    var t := Run(Fresh(min, n), events);
    var st, live := t.states[i], Live(events[..i], t.replies[..i]);
    UsedIsLive(min, n, events, i);
    RunSteps(Fresh(min, n), events, i);
    AllocateFailsWhenFull(st);
    if t.replies[i].None? {
      forall id | min <= id < min + n ensures id in live {
        assert Tracked(live, st, id);
      }
    } else {
      var id := t.replies[i].value;
      assert Tracked(live, st, id);
      assert min <= id < min + n && id !in live;
    }
  }

  // ----------------------------------------------------------------------- progress

  function Successes(replies: seq<Reply>): (n: nat) {
    if replies == [] then 0 else (if replies[0].Some? then 1 else 0) + Successes(replies[1..])
  }

  /** One step either issues the free offset `k` or brings the cursor closer with every success. */
  lemma CursorApproaches(st: State, e: Event, k: nat)
    requires st.Valid() && k < st.n && k !in st.used
    ensures var (st', reply) := Step(st, e);
            || reply == Some(st.min + k)
            || (&& k !in st'.used
                && Distance(st'.n, st'.offset, k) + (if reply.Some? then 1 else 0) <= Distance(st.n, st.offset, k))
  {
    if e.Allocate? {
      AllocateTakesNearest(st, k);
    }
  }

  /**
    No starvation: an identifier that stays free is issued before the number of
    successful allocations exceeds the cursor's distance to it, hence within `n` of them.
  */
  lemma {:induction false} FreeIdIsIssued(st: State, events: seq<Event>, k: nat)
    requires st.Valid() && k < st.n && k !in st.used
    requires Successes(Run(st, events).replies) > Distance(st.n, st.offset, k)
    ensures Some(st.min + k) in Run(st, events).replies
    decreases |events|
  {
    hide Step, Distance;
    var (st', reply) := Step(st, events[0]);
    var t, rest := Run(st, events), Run(st', events[1..]);
    assert t.replies == [reply] + rest.replies;
    CursorApproaches(st, events[0], k);
    if reply != Some(st.min + k) {
      FreeIdIsIssued(st', events[1..], k);
    }
  }

  // ---------------------------------------------------------------- the object itself

  class IDGenerator {
    var minValue: int
    var maxValue: int
    var valueRange: int
    var offset: int
    var usedMap: map<int, bool>

    ghost predicate Valid()
      reads this
    {
      && valueRange == maxValue - minValue + 1 && 0 <= offset < valueRange
      && forall k :: k in usedMap ==> 0 <= k < valueRange
    }

    ghost function Abstract(): (st: State)
      requires Valid()
      reads this
      ensures st.Valid()
    {
      State(minValue, valueRange, offset, usedMap.Keys)
    }

    /** An empty range is accepted and has no offset to start from: the modulus is zero or negative. */
    constructor (min: int, max: int)
      ensures minValue == min && maxValue == max && valueRange == max - min + 1 && offset == 0 && usedMap == map[]
      ensures Valid() <==> min <= max
      ensures min <= max ==> Abstract() == Fresh(min, max - min + 1)
    {
      minValue, maxValue, valueRange, offset, usedMap := min, max, max - min + 1, 0, map[];
    }

    method UpdateOffset()
      requires Valid()
      modifies `offset
      ensures Valid() && offset == Wrap(valueRange, old(offset) + 1)
    {
      offset := (offset + 1) % valueRange;
      assert old(offset) + 1 < valueRange ==> offset == old(offset) + 1;
    }

    method AllocateId() returns (id: Option<int>)
      requires Valid()
      modifies `offset, `usedMap
      ensures Valid() && (Abstract(), id) == Step(old(Abstract()), Allocate)
    {
      var offsetBegin := offset;
      ghost var st := Abstract();
      ghost var d := 0;
      while offset in usedMap
        invariant Valid() && usedMap == old(usedMap) && 0 <= d < valueRange
        invariant offset == Wrap(valueRange, offsetBegin + d)
        invariant st == old(Abstract()) && offset == Ahead(st, d) && FirstFree(st, 0) == FirstFree(st, d)
        decreases valueRange - d
      {
        assert FirstFree(st, d) == FirstFree(st, d + 1);
        UpdateOffset();
        d := d + 1;
        if offset == offsetBegin {
          assert d == valueRange && Abstract() == st;
          return None;
        }
      }
      ghost var k := offset;
      assert FirstFree(st, 0) == Some(k);
      usedMap := usedMap[offset := true];
      assert usedMap.Keys == st.used + {k};
      id := Some(offset + minValue);
      UpdateOffset();
    }

    method FreeID(id: int)
      requires Valid()
      modifies `usedMap
      ensures Valid() && Abstract() == Step(old(Abstract()), Free(id)).0
    {
      usedMap := usedMap - {id - minValue};
    }
  }
}
