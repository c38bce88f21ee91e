/** The permits that bound how many output collections are in flight, over every interleaving. */
module CollectionPermits {
  const PERMITS: nat := 3
  const CEILING: nat := 64 * 1024 * 1024

  /** Where one collection stands; `Leaving` is its `finally` clause, with what follows it. */
  datatype Phase = Arriving | Waiting | Holding | Collecting(held: nat) | Leaving(ok: bool) | Returned | Raised

  /**
   * One call: its byte budget, whether its wait for a permit is timed, and whether its deadline has
   * expired, with a count of its acquisitions and releases.
   */
  datatype Collection = Collection(
    phase: Phase, budget: nat, timed: bool, expired: bool, acquired: nat, released: nat)

  datatype State = State(permits: nat, calls: seq<Collection>)

  const Start := State(PERMITS, [])

  predicate InFlight(c: Collection) {
    c.phase.Holding? || c.phase.Collecting? || c.phase.Leaving?
  }

  predicate Over(c: Collection) {
    c.phase.Returned? || c.phase.Raised?
  }

  /** What one thread does next; a failed timed wait expires the deadline before it raises. */
  ghost predicate Move(permits: nat, c: Collection, permits': nat, c': Collection) {
    match c.phase
    case Arriving =>
      permits' == permits && c' == c.(phase := if c.expired then Raised else Waiting)
    case Waiting =>
      || (permits > 0 && permits' == permits - 1 && c' == c.(phase := Holding, acquired := c.acquired + 1))
      || (c.timed && permits' == permits && c' == c.(phase := Raised, expired := true))
    case Holding =>
      permits' == permits && c' == c.(phase := if c.expired then Leaving(false) else Collecting(0))
    case Collecting(held) =>
      && permits' == permits
      && (|| (c'.phase.Collecting? && held <= c'.phase.held <= c.budget && c' == c.(phase := c'.phase))
          || c' == c.(phase := Leaving(true))
          || c' == c.(phase := Leaving(false)))
    case Leaving(ok) =>
      && permits' == permits + 1 && permits < PERMITS
      && c' == c.(phase := if ok then Returned else Raised, released := c.released + 1)
    case _ => false
  }

  ghost predicate MoveOf(s: State, i: nat, s': State) {
    && i < |s.calls| && |s'.calls| == |s.calls|
    && Move(s.permits, s.calls[i], s'.permits, s'.calls[i])
    && s'.calls == s.calls[i := s'.calls[i]]
  }

  ghost predicate Arrives(s: State, s': State) {
    && s'.permits == s.permits && |s'.calls| == |s.calls| + 1
    && var c := s'.calls[|s.calls|];
    && s'.calls == s.calls + [c]
    && c.phase.Arriving? && c.budget <= CEILING && c.acquired == c.released == 0
  }

  /** The deadline of a call expires by another hand. */
  ghost predicate Expires(s: State, i: nat, s': State) {
    i < |s.calls| && s' == s.(calls := s.calls[i := s.calls[i].(expired := true)])
  }

  ghost predicate Step(s: State, s': State) {
    Arrives(s, s') || exists i: nat :: MoveOf(s, i, s') || Expires(s, i, s')
  }

  ghost predicate Run(run: seq<State>) {
    run != [] && run[0] == Start && forall k | 0 < k < |run| :: Step(run[k - 1], run[k])
  }

  function InFlightOf(calls: seq<Collection>): nat {
    if calls == [] then 0 else InFlightOf(calls[1..]) + if InFlight(calls[0]) then 1 else 0
  }

  /** The file bytes that the collections in flight hold together. */
  function HeldOf(calls: seq<Collection>): nat {
    if calls == [] then 0
    else HeldOf(calls[1..]) + if calls[0].phase.Collecting? then calls[0].phase.held else 0
  }

  ghost predicate Sound(c: Collection) {
    && c.budget <= CEILING
    && (c.phase.Collecting? ==> c.phase.held <= c.budget)
    && c.acquired == c.released + (if InFlight(c) then 1 else 0)
    && c.acquired <= 1
    && (c.phase.Arriving? || c.phase.Waiting? ==> c.acquired == 0)
    && (c.phase.Returned? ==> c.acquired == 1)
    && (c.phase.Raised? && c.acquired == 0 ==> c.expired)
  }

  ghost predicate Invariant(s: State) {
    && s.permits + InFlightOf(s.calls) == PERMITS
    && forall c | c in s.calls :: Sound(c)
  }

  lemma {:induction false} InFlightAt(calls: seq<Collection>, i: nat, c: Collection)
    requires i < |calls|
    ensures InFlightOf(calls[i := c])
            + (if calls[i].phase.Holding? || calls[i].phase.Collecting? || calls[i].phase.Leaving? then 1 else 0)
            == InFlightOf(calls) + if c.phase.Holding? || c.phase.Collecting? || c.phase.Leaving? then 1 else 0
  {
    if i > 0 {
      assert calls[i := c][1..] == calls[1..][i - 1 := c];
      InFlightAt(calls[1..], i - 1, c);
    } else {
      assert calls[i := c][1..] == calls[1..];
    }
  }

  lemma {:induction false} InFlightMore(calls: seq<Collection>, c: Collection)
    ensures InFlightOf(calls + [c]) == InFlightOf(calls) + if InFlight(c) then 1 else 0
  {
    if calls != [] {
      assert (calls + [c])[1..] == calls[1..] + [c];
      InFlightMore(calls[1..], c);
    }
  }

  lemma MoveIsSound(permits: nat, c: Collection, permits': nat, c': Collection)
    requires Sound(c) && Move(permits, c, permits', c')
    ensures Sound(c')
    ensures permits' + (if InFlight(c') then 1 else 0) == permits + if InFlight(c) then 1 else 0
  {
  }

  lemma StepKeeps(s: State, s': State)
    requires Invariant(s) && Step(s, s')
    ensures Invariant(s')
  {
    if Arrives(s, s') {
      InFlightMore(s.calls, s'.calls[|s.calls|]);
    } else {
      var i: nat :| MoveOf(s, i, s') || Expires(s, i, s');
      var c, c' := s.calls[i], s'.calls[i];
      InFlightAt(s.calls, i, c');
      assert Sound(c);
      if MoveOf(s, i, s') {
        MoveIsSound(s.permits, c, s'.permits, c');
      }
      assert Sound(c') && s'.permits + (if InFlight(c') then 1 else 0) == s.permits + if InFlight(c) then 1 else 0;
      hide Move, Sound, InFlight, InFlightOf;
    }
  }

  /** What is held is what the collections in flight hold, each counted once. */
  lemma {:induction false} HeldAt(calls: seq<Collection>, i: nat, c: Collection)
    requires i < |calls|
    ensures HeldOf(calls[i := c]) + (match calls[i].phase case Collecting(held) => held case _ => 0)
            == HeldOf(calls) + match c.phase case Collecting(held) => held case _ => 0
    ensures HeldOf([]) == 0
  {
    if i > 0 {
      assert calls[i := c][1..] == calls[1..][i - 1 := c];
      HeldAt(calls[1..], i - 1, c);
    } else {
      assert calls[i := c][1..] == calls[1..];
    }
  }

  /** Both looks at the deadline count: a call that finds it expired collects nothing. */
  lemma ExpiredCallsCollectNothing(s: State, i: nat, s': State)
    requires MoveOf(s, i, s') && s.calls[i].expired && (s.calls[i].phase.Arriving? || s.calls[i].phase.Holding?)
    ensures if s.calls[i].phase.Arriving? then s'.calls[i].phase.Raised? && s'.permits == s.permits
            else s'.calls[i].phase == Leaving(false)
  {
  }

  lemma {:induction false} HeldWithin(calls: seq<Collection>)
    requires forall c | c in calls :: Sound(c)
    ensures HeldOf(calls) <= InFlightOf(calls) * CEILING
  {
    if calls != [] {
      assert Sound(calls[0]);
      HeldWithin(calls[1..]);
    }
  }

  lemma {:induction false} RunInvariant(run: seq<State>, k: nat)
    requires Run(run) && k < |run|
    ensures Invariant(run[k])
  {
    if k > 0 {
      RunInvariant(run, k - 1);
      StepKeeps(run[k - 1], run[k]);
    }
  }

  /**
   * At every point of every run the permits left and the collections in flight make three, a call
   * that is over has given back exactly what it took, and no more than three ceilings are held.
   */
  lemma RunKeeps(run: seq<State>, k: nat)
    requires Run(run) && k < |run|
    ensures run[k].permits + InFlightOf(run[k].calls) == 3
    ensures forall c | c in run[k].calls && (c.phase.Returned? || c.phase.Raised?) :: c.acquired == c.released <= 1
    ensures forall c | c in run[k].calls && (c.phase.Returned? || c.phase.Raised?) && c.acquired == 0 :: c.phase.Raised? && c.expired
    ensures HeldOf(run[k].calls) <= 3 * 64 * 1024 * 1024
  {
    RunInvariant(run, k);
    HeldWithin(run[k].calls);
    forall c | c in run[k].calls && Over(c)
      ensures c.acquired == c.released <= 1 && (c.acquired == 0 ==> c.phase.Raised? && c.expired)
    {
      assert Sound(c);
    }
  }

  lemma {:induction false} SomeInFlight(calls: seq<Collection>) returns (i: nat)
    requires InFlightOf(calls) > 0
    ensures i < |calls| && InFlight(calls[i])
  {
    i := 0;
    if !InFlight(calls[0]) {
      i := SomeInFlight(calls[1..]);
      i := i + 1;
    }
  }

  /**
   * No deadlock: while a call is not over, some call can move. A release never finds the permits
   * full, so a call that is in flight, or has yet to look at its deadline, can always move itself.
   */
  lemma SomeoneMoves(s: State, i: nat) returns (j: nat, s': State)
    requires Invariant(s) && i < |s.calls| && !Over(s.calls[i])
    ensures MoveOf(s, j, s')
    ensures !s.calls[i].phase.Waiting? ==> j == i
    ensures s.calls[i].phase.Waiting? && s.permits > 0 ==> j == i && InFlight(s'.calls[i])
  {
    j := i;
    if s.calls[i].phase.Waiting? && s.permits == 0 {
      j := SomeInFlight(s.calls);
    }
    var c := s.calls[j];
    assert Sound(c);
    match c.phase
    case Arriving => s' := s.(calls := s.calls[j := c.(phase := if c.expired then Raised else Waiting)]);
    case Waiting => s' := State(s.permits - 1, s.calls[j := c.(phase := Holding, acquired := c.acquired + 1)]);
    case Holding => s' := s.(calls := s.calls[j := c.(phase := if c.expired then Leaving(false) else Collecting(0))]);
    case Collecting(held) => s' := s.(calls := s.calls[j := c.(phase := Leaving(true))]);
    case Leaving(ok) =>
      InFlightAt(s.calls, j, c.(phase := Raised));
      s' := State(s.permits + 1,
                  s.calls[j := c.(phase := if ok then Returned else Raised, released := c.released + 1)]);
    case _ => assert false;
  }
}
