/**
 * The shared execution deadline under any interleaving of its callers. A step is one lock section,
 * one read of the flag, or one callback call; nothing else a thread does touches shared state.
 */
module ExecutionDeadlines {

  type Callback(==)

  /** Where a call of `watch` or `expire` stands. `inBody` marks a call made from a watch's body. */
  datatype Phase =
    | Entering
    | Late                                   // saw the flag set: has to call its callback itself
    | Checking                               // about to read the flag in `remaining`
    | Cleared                                // read the flag clear, about to compare the clock
    | Expiring(inBody: bool)                 // about to take the lock in `expire`
    | Calling(pending: seq<Callback>, inBody: bool)
    | InBody
    | Leaving                                // about to take the lock in the `finally` clause
    | Done

  /**
   * One call: of `watch` with its callback, or of `expire`, which uses none. `ran` says that the
   * body of a watch was entered.
   */
  datatype Thread = Thread(watcher: bool, callback: Callback, phase: Phase, ran: bool)

  /**
   * `expired` and `callbacks` are the object's fields. The rest is history: `snapshot` is what the
   * first `expire`, the one of thread `taker`, found registered; `delivered` and `own` are the calls
   * made by expiring threads, in order, and by late watchers; `withdrawn` left without being called.
   */
  datatype State = State(
    expired: bool, callbacks: seq<Callback>, threads: seq<Thread>,
    snapshot: seq<Callback>, taker: nat, delivered: seq<Callback>,
    own: multiset<Callback>, withdrawn: multiset<Callback>)

  function Reverse<T>(s: seq<T>): (r: seq<T>)
    ensures |r| == |s|
  {
    if s == [] then [] else Reverse(s[1..]) + [s[0]]
  }

  lemma {:induction false} ReverseAt<T>(s: seq<T>, k: nat)
    requires k < |s|
    ensures Reverse(s)[k] == s[|s| - 1 - k]
  {
    if k < |s| - 1 {
      ReverseAt(s[1..], k);
    }
  }

  /** Python's `list.remove`: the first equal element goes. */
  function RemoveFirst(s: seq<Callback>, c: Callback): (r: seq<Callback>)
    requires c in s
    ensures multiset(r) + multiset{c} == multiset(s)
  {
    if s[0] == c then assert s == [s[0]] + s[1..]; s[1..]
    else
      var r := RemoveFirst(s[1..], c);
      assert s == [s[0]] + s[1..] && multiset([s[0]] + r) == multiset{s[0]} + multiset(r);
      [s[0]] + r
  }

  lemma RemoveStep(s: seq<Callback>, c: Callback)
    requires c in s
    ensures RemoveFirst(s, c) == if s[0] == c then s[1..] else [s[0]] + RemoveFirst(s[1..], c)
  {
  }

  lemma WithoutAt(s: seq<Callback>, k: nat)
    requires k + 1 < |s|
    ensures [s[0]] + (s[1..][..k] + s[1..][k + 1..]) == s[..k + 1] + s[k + 2..]
    ensures s[..k + 1] == [s[0]] + s[1..][..k]
  {
    assert s[1..][k + 1..] == s[k + 2..];
  }

  /** All others stay, in their order. */
  lemma {:induction false} RemovesFirst(s: seq<Callback>, c: Callback) returns (k: nat)
    requires c in s
    ensures k < |s| && s[k] == c && c !in s[..k] && RemoveFirst(s, c) == s[..k] + s[k + 1..]
  {
    hide *;
    RemoveStep(s, c);
    k := 0;
    if s[0] == c {
      assert s[..0] + s[1..] == s[1..];
    } else {
      var at := RemovesFirst(s[1..], c);
      WithoutAt(s, at);
      k := at + 1;
    }
  }

  function Move(s: State, t: nat, phase: Phase): State
    requires t < |s.threads|
  {
    s.(threads := s.threads[t := s.threads[t].(phase := phase)])
  }

  /** First lock section of `watch`: register, or note that it is too late. */
  ghost predicate Enter(s: State, t: nat, s': State)
    requires t < |s.threads|
  {
    var th := s.threads[t];
    && th.watcher && th.phase == Entering
    && s' == if s.expired then Move(s, t, Late) else Move(s, t, Checking).(callbacks := s.callbacks + [th.callback])
  }

  /** A late watcher calls its own callback, which may raise. */
  ghost predicate CallOwn(s: State, t: nat, s': State)
    requires t < |s.threads|
  {
    var th := s.threads[t];
    && th.watcher && th.phase == Late
    && exists after | after in {Checking, Done} :: s' == Move(s, t, after).(own := s.own + multiset{th.callback})
  }

  /** `remaining` reads the flag, and raises when it is set. */
  ghost predicate Check(s: State, t: nat, s': State)
    requires t < |s.threads|
  {
    var th := s.threads[t];
    && th.watcher && th.phase == Checking
    && s' == Move(s, t, if s.expired then Leaving else Cleared)
  }

  /** Having read it clear, it expires when the time is over, and else lets the body run. */
  ghost predicate Proceed(s: State, t: nat, s': State)
    requires t < |s.threads|
  {
    var th := s.threads[t];
    && th.watcher && th.phase == Cleared
    && (s' == Move(s, t, Expiring(false)) || s' == s.(threads := s.threads[t := th.(phase := InBody, ran := true)]))
  }

  /** The lock section of `expire`: set the flag and take the callbacks. */
  ghost predicate Take(s: State, t: nat, s': State)
    requires t < |s.threads|
  {
    var th := s.threads[t];
    && th.phase.Expiring?
    && var taken := Move(s, t, Calling(Reverse(s.callbacks), th.phase.inBody)).(expired := true, callbacks := []);
       s' == if s.expired then taken else taken.(snapshot := s.callbacks, taker := t)
  }

  /** `expire` calls the next callback it took; what that raises is suppressed. */
  ghost predicate CallTaken(s: State, t: nat, s': State)
    requires t < |s.threads|
  {
    var th := s.threads[t];
    && th.phase.Calling? && th.phase.pending != []
    && s' == Move(s, t, Calling(th.phase.pending[1..], th.phase.inBody))
             .(delivered := s.delivered + [th.phase.pending[0]])
  }

  /** `expire` returns: an expiring watch raises, a body may go on. */
  ghost predicate Return(s: State, t: nat, s': State)
    requires t < |s.threads|
  {
    var th := s.threads[t];
    && th.phase.Calling? && th.phase.pending == []
    && (s' == Move(s, t, if th.watcher then Leaving else Done)
        || (th.watcher && th.phase.inBody && s' == Move(s, t, InBody)))
  }

  /** The body of a watch ends, or calls `expire`. */
  ghost predicate RunBody(s: State, t: nat, s': State)
    requires t < |s.threads|
  {
    var th := s.threads[t];
    && th.watcher && th.phase == InBody
    && (s' == Move(s, t, Expiring(true)) || s' == Move(s, t, Leaving))
  }

  /** The `finally` clause of `watch`: withdraw the callback if it is still registered. */
  ghost predicate Leave(s: State, t: nat, s': State)
    requires t < |s.threads|
  {
    var th := s.threads[t];
    && th.watcher && th.phase == Leaving
    && if th.callback in s.callbacks
       then s' == Move(s, t, Done).(callbacks := RemoveFirst(s.callbacks, th.callback),
                                    withdrawn := s.withdrawn + multiset{th.callback})
       else s' == Move(s, t, Done)
  }

  /** One step of thread `t`. */
  ghost predicate Step(s: State, t: nat, s': State) {
    t < |s.threads|
    && (Enter(s, t, s') || CallOwn(s, t, s') || Check(s, t, s') || Proceed(s, t, s') || Take(s, t, s')
        || CallTaken(s, t, s') || Return(s, t, s') || RunBody(s, t, s') || Leave(s, t, s'))
  }

  ghost predicate Next(s: State, s': State) {
    exists t: nat :: Step(s, t, s')
  }

  ghost predicate Initial(s: State) {
    && !s.expired && s.callbacks == [] && s.delivered == []
    && s.own == multiset{} && s.withdrawn == multiset{}
    && forall th | th in s.threads ::
         if th.watcher then th.phase == Entering && !th.ran else th.phase == Expiring(false)
  }

  ghost predicate Run(run: seq<State>) {
    run != [] && Initial(run[0]) && forall i | 0 <= i < |run| - 1 :: Next(run[i], run[i + 1])
  }

  /** How many watches of callback `c` have passed their first lock section. */
  function Entered(threads: seq<Thread>, c: Callback): nat {
    if threads == [] then 0 else Entered(threads[1..], c) + EnteredBy(threads[0], c)
  }

  function EnteredBy(th: Thread, c: Callback): nat {
    if th.watcher && th.callback == c && th.phase != Entering then 1 else 0
  }

  /** How many late watches of `c` have not called it yet. */
  function Waiting(threads: seq<Thread>, c: Callback): nat {
    if threads == [] then 0 else Waiting(threads[1..], c) + WaitingBy(threads[0], c)
  }

  function WaitingBy(th: Thread, c: Callback): nat {
    if th.watcher && th.callback == c && th.phase == Late then 1 else 0
  }

  lemma {:induction false} Replace(threads: seq<Thread>, t: nat, th: Thread, c: Callback)
    requires t < |threads|
    ensures Entered(threads[t := th], c) == Entered(threads, c) - EnteredBy(threads[t], c) + EnteredBy(th, c)
    ensures Waiting(threads[t := th], c) == Waiting(threads, c) - WaitingBy(threads[t], c) + WaitingBy(th, c)
  {
    hide EnteredBy, WaitingBy;
    var after := threads[t := th];
    if t == 0 {
      assert after[1..] == threads[1..];
    } else {
      Replace(threads[1..], t - 1, th, c);
      assert after[1..] == threads[1..][t - 1 := th];
    }
  }

  /** A thread's pending calls; only a thread inside `expire` has any. */
  function Pending(th: Thread): seq<Callback> {
    if th.phase.Calling? then th.phase.pending else []
  }

  /** Only the first `expire` finds callbacks, and it calls them in reverse order of registration. */
  ghost predicate Delivery(s: State) {
    if !s.expired then
      && s.delivered == []
      && (forall t | 0 <= t < |s.threads| :: s.threads[t].phase != Late && !s.threads[t].phase.Calling?)
    else
      && s.callbacks == [] && s.taker < |s.threads|
      && (forall t | 0 <= t < |s.threads| && t != s.taker :: Pending(s.threads[t]) == [])
      && s.delivered + Pending(s.threads[s.taker]) == Reverse(s.snapshot)
  }

  /** Every watch of `c` that was entered is accounted for exactly once. */
  ghost predicate Accounted(s: State, c: Callback) {
    if !s.expired then
      && s.own[c] == Waiting(s.threads, c) == 0
      && Entered(s.threads, c) == multiset(s.callbacks)[c] + s.withdrawn[c]
    else
      Entered(s.threads, c) == multiset(s.snapshot)[c] + s.withdrawn[c] + s.own[c] + Waiting(s.threads, c)
  }

  lemma {:induction false} NothingEntered(threads: seq<Thread>, c: Callback)
    requires forall th | th in threads :: th.watcher ==> th.phase == Entering
    ensures Entered(threads, c) == Waiting(threads, c) == 0
  {
    if threads != [] {
      assert threads[0] in threads;
      NothingEntered(threads[1..], c);
    }
  }

  lemma InvInitial(s: State, c: Callback)
    requires Initial(s)
    ensures Delivery(s) && Accounted(s, c)
  {
    forall t | 0 <= t < |s.threads| ensures s.threads[t] in s.threads {}
    NothingEntered(s.threads, c);
  }

  /** A move that registers, takes and calls nothing. */
  lemma QuietKeeps(s: State, t: nat, s': State, c: Callback)
    requires t < |s.threads| && Delivery(s) && Accounted(s, c)
    requires var th := s.threads[t];
             && !th.phase.Entering? && !th.phase.Late? && Pending(th) == []
             && exists phase: Phase, ran: bool | !phase.Entering? && !phase.Late? && !phase.Calling? ::
                  s' == s.(threads := s.threads[t := th.(phase := phase, ran := ran)])
    ensures Delivery(s') && Accounted(s', c)
  {
    Replace(s.threads, t, s'.threads[t], c);
    hide Entered, Waiting, Reverse, RemoveFirst;
  }

  lemma EnterKeeps(s: State, t: nat, s': State, c: Callback)
    requires t < |s.threads| && Enter(s, t, s') && Delivery(s) && Accounted(s, c)
    ensures Delivery(s') && Accounted(s', c)
  {
    Replace(s.threads, t, s'.threads[t], c);
    hide Entered, Waiting, Reverse, RemoveFirst;
    assert s'.threads == s.threads[t := s'.threads[t]];
  }

  lemma CallOwnKeeps(s: State, t: nat, s': State, c: Callback)
    requires t < |s.threads| && CallOwn(s, t, s') && Delivery(s) && Accounted(s, c)
    ensures Delivery(s') && Accounted(s', c)
  {
    Replace(s.threads, t, s'.threads[t], c);
    hide Entered, Waiting, Reverse, RemoveFirst;
    assert s'.threads == s.threads[t := s'.threads[t]];
  }

  lemma TakeDelivers(s: State, t: nat, s': State)
    requires t < |s.threads| && Take(s, t, s') && Delivery(s)
    ensures Delivery(s')
  {
    hide Reverse;
    assert forall u | 0 <= u < |s.threads| && u != t :: s'.threads[u] == s.threads[u];
  }

  lemma TakeAccounts(s: State, t: nat, s': State, c: Callback)
    requires t < |s.threads| && Take(s, t, s') && Accounted(s, c)
    requires s.expired ==> s.callbacks == []
    ensures Accounted(s', c)
  {
    hide Reverse;
    assert s'.threads == s.threads[t := s'.threads[t]];
    Replace(s.threads, t, s'.threads[t], c);
    hide Entered, Waiting;
  }

  lemma TakeKeeps(s: State, t: nat, s': State, c: Callback)
    requires t < |s.threads| && Take(s, t, s') && Delivery(s) && Accounted(s, c)
    ensures Delivery(s') && Accounted(s', c)
  {
    hide Take, Accounted, Reverse;
    TakeDelivers(s, t, s');
    TakeAccounts(s, t, s', c);
  }

  lemma CallTakenKeeps(s: State, t: nat, s': State, c: Callback)
    requires t < |s.threads| && CallTaken(s, t, s') && Delivery(s) && Accounted(s, c)
    ensures Delivery(s') && Accounted(s', c)
  {
    Replace(s.threads, t, s'.threads[t], c);
    hide Entered, Waiting, Reverse, RemoveFirst;
    assert s'.threads == s.threads[t := s'.threads[t]];
  }

  lemma RemoveCount(s: seq<Callback>, x: Callback, c: Callback)
    requires x in s
    ensures multiset(RemoveFirst(s, x))[c] + (if x == c then 1 else 0) == multiset(s)[c]
  {
    assert multiset(RemoveFirst(s, x)) + multiset{x} == multiset(s);
  }

  lemma LeaveDelivers(s: State, t: nat, s': State)
    requires t < |s.threads| && Leave(s, t, s') && Delivery(s)
    ensures Delivery(s')
  {
    hide RemoveFirst, Reverse;
    assert forall u | 0 <= u < |s.threads| && u != t :: s'.threads[u] == s.threads[u];
  }

  lemma LeaveAccounts(s: State, t: nat, s': State, c: Callback)
    requires t < |s.threads| && Leave(s, t, s') && Accounted(s, c)
    requires s.expired ==> s.callbacks == []
    ensures Accounted(s', c)
  {
    var th := s.threads[t];
    Replace(s.threads, t, th.(phase := Done), c);
    if th.callback in s.callbacks {
      RemoveCount(s.callbacks, th.callback, c);
      assert s'.withdrawn[c] == s.withdrawn[c] + if th.callback == c then 1 else 0;
    }
    hide Entered, Waiting, Reverse, RemoveFirst;
  }

  lemma LeaveKeeps(s: State, t: nat, s': State, c: Callback)
    requires t < |s.threads| && Leave(s, t, s') && Delivery(s) && Accounted(s, c)
    ensures Delivery(s') && Accounted(s', c)
  {
    hide Leave, Accounted, Reverse;
    LeaveDelivers(s, t, s');
    LeaveAccounts(s, t, s', c);
  }

  lemma StepKeeps(s: State, t: nat, s': State, c: Callback)
    requires Step(s, t, s') && Delivery(s) && Accounted(s, c)
    ensures Delivery(s') && Accounted(s', c)
    ensures |s'.threads| == |s.threads|
  {
    hide Delivery, Accounted;
    if Enter(s, t, s') { EnterKeeps(s, t, s', c); }
    else if CallOwn(s, t, s') { CallOwnKeeps(s, t, s', c); }
    else if Take(s, t, s') { TakeKeeps(s, t, s', c); }
    else if CallTaken(s, t, s') { CallTakenKeeps(s, t, s', c); }
    else if Leave(s, t, s') { LeaveKeeps(s, t, s', c); }
    else { QuietStepKeeps(s, t, s', c); }
  }

  lemma QuietStepKeeps(s: State, t: nat, s': State, c: Callback)
    requires t < |s.threads| && Delivery(s) && Accounted(s, c)
    requires Check(s, t, s') || Proceed(s, t, s') || Return(s, t, s') || RunBody(s, t, s')
    ensures Delivery(s') && Accounted(s', c) && |s'.threads| == |s.threads|
  {
    hide Delivery, Accounted;
    var th := s.threads[t];
    assert s' == s.(threads := s.threads[t := th.(phase := s'.threads[t].phase, ran := s'.threads[t].ran)]);
    QuietKeeps(s, t, s', c);
  }

  /** `b` is `a`, expired, some steps later: nothing was registered, withdrawn or let in since. */
  ghost predicate Frozen(a: State, b: State) {
    && a.expired && b.expired && a.callbacks == b.callbacks == []
    && b.snapshot == a.snapshot && b.withdrawn == a.withdrawn
    && |b.threads| == |a.threads|
    && forall u | 0 <= u < |a.threads| :: Barred(a.threads[u]) ==> Barred(b.threads[u])
  }

  /** At a point only reached through the body of a watch. */
  predicate BeyondEntry(phase: Phase) {
    match phase
    case InBody => true
    case Expiring(inBody) => inBody
    case Calling(_, inBody) => inBody
    case _ => false
  }

  /** Has not entered the body, nor read the flag clear and still to act on that. */
  predicate Barred(th: Thread) {
    !th.ran && th.phase != Cleared && !BeyondEntry(th.phase)
  }

  /** What an expired deadline never does again: reset, register, withdraw, or clear a watch for its body. */
  lemma ExpiredStep(s: State, t: nat, s': State)
    requires Step(s, t, s') && Delivery(s) && s.expired
    ensures Frozen(s, s')
  {
    StepIsLocal(s, t, s');
    if Barred(s.threads[t]) {
      StaysBarred(s, t, s');
    }
    hide RemoveFirst, Reverse, Barred;
  }

  lemma WatchStepIsLocal(s: State, t: nat, s': State)
    requires t < |s.threads|
    requires Enter(s, t, s') || CallOwn(s, t, s') || Check(s, t, s') || Proceed(s, t, s') || RunBody(s, t, s')
    ensures |s'.threads| == |s.threads| && s'.threads == s.threads[t := s'.threads[t]]
  {
  }

  lemma ExpireStepIsLocal(s: State, t: nat, s': State)
    requires t < |s.threads|
    requires Take(s, t, s') || CallTaken(s, t, s') || Return(s, t, s') || Leave(s, t, s')
    ensures |s'.threads| == |s.threads| && s'.threads == s.threads[t := s'.threads[t]]
  {
    hide RemoveFirst, Reverse;
  }

  /** A step moves one thread. */
  lemma StepIsLocal(s: State, t: nat, s': State)
    requires Step(s, t, s')
    ensures |s'.threads| == |s.threads| && s'.threads == s.threads[t := s'.threads[t]]
  {
    hide Enter, CallOwn, Check, Proceed, Take, CallTaken, Return, RunBody, Leave;
    if Take(s, t, s') || CallTaken(s, t, s') || Return(s, t, s') || Leave(s, t, s') {
      ExpireStepIsLocal(s, t, s');
    } else {
      WatchStepIsLocal(s, t, s');
    }
  }

  lemma StaysBarred(s: State, t: nat, s': State)
    requires Step(s, t, s') && s.expired && Barred(s.threads[t])
    ensures t < |s'.threads| && Barred(s'.threads[t])
  {
    hide RemoveFirst, Reverse;
  }

  lemma FrozenSelf(s: State)
    requires Delivery(s) && s.expired
    ensures Frozen(s, s)
  {
  }

  lemma FrozenChain(a: State, b: State, c: State)
    requires Frozen(a, b) && Frozen(b, c)
    ensures Frozen(a, c)
  {
  }

  /** The step that sets the flag takes what is registered, and nothing is withdrawn in it. */
  lemma ExpiringStep(s: State, t: nat, s': State)
    requires Step(s, t, s') && !s.expired && s'.expired
    ensures s'.snapshot == s.callbacks && s'.withdrawn == s.withdrawn
  {
  }

  lemma {:induction false} RunKeeps(run: seq<State>, i: nat, c: Callback)
    requires Run(run) && i < |run|
    ensures Delivery(run[i]) && Accounted(run[i], c) && |run[i].threads| == |run[0].threads|
  {
    hide Enter, CallOwn, Check, Proceed, Take, CallTaken, Return, RunBody, Leave, Delivery, Accounted;
    if i == 0 {
      InvInitial(run[0], c);
    } else {
      RunKeeps(run, i - 1, c);
      assert Next(run[i - 1], run[i]);
      var t: nat :| Step(run[i - 1], t, run[i]);
      StepKeeps(run[i - 1], t, run[i], c);
    }
  }

  lemma {:induction false} ExpiredForever(run: seq<State>, i: nat, j: nat, c: Callback)
    requires Run(run) && i <= j < |run| && run[i].expired
    ensures Frozen(run[i], run[j])
  {
    hide Enter, CallOwn, Check, Proceed, Take, CallTaken, Return, RunBody, Leave;
    hide Delivery, Accounted, Initial;
    if i == j {
      RunKeeps(run, j, c);
      FrozenSelf(run[j]);
    } else {
      ExpiredForever(run, i, j - 1, c);
      RunKeeps(run, j - 1, c);
      assert Next(run[j - 1], run[j]);
      var t: nat :| Step(run[j - 1], t, run[j]);
      ExpiredStep(run[j - 1], t, run[j]);
      FrozenChain(run[i], run[j - 1], run[j]);
    }
  }

  // Whose callbacks are registered.

  /** A watch between its two lock sections. */
  predicate Watching(th: Thread) {
    th.watcher && th.phase != Entering && th.phase != Late && th.phase != Done
  }

  /** How many watches of `c` are between their two lock sections. */
  function WatchesOf(threads: seq<Thread>, c: Callback): nat {
    if threads == [] then 0
    else WatchesOf(threads[1..], c) + if Watching(threads[0]) && threads[0].callback == c then 1 else 0
  }

  lemma {:induction false} WatchesAt(threads: seq<Thread>, t: nat, th: Thread, c: Callback)
    requires t < |threads|
    ensures WatchesOf(threads[t := th], c) + (if Watching(threads[t]) && threads[t].callback == c then 1 else 0)
            == WatchesOf(threads, c) + if Watching(th) && th.callback == c then 1 else 0
  {
    if t > 0 {
      WatchesAt(threads[1..], t - 1, th, c);
      assert threads[t := th][1..] == threads[1..][t - 1 := th];
    } else {
      assert threads[t := th][1..] == threads[1..];
    }
  }

  /** What is registered before expiry: one callback for each such watch, and no other. */
  ghost predicate Registered(s: State, c: Callback) {
    !s.expired ==> multiset(s.callbacks)[c] == WatchesOf(s.threads, c)
  }

  /** A step that leaves the callbacks alone keeps its thread on its side of the lock sections. */
  lemma MiddleStaysRegistered(s: State, t: nat, s': State, c: Callback)
    requires t < |s.threads| && Registered(s, c) && Delivery(s) && Kind(s.threads[t])
    requires CallOwn(s, t, s') || Check(s, t, s') || Proceed(s, t, s') || Take(s, t, s') || CallTaken(s, t, s')
             || Return(s, t, s') || RunBody(s, t, s')
    ensures Registered(s', c)
  {
    if !s'.expired {
      StepIsLocal(s, t, s');
      WatchesAt(s.threads, t, s'.threads[t], c);
      WatchingStays(s, t, s');
      hide WatchesOf, Reverse, Watching, Kind, Delivery;
    }
  }

  lemma WatchingStays(s: State, t: nat, s': State)
    requires t < |s.threads| && t < |s'.threads| && !s'.expired && Delivery(s) && Kind(s.threads[t])
    requires CallOwn(s, t, s') || Check(s, t, s') || Proceed(s, t, s') || Take(s, t, s') || CallTaken(s, t, s')
             || Return(s, t, s') || RunBody(s, t, s')
    ensures Watching(s.threads[t]) == Watching(s'.threads[t]) && s'.threads[t].callback == s.threads[t].callback
    ensures s'.callbacks == s.callbacks && !s.expired
  {
    hide Reverse;
  }

  lemma EnterRegisters(s: State, t: nat, s': State, c: Callback)
    requires t < |s.threads| && Registered(s, c) && Enter(s, t, s')
    ensures Registered(s', c)
  {
    StepIsLocal(s, t, s');
    WatchesAt(s.threads, t, s'.threads[t], c);
    hide WatchesOf;
  }

  lemma LeaveUnregisters(s: State, t: nat, s': State, c: Callback)
    requires t < |s.threads| && Registered(s, c) && Registered(s, s.threads[t].callback) && Leave(s, t, s')
    ensures Registered(s', c)
  {
    var th := s.threads[t];
    if !s.expired {
      WatchesAt(s.threads, t, th.(phase := Done), c);
      WatchesAt(s.threads, t, th.(phase := Done), th.callback);
      assert multiset(s.callbacks)[th.callback] > 0;
      assert th.callback in s.callbacks;
      RemoveCount(s.callbacks, th.callback, c);
      hide WatchesOf, RemoveFirst;
    }
  }

  lemma {:induction false} NoneWatching(threads: seq<Thread>, c: Callback)
    requires forall th | th in threads :: Watching(th) ==> th.callback != c
    ensures WatchesOf(threads, c) == 0
  {
    if threads != [] {
      assert threads[0] in threads;
      NoneWatching(threads[1..], c);
    }
  }

  /**
   * In every reachable state before expiry the callbacks registered are exactly those of the watches
   * between their lock sections: a watch that has left is withdrawn.
   */
  lemma {:induction false} RunRegisters(run: seq<State>, i: nat, c: Callback)
    requires Run(run) && i < |run| && !run[i].expired
    ensures multiset(run[i].callbacks)[c] == WatchesOf(run[i].threads, c)
  {
    hide Enter, CallOwn, Check, Proceed, Take, CallTaken, Return, RunBody, Leave, Delivery, Accounted, Kind, WatchesOf;
    if i == 0 {
      forall th | th in run[0].threads ensures !Watching(th) {}
      NoneWatching(run[0].threads, c);
    } else {
      var s, s' := run[i - 1], run[i];
      assert Next(s, s');
      var t: nat :| Step(s, t, s');
      RunKeeps(run, i - 1, c);
      RunKinds(run, i - 1);
      if s.expired {
        ExpiredStep(s, t, s');
      } else {
        RunRegisters(run, i - 1, c);
        RunRegisters(run, i - 1, s.threads[t].callback);
        if Enter(s, t, s') { EnterRegisters(s, t, s', c); }
        else if Leave(s, t, s') { LeaveUnregisters(s, t, s', c); }
        else { MiddleStaysRegistered(s, t, s', c); }
      }
    }
  }

  /**
   * Step `i` is the one that expires the deadline. When every watch of `c` that was entered is over by
   * then, no expiring thread ever calls `c`.
   */
  lemma NoCallAfterLeaving(run: seq<State>, i: nat, j: nat, c: Callback)
    requires Run(run) && i + 1 <= j < |run| && !run[i].expired && run[i + 1].expired
    requires forall th | th in run[i].threads && th.watcher && th.callback == c :: th.phase == Entering || th.phase == Done
    ensures c !in run[j].delivered
  {
    hide Enter, CallOwn, Check, Proceed, Take, CallTaken, Return, RunBody, Leave, Accounted, WatchesOf;
    RunRegisters(run, i, c);
    NoneWatching(run[i].threads, c);
    RunKeeps(run, j, c);
    ExpiredForever(run, i + 1, j, c);
    assert Next(run[i], run[i + 1]);
    var t: nat :| Step(run[i], t, run[i + 1]);
    ExpiringStep(run[i], t, run[i + 1]);
    assert c !in run[i].callbacks && run[j].snapshot == run[i].callbacks;
    assert run[j].delivered <= Reverse(run[j].snapshot);
    forall k | 0 <= k < |run[j].delivered| ensures run[j].delivered[k] != c {
      assert run[j].delivered[k] == Reverse(run[j].snapshot)[k];
      ReverseAt(run[j].snapshot, k);
    }
  }

  /** No call is in progress any more. */
  ghost predicate Quiescent(s: State) {
    forall t | 0 <= t < |s.threads| :: s.threads[t].phase == Done
  }

  lemma {:induction false} ReverseKeepsCounts(s: seq<Callback>)
    ensures multiset(Reverse(s)) == multiset(s)
  {
    if s != [] {
      ReverseKeepsCounts(s[1..]);
      assert s == [s[0]] + s[1..];
    }
  }

  lemma {:induction false} NoneWaiting(threads: seq<Thread>, c: Callback)
    requires forall t | 0 <= t < |threads| :: threads[t].phase == Done
    ensures Waiting(threads, c) == 0
  {
    if threads != [] {
      NoneWaiting(threads[1..], c);
    }
  }

  /** Before the deadline expires, nothing is called. */
  lemma NothingCalledBefore(run: seq<State>, i: nat, c: Callback)
    requires Run(run) && i < |run| && !run[i].expired
    ensures run[i].delivered == [] && run[i].own[c] == 0
  {
    RunKeeps(run, i, c);
  }

  /**
   * Step `i` is the one that expires the deadline. When all calls are over, the callbacks that were
   * registered have been called, last registered first, `c` once for each watch of it that was between
   * its lock sections; every watch of `c` entered from then on has called `c` once itself; and nothing
   * else was called.
   */
  lemma EachCallbackOnce(run: seq<State>, i: nat, c: Callback)
    requires Run(run) && i + 1 < |run| && !run[i].expired && run[i + 1].expired
    requires Quiescent(run[|run| - 1])
    ensures var last := run[|run| - 1];
            && last.delivered == Reverse(run[i].callbacks)
            && multiset(last.delivered)[c] == WatchesOf(run[i].threads, c)
            && last.own[c] == Entered(last.threads, c) - Entered(run[i].threads, c)
  {
    hide Enter, CallOwn, Check, Proceed, Take, CallTaken, Return, RunBody, Leave, Delivery, Accounted, Entered, WatchesOf;
    var last := run[|run| - 1];
    RunKeeps(run, i, c);
    RunRegisters(run, i, c);
    RunKeeps(run, |run| - 1, c);
    ExpiredForever(run, i + 1, |run| - 1, c);
    assert Next(run[i], run[i + 1]);
    var t: nat :| Step(run[i], t, run[i + 1]);
    ExpiringStep(run[i], t, run[i + 1]);
    Settled(run[i], last, c);
  }

  /** The accounts of a state before expiry and of a quiescent one after it, put together. */
  lemma Settled(s: State, last: State, c: Callback)
    requires !s.expired && Accounted(s, c)
    requires last.expired && Delivery(last) && Accounted(last, c) && Quiescent(last)
    requires last.snapshot == s.callbacks && last.withdrawn == s.withdrawn
    ensures last.delivered == Reverse(s.callbacks)
    ensures multiset(last.delivered)[c] == multiset(s.callbacks)[c]
    ensures last.own[c] == Entered(last.threads, c) - Entered(s.threads, c)
  {
    NoneWaiting(last.threads, c);
    ReverseKeepsCounts(s.callbacks);
    hide Entered, Waiting, Reverse;
    assert last.delivered + [] == last.delivered;
  }

  /** Calls of `expire` never reach the phases of a watch, and no watch those of its body unentered. */
  ghost predicate Kinds(s: State) {
    forall t | 0 <= t < |s.threads| :: Kind(s.threads[t])
  }

  lemma KindsStep(s: State, t: nat, s': State)
    requires Kinds(s) && Step(s, t, s')
    ensures Kinds(s')
  {
    StepIsLocal(s, t, s');
    KindStays(s, t, s');
    hide Step, Kind;
  }

  /** Its phase fits the kind of call a thread is. */
  predicate Kind(th: Thread) {
    && (BeyondEntry(th.phase) ==> th.ran)
    && (!th.watcher ==> th.phase.Expiring? || th.phase.Calling? || th.phase.Done?)
  }

  lemma WatchKindStays(s: State, t: nat, s': State)
    requires t < |s.threads| && t < |s'.threads| && Kind(s.threads[t])
    requires Enter(s, t, s') || CallOwn(s, t, s') || Check(s, t, s') || Proceed(s, t, s')
    ensures Kind(s'.threads[t])
  {
  }

  lemma ExpireKindStays(s: State, t: nat, s': State)
    requires t < |s.threads| && t < |s'.threads| && Kind(s.threads[t])
    requires Take(s, t, s') || CallTaken(s, t, s') || Return(s, t, s')
    ensures Kind(s'.threads[t])
  {
    hide Reverse;
  }

  lemma LeaveKindStays(s: State, t: nat, s': State)
    requires t < |s.threads| && t < |s'.threads| && Kind(s.threads[t])
    requires RunBody(s, t, s') || Leave(s, t, s')
    ensures Kind(s'.threads[t])
  {
    hide RemoveFirst;
  }

  lemma KindStays(s: State, t: nat, s': State)
    requires Step(s, t, s') && t < |s'.threads| && Kind(s.threads[t])
    ensures Kind(s'.threads[t])
  {
    hide Enter, CallOwn, Check, Proceed, Take, CallTaken, Return, RunBody, Leave, Kind;
    if Enter(s, t, s') || CallOwn(s, t, s') || Check(s, t, s') || Proceed(s, t, s') { WatchKindStays(s, t, s'); }
    else if RunBody(s, t, s') || Leave(s, t, s') { LeaveKindStays(s, t, s'); }
    else { ExpireKindStays(s, t, s'); }
  }

  lemma {:induction false} RunKinds(run: seq<State>, i: nat)
    requires Run(run) && i < |run|
    ensures Kinds(run[i])
  {
    hide Enter, CallOwn, Check, Proceed, Take, CallTaken, Return, RunBody, Leave;
    if i == 0 {
      forall t | 0 <= t < |run[0].threads| ensures run[0].threads[t] in run[0].threads {}
    } else {
      RunKinds(run, i - 1);
      assert Next(run[i - 1], run[i]);
      var t: nat :| Step(run[i - 1], t, run[i]);
      KindsStep(run[i - 1], t, run[i]);
    }
  }

  /**
   * Which watches still enter their body once the deadline has expired: exactly those that had read
   * the flag clear before and have not acted on it yet. Any other that has not entered never does. The
   * clock is arbitrary: one that shows the time to be over makes even those raise.
   */
  lemma EntersOnlyIfCleared(run: seq<State>, i: nat, u: nat)
    requires Run(run) && i < |run| && run[i].expired && u < |run[i].threads| && !run[i].threads[u].ran
    ensures run[i].threads[u].phase == Cleared ==> exists s' :: Step(run[i], u, s') && s'.threads[u].ran
    ensures run[i].threads[u].phase != Cleared ==>
              forall j | i <= j < |run| :: |run[j].threads| == |run[i].threads| && Barred(run[j].threads[u])
  {
    var s := run[i];
    RunKinds(run, i);
    assert Kind(s.threads[u]);
    if s.threads[u].phase == Cleared {
      var s' := s.(threads := s.threads[u := s.threads[u].(phase := InBody, ran := true)]);
      assert Proceed(s, u, s') && Step(s, u, s');
    } else {
      assert Barred(s.threads[u]);
      hide Run, Step, Kinds, Barred;
      forall j | i <= j < |run| ensures |run[j].threads| == |run[i].threads| && Barred(run[j].threads[u]) {
        ExpiredForever(run, i, j, s.threads[u].callback);
      }
    }
  }

  /** A watch that sees the flag set never enters its body. */
  lemma NoBodyAfterSeenExpiry(run: seq<State>, i: nat, j: nat, u: nat)
    requires Run(run) && i < j < |run| && u < |run[i].threads|
    requires run[i].threads[u].phase == Checking && run[i].expired && !run[i].threads[u].ran
    ensures u < |run[j].threads| && !run[j].threads[u].ran
  {
    EntersOnlyIfCleared(run, i, u);
    assert |run[j].threads| == |run[i].threads| && Barred(run[j].threads[u]);
  }

  /** A watch and an `expire` of another thread: the states of one schedule. */
  function Schedule(c: Callback, k: nat): State {
    var entering, expiring := Thread(true, c, Entering, false), Thread(false, c, Expiring(false), false);
    var start := State(false, [], [entering, expiring], [], 0, [], multiset{}, multiset{});
    var checking, cleared := entering.(phase := Checking), entering.(phase := Cleared);
    var calling := expiring.(phase := Calling([c], false));
    var expired := start.(expired := true, threads := [cleared, calling], snapshot := [c], taker := 1);
    var called := expired.(threads := [cleared, calling.(phase := Calling([], false))], delivered := [c]);
    if k == 0 then start
    else if k == 1 then start.(callbacks := [c], threads := [checking, expiring])
    else if k == 2 then start.(callbacks := [c], threads := [cleared, expiring])
    else if k == 3 then expired
    else if k == 4 then called
    else called.(threads := [entering.(phase := InBody, ran := true), called.threads[1]])
  }

  lemma LateBegins(c: Callback)
    ensures Next(Schedule(c, 0), Schedule(c, 1)) && Next(Schedule(c, 1), Schedule(c, 2))
  {
    assert Enter(Schedule(c, 0), 0, Schedule(c, 1));
    assert Check(Schedule(c, 1), 0, Schedule(c, 2));
    hide Schedule, Enter, Check;
    assert Step(Schedule(c, 0), 0, Schedule(c, 1)) && Step(Schedule(c, 1), 0, Schedule(c, 2));
  }

  lemma LateExpires(c: Callback)
    ensures Next(Schedule(c, 2), Schedule(c, 3)) && Next(Schedule(c, 3), Schedule(c, 4))
  {
    assert Reverse([c][1..]) == [] && Reverse([c]) == [c];
    assert Take(Schedule(c, 2), 1, Schedule(c, 3));
    assert CallTaken(Schedule(c, 3), 1, Schedule(c, 4));
    assert |Schedule(c, 2).threads| == |Schedule(c, 3).threads| == 2;
    hide Schedule, Take, CallTaken, Reverse;
    assert Step(Schedule(c, 2), 1, Schedule(c, 3)) && Step(Schedule(c, 3), 1, Schedule(c, 4));
  }

  lemma LateEnters(c: Callback)
    ensures Next(Schedule(c, 4), Schedule(c, 5))
  {
    assert Proceed(Schedule(c, 4), 0, Schedule(c, 5));
    assert Step(Schedule(c, 4), 0, Schedule(c, 5));
  }

  lemma ScheduleEnds(c: Callback)
    ensures Initial(Schedule(c, 0)) && |Schedule(c, 4).threads| == |Schedule(c, 5).threads| == 2
    ensures Schedule(c, 4).expired && Schedule(c, 4).delivered == [c]
    ensures !Schedule(c, 4).threads[0].ran && Schedule(c, 5).threads[0].ran
  {
  }

  /** The window is real: expiry, its callback included, fits between reading the flag and the body. */
  lemma LateEntry(c: Callback) returns (run: seq<State>)
    ensures Run(run) && |run| == 6 && |run[4].threads| == |run[5].threads| == 2
    ensures run[4].expired && run[4].delivered == [c] && !run[4].threads[0].ran && run[5].threads[0].ran
  {
    run := seq(6, k requires 0 <= k => Schedule(c, k));
    LateBegins(c);
    LateExpires(c);
    LateEnters(c);
    ScheduleEnds(c);
    hide Next, Initial, Schedule;
    forall i | 0 <= i < |run| - 1 ensures Next(run[i], run[i + 1]) {
      assert i == 0 || i == 1 || i == 2 || i == 3 || i == 4;
    }
  }

  /**
   * No phase is stuck: in every reachable state each unfinished call has a step, given that locks are
   * released and callbacks return, which a step takes for granted.
   */
  lemma NoPhaseStuck(run: seq<State>, i: nat, t: nat)
    requires Run(run) && i < |run| && t < |run[i].threads| && run[i].threads[t].phase != Done
    ensures exists s' :: Step(run[i], t, s')
  {
    RunKinds(run, i);
    var s := run[i];
    var th := s.threads[t];
    assert Kind(th);
    match th.phase {
      case Entering =>
        var s' := if s.expired then Move(s, t, Late) else Move(s, t, Checking).(callbacks := s.callbacks + [th.callback]);
        assert Enter(s, t, s') && Step(s, t, s');
      case Late =>
        var s' := Move(s, t, Checking).(own := s.own + multiset{th.callback});
        assert CallOwn(s, t, s') && Step(s, t, s');
      case Checking =>
        var s' := Move(s, t, if s.expired then Leaving else Cleared);
        assert Check(s, t, s') && Step(s, t, s');
      case Cleared =>
        var s' := Move(s, t, Expiring(false));
        assert Proceed(s, t, s') && Step(s, t, s');
      case Expiring(inBody) =>
        var taken := Move(s, t, Calling(Reverse(s.callbacks), inBody)).(expired := true, callbacks := []);
        var s' := if s.expired then taken else taken.(snapshot := s.callbacks, taker := t);
        assert Take(s, t, s') && Step(s, t, s');
      case Calling(pending, inBody) =>
        if pending == [] {
          var s' := Move(s, t, if th.watcher then Leaving else Done);
          assert Return(s, t, s') && Step(s, t, s');
        } else {
          var s' := Move(s, t, Calling(pending[1..], inBody)).(delivered := s.delivered + [pending[0]]);
          assert CallTaken(s, t, s') && Step(s, t, s');
        }
      case InBody =>
        var s' := Move(s, t, Leaving);
        assert RunBody(s, t, s') && Step(s, t, s');
      case Leaving =>
        var s' := if th.callback in s.callbacks
        then Move(s, t, Done).(callbacks := RemoveFirst(s.callbacks, th.callback),
                               withdrawn := s.withdrawn + multiset{th.callback})
        else Move(s, t, Done);
        assert Leave(s, t, s') && Step(s, t, s');
    }
  }
}
