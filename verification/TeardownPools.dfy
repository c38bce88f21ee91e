/**
 * Executions and teardowns on their two thread pools, over every interleaving. An execution holds
 * its session's lock and may never end by itself; a teardown takes no lock.
 */
module TeardownPools {
  import opened Options

  const TEARDOWN_THREADS: nat := 4

  type Session(==, !new)

  /** A managed container; no two ever made have the same `id`. */
  datatype Container = Container(session: Session, generation: nat, id: nat)

  datatype Phase = Queued | Started | Locked | Running(container: Container) | Ended

  /** A request on the execution pool: to ensure a session, or to execute in an ensured one. */
  datatype Job = Job(creates: bool, session: Session, generation: nat, phase: Phase)

  datatype Progress = Waiting | Removing(todo: set<Container>) | Over(ok: bool)

  /** A close, or a cancel where the generation is given; `listed` is what it set out to remove. */
  datatype Teardown = Teardown(session: Session, generation: Option<nat>, listed: set<Container>, progress: Progress)

  datatype State = State(
    threads: nat, jobs: seq<Job>, teardowns: seq<Teardown>, containers: set<Container>, made: nat)

  predicate Working(j: Job) {
    !j.phase.Queued? && !j.phase.Ended?
  }

  predicate Holds(j: Job) {
    j.phase.Locked? || j.phase.Running?
  }

  predicate Names(t: Teardown, c: Container) {
    c.session == t.session && (t.generation.None? || c.generation == t.generation.value)
  }

  function BusyJobs(jobs: seq<Job>): nat {
    if jobs == [] then 0 else BusyJobs(jobs[1..]) + if Working(jobs[0]) then 1 else 0
  }

  function BusyTeardowns(teardowns: seq<Teardown>): nat {
    if teardowns == [] then 0
    else BusyTeardowns(teardowns[1..]) + if teardowns[0].progress.Removing? then 1 else 0
  }

  predicate LockFree(jobs: seq<Job>, session: Session) {
    forall j | j in jobs && Holds(j) :: j.session != session
  }

  // The steps of one thread on the execution pool. A program in a container that is there ends, if
  // at all, by itself; one whose container is removed ends at once.

  predicate JobMove(s: State, i: nat, s': State) {
    && i < |s.jobs|
    && var j := s.jobs[i];
    match j.phase
    case Queued => BusyJobs(s.jobs) < s.threads && s' == JobTo(s, i, Started)
    case Started => LockFree(s.jobs, j.session) && s' == JobTo(s, i, Locked)
    case Locked =>
      if j.creates then
        || s' == JobTo(s, i, Ended)
        || (exists c | c in s.containers && c.session == j.session :: s' == s.(containers := s.containers - {c}))
        || ((forall c | c in s.containers :: c.session != j.session)
            && s' == JobTo(s, i, Ended).(
                       containers := s.containers + {Container(j.session, j.generation, s.made)}, made := s.made + 1))
      else
        || (s' == JobTo(s, i, Ended)
            && forall c | c in s.containers :: c.session != j.session || c.generation != j.generation)
        || exists c | c in s.containers && c.session == j.session && c.generation == j.generation ::
             s' == JobTo(s, i, Running(c))
    case Running(c) => c !in s.containers && s' == JobTo(s, i, Ended)
    case Ended => false
  }

  predicate ProgramEnds(s: State, i: nat, s': State) {
    i < |s.jobs| && s.jobs[i].phase.Running? && s' == JobTo(s, i, Ended)
  }

  function JobTo(s: State, i: nat, phase: Phase): State
    requires i < |s.jobs|
  {
    s.(jobs := s.jobs[i := s.jobs[i].(phase := phase)])
  }

  function TeardownTo(s: State, i: nat, t: Teardown): State
    requires i < |s.teardowns|
  {
    s.(teardowns := s.teardowns[i := t])
  }

  /** One step of a teardown; removing a container that is gone already ends it with an error. */
  predicate TeardownMove(s: State, i: nat, s': State) {
    && i < |s.teardowns|
    && var t := s.teardowns[i];
    match t.progress
    case Waiting =>
      && BusyTeardowns(s.teardowns) < TEARDOWN_THREADS
      && var listed := set c | c in s.containers && Names(t, c);
      s' == TeardownTo(s, i, t.(listed := listed, progress := Removing(listed)))
    case Removing(todo) =>
      || (todo == {} && s' == TeardownTo(s, i, t.(progress := Over(true))))
      || (exists c | c in todo ::
            if c in s.containers then
              s' == TeardownTo(s, i, t.(progress := Removing(todo - {c}))).(containers := s.containers - {c})
            else s' == TeardownTo(s, i, t.(progress := Over(false))))
    case Over(_) => false
  }

  predicate Submits(s: State, s': State) {
    || (|s'.jobs| == |s.jobs| + 1 && var j := s'.jobs[|s.jobs|];
        j.phase.Queued? && s' == s.(jobs := s.jobs + [j]))
    || (|s'.teardowns| == |s.teardowns| + 1 && var t := s'.teardowns[|s.teardowns|];
        t.progress.Waiting? && t.listed == {} && s' == s.(teardowns := s.teardowns + [t]))
  }

  ghost predicate Step(s: State, s': State) {
    Submits(s, s') || exists i: nat :: JobMove(s, i, s') || ProgramEnds(s, i, s') || TeardownMove(s, i, s')
  }

  // What holds at every point of every run.

  predicate Alone(containers: set<Container>) {
    forall c, d | c in containers && d in containers :: c.session == d.session ==> c == d
  }

  predicate Excluded(jobs: seq<Job>) {
    forall i, j | 0 <= i < j < |jobs| :: Holds(jobs[i]) && Holds(jobs[j]) ==> jobs[i].session != jobs[j].session
  }

  predicate SoundJob(made: nat, j: Job) {
    j.phase.Running? ==>
      j.phase.container.session == j.session && j.phase.container.generation == j.generation
      && j.phase.container.id < made
  }

  predicate SoundTeardown(containers: set<Container>, made: nat, t: Teardown) {
    && (forall c, d | c in t.listed && d in t.listed :: c == d)
    && (forall c | c in t.listed :: Names(t, c) && c.id < made)
    && match t.progress
       case Waiting => t.listed == {}
       case Removing(todo) => todo <= t.listed && t.listed - todo !! containers
       case Over(ok) => t.listed !! containers
  }

  ghost predicate Invariant(s: State) {
    && BusyJobs(s.jobs) <= s.threads
    && BusyTeardowns(s.teardowns) <= TEARDOWN_THREADS
    && Excluded(s.jobs)
    && Alone(s.containers)
    && (forall c | c in s.containers :: c.id < s.made)
    && (forall j | j in s.jobs :: SoundJob(s.made, j))
    && (forall t | t in s.teardowns :: SoundTeardown(s.containers, s.made, t))
  }

  lemma {:induction false} BusyJobsAt(jobs: seq<Job>, i: nat, j: Job)
    requires i < |jobs|
    ensures BusyJobs(jobs[i := j])
            + (if jobs[i].phase.Started? || jobs[i].phase.Locked? || jobs[i].phase.Running? then 1 else 0)
            == BusyJobs(jobs) + if j.phase.Started? || j.phase.Locked? || j.phase.Running? then 1 else 0
  {
    if i > 0 {
      assert jobs[i := j][1..] == jobs[1..][i - 1 := j];
      BusyJobsAt(jobs[1..], i - 1, j);
    } else {
      assert jobs[i := j][1..] == jobs[1..];
    }
  }

  lemma {:induction false} BusyJobsMore(jobs: seq<Job>, j: Job)
    ensures BusyJobs(jobs + [j]) == BusyJobs(jobs) + if Working(j) then 1 else 0
  {
    if jobs != [] {
      assert (jobs + [j])[1..] == jobs[1..] + [j];
      BusyJobsMore(jobs[1..], j);
    }
  }

  lemma {:induction false} BusyTeardownsAt(ts: seq<Teardown>, i: nat, t: Teardown)
    requires i < |ts|
    ensures BusyTeardowns(ts[i := t]) + (if ts[i].progress.Removing? then 1 else 0)
            == BusyTeardowns(ts) + if t.progress.Removing? then 1 else 0
  {
    if i > 0 {
      assert ts[i := t][1..] == ts[1..][i - 1 := t];
      BusyTeardownsAt(ts[1..], i - 1, t);
    } else {
      assert ts[i := t][1..] == ts[1..];
    }
  }

  lemma {:induction false} BusyTeardownsMore(ts: seq<Teardown>, t: Teardown)
    ensures BusyTeardowns(ts + [t]) == BusyTeardowns(ts) + if t.progress.Removing? then 1 else 0
  {
    if ts != [] {
      assert (ts + [t])[1..] == ts[1..] + [t];
      BusyTeardownsMore(ts[1..], t);
    }
  }

  /** Containers only go, or come with an `id` of their own. */
  ghost predicate Later(s: State, s': State) {
    s.made <= s'.made && forall c | c in s'.containers :: c in s.containers || s.made <= c.id < s'.made
  }

  lemma SoundStays(s: State, s': State)
    requires Invariant(s) && Later(s, s')
    ensures forall t | t in s.teardowns :: SoundTeardown(s'.containers, s'.made, t)
    ensures forall j | j in s.jobs :: SoundJob(s'.made, j)
    ensures forall c | c in s'.containers :: c.id < s'.made
  {
  }

  lemma JobMoveIsLater(s: State, i: nat, s': State)
    requires Invariant(s) && (JobMove(s, i, s') || ProgramEnds(s, i, s'))
    ensures Later(s, s') && Alone(s'.containers) && s'.teardowns == s.teardowns && s'.threads == s.threads
    ensures |s'.jobs| == |s.jobs| && s'.jobs == s.jobs[i := s'.jobs[i]]
    ensures SoundJob(s'.made, s'.jobs[i])
    ensures s'.jobs[i].session == s.jobs[i].session
    ensures Working(s'.jobs[i]) ==> Working(s.jobs[i]) || BusyJobs(s.jobs) < s.threads
    ensures Holds(s'.jobs[i]) ==> Holds(s.jobs[i]) || LockFree(s.jobs, s.jobs[i].session)
  {
    hide BusyJobs, BusyTeardowns, SoundTeardown, Excluded;
    assert SoundJob(s.made, s.jobs[i]);
  }

  lemma ExcludedStays(jobs: seq<Job>, i: nat, j: Job)
    requires Excluded(jobs) && i < |jobs| && j.session == jobs[i].session
    requires Holds(j) ==> Holds(jobs[i]) || LockFree(jobs, jobs[i].session)
    ensures Excluded(jobs[i := j])
  {
  }

  lemma JobMoveKeeps(s: State, i: nat, s': State)
    requires Invariant(s) && (JobMove(s, i, s') || ProgramEnds(s, i, s'))
    ensures Invariant(s')
  {
    JobMoveIsLater(s, i, s');
    ExcludedStays(s.jobs, i, s'.jobs[i]);
    BusyJobsAt(s.jobs, i, s'.jobs[i]);
    SoundStays(s, s');
    hide BusyJobs, BusyTeardowns, SoundTeardown, SoundJob, Excluded, Alone, JobMove, ProgramEnds, Working, Holds, LockFree;
    assert forall j | j in s'.jobs :: j in s.jobs || j == s'.jobs[i];
  }

  lemma TeardownMoveKeeps(s: State, i: nat, s': State)
    requires Invariant(s) && TeardownMove(s, i, s')
    ensures Invariant(s')
    ensures s'.jobs == s.jobs && s'.containers <= s.containers
    ensures var t := s.teardowns[i];
            forall c | c in s.containers && c !in s'.containers ::
              c.session == t.session && (t.generation == None || t.generation == Some(c.generation))
    ensures |s'.teardowns| == |s.teardowns| && s'.teardowns == s.teardowns[i := s'.teardowns[i]]
  {
    BusyTeardownsAt(s.teardowns, i, s'.teardowns[i]);
    assert SoundTeardown(s.containers, s.made, s.teardowns[i]);
    SoundStays(s, s');
    assert SoundTeardown(s'.containers, s'.made, s'.teardowns[i]);
    hide BusyJobs, BusyTeardowns, SoundTeardown, SoundJob, Excluded;
    assert forall t | t in s'.teardowns :: t in s.teardowns || t == s'.teardowns[i];
  }

  lemma StepKeeps(s: State, s': State)
    requires Invariant(s) && Step(s, s')
    ensures Invariant(s')
  {
    if Submits(s, s') {
      if |s'.jobs| > |s.jobs| {
        BusyJobsMore(s.jobs, s'.jobs[|s.jobs|]);
      } else {
        BusyTeardownsMore(s.teardowns, s'.teardowns[|s.teardowns|]);
      }
    } else {
      var i: nat :| JobMove(s, i, s') || ProgramEnds(s, i, s') || TeardownMove(s, i, s');
      if TeardownMove(s, i, s') {
        TeardownMoveKeeps(s, i, s');
      } else {
        JobMoveKeeps(s, i, s');
      }
    }
  }

  ghost predicate Run(run: seq<State>) {
    && run != [] && run[0].jobs == [] && run[0].teardowns == [] && run[0].containers == {}
    && forall k | 0 < k < |run| :: Step(run[k - 1], run[k])
  }

  /**
   * Over every run: no more workers are busy than there are, executions of one session exclude each
   * other, a session has at most one container, and what a teardown that is over set out to remove is
   * gone, even when another one got there first.
   */
  lemma RunKeeps(run: seq<State>, k: nat)
    requires Run(run) && k < |run|
    ensures var s := run[k];
            && BusyJobs(s.jobs) <= s.threads && BusyTeardowns(s.teardowns) <= 4
            && (forall i, j | 0 <= i < j < |s.jobs| && s.jobs[i].session == s.jobs[j].session ::
                  !(s.jobs[i].phase.Locked? || s.jobs[i].phase.Running?) || !(s.jobs[j].phase.Locked? || s.jobs[j].phase.Running?))
            && (forall c, d | c in s.containers && d in s.containers :: c.session == d.session ==> c == d)
            && (forall t | t in s.teardowns && t.progress.Over? :: t.listed !! s.containers)
  {
    RunInvariant(run, k);
    forall t | t in run[k].teardowns && t.progress.Over? ensures t.listed !! run[k].containers {
      assert SoundTeardown(run[k].containers, run[k].made, t);
    }
  }

  lemma {:induction false} RunInvariant(run: seq<State>, k: nat)
    requires Run(run) && k < |run|
    ensures Invariant(run[k])
  {
    if k > 0 {
      RunInvariant(run, k - 1);
      StepKeeps(run[k - 1], run[k]);
    }
  }

  lemma StepIsLater(s: State, s': State)
    requires Invariant(s) && Step(s, s')
    ensures Later(s, s')
  {
    if !Submits(s, s') {
      var i: nat :| JobMove(s, i, s') || ProgramEnds(s, i, s') || TeardownMove(s, i, s');
      if TeardownMove(s, i, s') {
        TeardownMoveKeeps(s, i, s');
      } else {
        JobMoveIsLater(s, i, s');
      }
    }
  }

  lemma LaterInRun(run: seq<State>, k: nat)
    requires Run(run) && 0 < k < |run|
    ensures Later(run[k - 1], run[k])
  {
    RunInvariant(run, k - 1);
    hide Invariant, Step;
    StepIsLater(run[k - 1], run[k]);
  }

  /** A container that is gone never comes back, whatever executions and ensures run after it. */
  lemma {:induction false} GoneForGood(run: seq<State>, k: nat, l: nat, c: Container)
    requires Run(run) && k <= l < |run| && c.id < run[k].made && c !in run[k].containers
    ensures c !in run[l].containers && run[k].made <= run[l].made
  {
    hide Run;
    if k < l {
      GoneForGood(run, k, l - 1, c);
      LaterInRun(run, l);
    }
  }

  // Cancelling is always possible and always ends.

  /** A teardown under way can always go on, and one that waits can start as soon as a worker is free. */
  lemma CanTearDown(s: State, i: nat) returns (s': State)
    requires i < |s.teardowns| && !s.teardowns[i].progress.Over?
    requires s.teardowns[i].progress.Waiting? ==> BusyTeardowns(s.teardowns) < TEARDOWN_THREADS
    ensures TeardownMove(s, i, s') && s'.jobs == s.jobs
  {
    var t := s.teardowns[i];
    match t.progress
    case Waiting =>
      var listed := set c | c in s.containers && Names(t, c);
      s' := TeardownTo(s, i, t.(listed := listed, progress := Removing(listed)));
    case Removing(todo) =>
      if todo == {} {
        s' := TeardownTo(s, i, t.(progress := Over(true)));
      } else {
        var c :| c in todo;
        s' := if c in s.containers then
                TeardownTo(s, i, t.(progress := Removing(todo - {c}))).(containers := s.containers - {c})
              else TeardownTo(s, i, t.(progress := Over(false)));
      }
    case Over(_) => assert false;
  }

  function Work(t: Teardown): nat {
    match t.progress
    case Waiting => 3
    case Removing(todo) => if todo == {} then 1 else 2
    case Over(_) => 0
  }

  function TotalWork(ts: seq<Teardown>): nat {
    if ts == [] then 0 else Work(ts[0]) + TotalWork(ts[1..])
  }

  lemma {:induction false} TotalWorkAt(ts: seq<Teardown>, i: nat, t: Teardown)
    requires i < |ts|
    ensures TotalWork(ts[i := t]) + Work(ts[i]) == TotalWork(ts) + Work(t)
  {
    if i > 0 {
      assert ts[i := t][1..] == ts[1..][i - 1 := t];
      TotalWorkAt(ts[1..], i - 1, t);
    } else {
      assert ts[i := t][1..] == ts[1..];
    }
  }

  /** Every step of a teardown brings all of them nearer to their end. */
  lemma MoveWorks(s: State, i: nat, s': State)
    requires Invariant(s) && TeardownMove(s, i, s')
    ensures TotalWork(s'.teardowns) < TotalWork(s.teardowns)
    ensures Work(s'.teardowns[i]) < Work(s.teardowns[i])
    ensures var t, t' := s.teardowns[i], s'.teardowns[i];
            && t'.session == t.session && t'.generation == t.generation && !t'.progress.Waiting?
            && (!t.progress.Waiting? ==> t'.listed == t.listed)
            && (t.progress.Waiting? ==> forall c | c in s.containers && Names(t, c) :: c in t'.listed)
  {
    assert SoundTeardown(s.containers, s.made, s.teardowns[i]);
    TotalWorkAt(s.teardowns, i, s'.teardowns[i]);
  }

  lemma {:induction false} SomeBusy(ts: seq<Teardown>) returns (i: nat)
    requires BusyTeardowns(ts) > 0
    ensures i < |ts| && ts[i].progress.Removing?
  {
    i := 0;
    if !ts[0].progress.Removing? {
      i := SomeBusy(ts[1..]);
      i := i + 1;
    }
  }

  predicate CanStart(s: State, i: nat)
    requires i < |s.teardowns|
  {
    s.teardowns[i].progress.Waiting? ==> BusyTeardowns(s.teardowns) < TEARDOWN_THREADS
  }

  /** The containers a teardown has removed, or is going to, as they stand. */
  predicate Aims(t: Teardown, c: Container) {
    if t.progress.Waiting? then Names(t, c) else c in t.listed
  }

  /** The teardowns named, one step each in this order and nobody else, lead from `s` to `last`. */
  ghost predicate Reaches(s: State, who: seq<nat>, last: State)
    decreases |who|
  {
    if who == [] then last == s else exists next :: TeardownMove(s, who[0], next) && Reaches(next, who[1..], last)
  }

  /**
   * From every reachable state and without a single step of an execution, a teardown can be brought
   * to its end, in three steps of its own when a worker is free for it.
   */
  lemma {:induction false} Drain(s: State, i: nat) returns (who: seq<nat>, last: State)
    requires Invariant(s) && i < |s.teardowns|
    ensures Reaches(s, who, last) && last.jobs == s.jobs && last.containers <= s.containers
    ensures CanStart(s, i) ==> |who| <= Work(s.teardowns[i]) && forall k | k in who :: k == i
    ensures i < |last.teardowns| && last.teardowns[i].progress.Over?
    ensures forall c | c in last.containers :: !Aims(s.teardowns[i], c)
    decreases TotalWork(s.teardowns)
  {
    assert SoundTeardown(s.containers, s.made, s.teardowns[i]);
    if s.teardowns[i].progress.Over? {
      return [], s;
    }
    var k := i;
    if !CanStart(s, i) {
      k := SomeBusy(s.teardowns);
    }
    var s' := CanTearDown(s, k);
    TeardownMoveKeeps(s, k, s');
    MoveWorks(s, k, s');
    hide Invariant, TeardownMove, BusyTeardowns, SoundTeardown, TotalWork;
    who, last := Drain(s', i);
    who := [k] + who;
    assert TeardownMove(s, who[0], s') && Reaches(s', who[1..], last);
  }

  /**
   * Cancelling needs nothing from the executions: whatever they are blocked in and whatever locks
   * they hold, once the teardown is through, the execution it is for can end.
   */
  lemma CancelUnblocks(s: State, i: nat, j: nat) returns (who: seq<nat>, last: State, after: State)
    requires Invariant(s) && i < |s.teardowns| && s.teardowns[i].progress.Waiting?
    requires j < |s.jobs| && s.jobs[j].phase.Running? && s.jobs[j].phase.container.session == s.teardowns[i].session
    requires s.teardowns[i].generation == None || s.teardowns[i].generation == Some(s.jobs[j].phase.container.generation)
    ensures Reaches(s, who, last) && last.jobs == s.jobs
    ensures BusyTeardowns(s.teardowns) < 4 ==> |who| <= 3 && forall k | k in who :: k == i
    ensures forall c | c in last.containers && c.session == s.teardowns[i].session ::
              s.teardowns[i].generation != None && s.teardowns[i].generation != Some(c.generation)
    ensures JobMove(last, j, after) && after.jobs[j].phase.Ended?
  {
    who, last := Drain(s, i);
    hide Reaches, Invariant, BusyTeardowns;
    after := JobTo(last, j, Ended);
  }

  /** Nothing the executions do takes a step from a teardown or gives it more to do. */
  lemma ExecutionsLeaveTeardowns(s: State, j: nat, s': State, i: nat)
    requires Invariant(s) && (JobMove(s, j, s') || ProgramEnds(s, j, s'))
    requires i < |s.teardowns| && !s.teardowns[i].progress.Over? && CanStart(s, i)
    ensures i < |s'.teardowns| && exists next :: TeardownMove(s', i, next)
    ensures TotalWork(s'.teardowns) == TotalWork(s.teardowns)
  {
    JobMoveIsLater(s, j, s');
    var next := CanTearDown(s', i);
  }
}
