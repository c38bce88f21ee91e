/** One execution in a reusable container: dispatch, classification, cleanup, and the result cache. */
module ExecutionFlow {
  import opened Options
  import opened StreamRetention
  import WheelNames
  import opened ExecutionReports
  import opened ProcessCleanup

  /** A call returns a report or raises with a message. */
  datatype Outcome = Reported(report: Report) | Raised(message: string)

  /** The limit an error text speaks of. */
  function ResourceReason(text: string): (reason: Option<Reason>)
    ensures var found := (needle: string) => Contains(WheelNames.Lower(text), needle);
            && (reason.None? <==> !found(SCRATCH_TEXT) && !found(PIDS_TEXT) && !found(THREAD_TEXT)
                                  && !found(MEMORY_TEXT) && !found(ALLOCATE_TEXT))
            && (reason.Some? ==>
                  match reason.value
                  case LimitScratch => found(SCRATCH_TEXT)
                  case LimitPids => !found(SCRATCH_TEXT) && (found(PIDS_TEXT) || found(THREAD_TEXT))
                  case LimitMemory => !found(SCRATCH_TEXT) && !found(PIDS_TEXT) && !found(THREAD_TEXT)
                  case _ => false)
  {
    var message := WheelNames.Lower(text);
    if Contains(message, SCRATCH_TEXT) then Some(LimitScratch)
    else if Contains(message, PIDS_TEXT) || Contains(message, THREAD_TEXT) then
      Some(LimitPids)
    else if Contains(message, MEMORY_TEXT) || Contains(message, ALLOCATE_TEXT) then Some(LimitMemory)
    else None
  }

  /** How the model code's exec ends, as the daemon tells it. */
  datatype Reply = Finished(exitCode: int, stdout: string, stderr: string) | Broke(message: string)

  datatype Collection = Collection(files: seq<nat>, truncated: bool) | CollectionRaised(message: string)

  /**
   * What one execution meets. `halted` says that the container stops before the reply is looked at,
   * `unloaded` is the error of looking it up again then; `collected` is what collection brings.
   */
  datatype BodyEnv = BodyEnv(
    preparation: Option<string>, reply: Reply, halted: bool, unloaded: Option<string>, oom: bool, pidsHit: bool,
    collected: Collection)

  /** `budget` is the remaining time when there is one; `expires`: the deadline passes during the run. */
  datatype RunEnv = RunEnv(budget: Option<int>, snapshot: Option<string>, body: BodyEnv, expires: bool)

  const OOM_NOTE: string := "Code execution exceeded its memory " + "limit and was stopped."
  const CANCEL_NOTE: string := "Code execution was cancelled or " + "the sandbox container stopped."
  const NOT_DESTROYED: string := "could not destroy sandbox container"
  const BROKEN: string := "sandbox execution failed: "
  const STOP_NOTE: string := "Sandbox container stopped."
  const PARTIAL_NOTE: string := "Only part of the output " + "directory was collected."

  /** The classification of a reply, before output is collected. */
  function Classify(env: BodyEnv): Report
    requires env.reply.Finished? || env.halted
  {
    match env.reply
    case Broke(_) => Report(Killed, Stopped, None, "", STOP_NOTE, [])
    case Finished(code, out, err) =>
      if env.unloaded.Some? then Report(Killed, Stopped, None, "", STOP_NOTE, [])
      else if env.oom then Report(Killed, LimitMemory, Some(code), out, OOM_NOTE, [])
      else if code != 0 && env.halted then Report(Killed, Stopped, None, "", CANCEL_NOTE, [])
      else if env.pidsHit then Report(Unsuccessful, LimitPids, Some(code), out, err, [])
      else
        var limit := ResourceReason(err);
        Report(if code == 0 then Succeeded else Unsuccessful,
               if limit.Some? then limit.value else if code == 0 then Completed else Ended,
               Some(code), out, err, [])
  }

  /** What the code searches an error for. */
  const SCRATCH_TEXT := "no space left on device"
  const PIDS_TEXT := "resource temporarily unavailable"
  const THREAD_TEXT := "can't start new thread"
  const MEMORY_TEXT := "memoryerror"
  const ALLOCATE_TEXT := "cannot allocate memory"

  lemma ContainsPrefix(text: string, more: string)
    ensures Contains(text, MARKER) ==> Contains(text + more, MARKER)
  {
    if Contains(text, MARKER) {
      var i :| 0 <= i <= |text| && OccursAt(text, MARKER, i);
      assert (text + more)[i..i + |MARKER|] == text[i..i + |MARKER|];
      assert OccursAt(text + more, MARKER, i);
    }
  }

  lemma InNeedle(text: string, needle: string, i: nat, k: nat)
    requires OccursAt(text, needle, i) && k + 1 < |text| && i <= k + 1 < i + |needle|
    ensures if i <= k then text[k] in needle else text[k + 1] == needle[0]
  {
    assert i <= k ==> text[i..i + |needle|][k - i] == text[k];
    assert text[i..i + |needle|][0] == text[i];
  }

  /** `front` ends in a colon and a blank, and a needle with neither in its way is not in it. */
  ghost predicate InFrontOf(front: string, needle: string) {
    && |front| >= 2 && front[|front| - 2] == ':' && front[|front| - 1] == ' '
    && needle != "" && needle[0] != ' ' && ':' !in needle && !Contains(front, needle)
  }

  lemma NoneAcross(front: string, text: string, needle: string, i: nat)
    requires InFrontOf(front, needle) && OccursAt(front + text, needle, i)
    ensures i >= |front|
  {
    var all, n := front + text, |front|;
    assert all[n - 1] == front[n - 1] && all[n - 2] == front[n - 2];
    if i + |needle| <= n {
      assert all[i..i + |needle|] == front[i..i + |needle|];
      assert OccursAt(front, needle, i);
    } else if i < n {
      InNeedle(all, needle, i, n - 2);
    }
  }

  lemma FoundBehind(front: string, text: string, needle: string)
    requires InFrontOf(front, needle)
    ensures Contains(front + text, needle) <==> Contains(text, needle)
  {
    var all, n := front + text, |front|;
    assert all[n..] == text;
    if Contains(all, needle) {
      var i :| 0 <= i <= |all| && OccursAt(all, needle, i);
      NoneAcross(front, text, needle, i);
      assert all[i..i + |needle|] == all[n..][i - n..i - n + |needle|];
      assert OccursAt(text, needle, i - n);
    }
    if Contains(text, needle) {
      var i :| 0 <= i <= |text| && OccursAt(text, needle, i);
      assert all[n + i..n + i + |needle|] == all[n..][i..i + |needle|];
      assert OccursAt(all, needle, n + i);
    }
  }

  /** A text without some letter of the needle does not hold it. */
  lemma LacksLetter(text: string, needle: string, k: nat)
    requires k < |needle| && needle[k] !in text
    ensures !Contains(text, needle)
  {
    forall i | 0 <= i <= |text| ensures !OccursAt(text, needle, i) {
      if i + |needle| <= |text| {
        assert text[i..i + |needle|][k] == text[i + k] != needle[k];
      }
    }
  }

  lemma BrokenLetters()
    ensures 'p' !in BROKEN && 'r' !in BROKEN
  {
  }

  lemma MoreBrokenLetters()
    ensures '\'' !in BROKEN && 'm' !in BROKEN
  {
  }

  lemma BrokenSaysNoLimit()
    ensures !Contains(BROKEN, SCRATCH_TEXT) && !Contains(BROKEN, PIDS_TEXT) && !Contains(BROKEN, THREAD_TEXT)
    ensures !Contains(BROKEN, MEMORY_TEXT) && !Contains(BROKEN, ALLOCATE_TEXT)
  {
    BrokenLetters();
    MoreBrokenLetters();
    LacksLetters(BROKEN);
    hide Contains;
  }

  lemma LacksLetters(text: string)
    requires 'p' !in text && 'r' !in text && '\'' !in text && 'm' !in text
    ensures !Contains(text, SCRATCH_TEXT) && !Contains(text, PIDS_TEXT) && !Contains(text, THREAD_TEXT)
    ensures !Contains(text, MEMORY_TEXT) && !Contains(text, ALLOCATE_TEXT)
  {
    hide Contains;
    LacksLetter(text, SCRATCH_TEXT, 4);
    LacksLetter(text, PIDS_TEXT, 0);
    LacksLetter(text, THREAD_TEXT, 3);
    LacksLetter(text, MEMORY_TEXT, 0);
    LacksLetter(text, ALLOCATE_TEXT, 16);
  }

  lemma FoundBehindBroken(text: string, needle: string)
    requires needle != "" && needle[0] != ' ' && ':' !in needle && !Contains(BROKEN, needle)
    ensures Contains(BROKEN + text, needle) <==> Contains(text, needle)
  {
    assert InFrontOf(BROKEN, needle);
    FoundBehind(BROKEN, text, needle);
  }

  lemma BrokenIsLower(message: string)
    ensures WheelNames.Lower(BROKEN + message) == BROKEN + WheelNames.Lower(message)
  {
    WheelNames.LowerAppend(BROKEN, message);
    assert WheelNames.Lower(BROKEN) == BROKEN;
  }

  /** The text the code puts in front of a daemon's error neither hides nor adds a limit. */
  lemma ReasonOfCrash(message: string)
    ensures ResourceReason(BROKEN + message) == ResourceReason(message)
  {
    BrokenIsLower(message);
    BrokenSaysNoLimit();
    hide Contains, WheelNames.Lower;
    var text := WheelNames.Lower(message);
    FoundBehindBroken(text, SCRATCH_TEXT);
    FoundBehindBroken(text, PIDS_TEXT);
    FoundBehindBroken(text, THREAD_TEXT);
    FoundBehindBroken(text, MEMORY_TEXT);
    FoundBehindBroken(text, ALLOCATE_TEXT);
  }

  /**
   * The container of one session and its processes. Replies about `running` are truthful while the
   * deadline has not expired; a removal of a `dependable` daemon may fail only for a container that is
   * gone already.
   */
  class Sandbox {
    const dependable: bool
    var running: bool
    var processes: System
    var baseline: Option<Baseline>   // what is still to be restored
    ghost var spared: Baseline       // the last snapshot
    ghost var ran: set<Identity>     // whatever had been born when the last dispatched command was over
    ghost var failures: nat          // how many cleanups failed so far
    ghost var listed: set<Identity>  // whatever had been born when the last cleanup's last pass listed the table

    ghost predicate Valid()
      reads this
    {
      && processes.Sound() && processes.Knows(spared)
      && ran <= processes.born && listed <= processes.born
      && (baseline.Some? ==> baseline.value == spared)
    }

    constructor (dependable: bool)
      ensures Valid() && this.dependable == dependable && running && baseline.None?
    {
      this.dependable := dependable;
      running, processes, baseline := true, System(map[], {}, map[]), None;
      spared, ran, listed, failures := map[], {}, {}, 0;
    }

    /**
     * The container no longer runs, or a cleanup has swept it since: what lives in it beside the
     * baseline was born after the last pass had listed the table. Nothing else lives in it, then, exactly
     * when nothing born since that listing does (`QuietExactly`).
     */
    ghost predicate Clean()
      reads this
    {
      running ==> ran <= listed && Ids(spared) <= listed && OnlyLater(processes, spared, listed)
    }

    /**
     * A cancel or a timer elsewhere may remove the container at any time, and nothing restarts it; its
     * processes go on meanwhile.
     */
    method Elsewhere()
      requires Valid()
      modifies this`running, this`processes
      ensures Valid() && Evolves(old(processes), processes)
      ensures running ==> old(running)
      ensures old(Clean()) ==> Clean()
    {
      var stopped: bool := *;
      running := running && !stopped;
      var next: System := *;
      EvolvesSelf(processes);
      if !Evolves(processes, next) {
        next := processes;
      }
      KnowsStays(processes, next, spared);
      if Clean() && running {
        OnlyLaterStays(processes, next, spared, listed);
      }
      processes := next;
    }

    method Remove() returns (ok: bool)
      requires Valid()
      modifies this`running
      ensures Valid() && (old(Clean()) ==> Clean())
      ensures running ==> old(running)
      ensures ok || dependable ==> !running
    {
      ok := *;
      running := running && !ok && !dependable;
    }

    /** A script is started in the container, as process `self`. */
    method Start() returns (self: Pid)
      requires Valid()
      modifies this`processes
      ensures Valid() && Evolves(old(processes), processes) && self in processes.table
      ensures forall id | id in processes.born :: id in old(processes).born || id.pid == self
      ensures forall id | old(processes).Present(id) :: processes.Present(id) && id.pid != self
    {
      ghost var above := FreshPid(processes.born);
      assert Unused(processes.born, above);
      self :| Unused(processes.born, self);
      StartEvolves(processes, self);
      KnowsStays(processes, Started(processes, self), spared);
      processes := Started(processes, self);
    }

    /**
     * `stop_processes`: runs the cleanup script while there is a baseline and a container to clean. It
     * fails with a text when the script does, or is not done before the container goes. A `blind` one
     * may be told that the container does not run although it does: once the deadline has expired,
     * asking the daemon raises.
     */
    method StopProcesses(blind: bool) returns (failure: Option<string>)
      requires Valid()
      modifies this`running, this`processes, this`baseline, this`listed, this`failures
      ensures Valid() && Evolves(old(processes), processes)
      ensures running ==> old(running)
      ensures failure.None? && old(baseline).Some? && !blind ==> Clean()
      ensures old(baseline).Some? && baseline.None? ==> Clean()
      ensures old(baseline).None? && old(Clean()) ==> Clean()
      ensures baseline.Some? ==> old(baseline).Some?
      ensures failure.None? && baseline.Some? && !blind ==> !running
      ensures failure.Some? ==> old(baseline).Some? && baseline.Some?
      ensures failures == old(failures) + if failure.Some? then 1 else 0
    {
      Elsewhere();
      failure := None;
      var denied: bool := *;
      if baseline.Some? && running && !(blind && denied) {
        ghost var before, asked := old(processes), processes;
        var self := Start();
        var passes: nat := *;
        var text: string := *;
        ghost var begun := processes;
        var end, stopped;
        ghost var systems, looks, killed;
        end, stopped, systems, looks, killed := Cleanup(processes, baseline.value, self, passes);
        hide Evolves, OnlyLater, Swept, System.Knows, System.Sound;
        processes := end;
        EvolvesOn(before, asked, begun);
        EvolvesOn(before, begun, end);
        KnowsStays(begun, end, spared);
        BornStays(before, begun);
        BornStays(begun, end);
        if !stopped {
          failures := failures + 1;
          return Some(text);
        }
        SweptLeavesOnlyLater(systems, looks, spared, self, end);
        BornStays(begun, systems[0]);
        BornStays(systems[0], end);
        KnownIds(systems[0], spared);
        listed := systems[0].born;
        baseline := None;
      }
    }

    /** The processes run, dispatched ones with them, and are over with the command or not. */
    method Dispatch()
      requires Valid()
      modifies this`processes, this`ran
      ensures Valid() && Evolves(old(processes), processes) && ran == processes.born >= old(processes).born
    {
      var next: System := *;
      EvolvesSelf(processes);
      if !Evolves(processes, next) {
        next := processes;
      }
      KnowsStays(processes, next, spared);
      processes := next;
      ran := next.born;
    }

    /** `_execute_body`: prepares, dispatches, classifies, stops what is left, and collects. */
    method ExecuteBody(env: BodyEnv, blind: bool) returns (o: Outcome)
      requires Valid() && baseline.Some?
      modifies this`running, this`processes, this`baseline, this`ran, this`listed, this`failures
      ensures Valid() && (running ==> old(running))
      ensures baseline.None? ==> Clean()
      ensures o.Reported? ==> Reports(Seen(env, old(running)), o.report)
      ensures old(processes).born <= ran && spared == old(spared)
      ensures env.preparation.Some? ==> o == Raised(env.preparation.value)
      ensures env.preparation.None? && Crashed(Seen(env, old(running))).Some? ==>
                o == Raised(BROKEN + Crashed(Seen(env, old(running))).value)
      ensures old(failures) <= failures
      ensures o.Raised? && env.preparation.None? && Crashed(Seen(env, old(running))).None? && failures == old(failures) ==>
                env.collected == CollectionRaised(o.message)
    {
      hide Evolves, OnlyLater, System.Sound, System.Knows, Judged, Classify;
      Dispatch();
      if env.preparation.Some? {
        return Raised(env.preparation.value);
      }
      var seen := Seen(env, running);
      var denied: bool := *;
      running := running && (!seen.halted || (blind && denied));
      var crash := Crashed(seen);
      if crash.Some? {
        return Raised(BROKEN + crash.value);
      }
      var report := Classify(seen);
      var failure := StopProcesses(blind);
      if failure.Some? {
        return Raised(failure.value);
      }
      o := Collect(seen, report);
    }

    /**
     * `_execute_unlocked`: one execution with its deadline. `expired` is the deadline's flag once
     * its timer has been joined.
     */
    method ExecuteUnlocked(env: RunEnv) returns (o: Outcome)
      requires Valid()
      modifies this
      ensures Valid() && (running ==> old(running))
      ensures dependable && (old(Clean()) || env.snapshot.None?) ==> Clean()
      ensures Dispatches(env) ==> old(processes).born <= ran && Ids(spared) <= old(processes).born
      ensures Dispatches(env) ==> forall id | old(processes).Present(id) :: id in Ids(spared)
      ensures o.Reported? ==> Settled(o.report)
      ensures o.Reported? && o.report.reason !in {Completed, Ended, Stopped, Unknown} ==> !running
      ensures o.Reported? ==> (o.report.status == TimedOut <==> Expires(env))
      ensures o.Reported? && !Expires(env) ==>
                ReportsRun(env.body, old(running), o.report) || ReportsError(o.report)
      ensures o.Raised? && Expires(env) ==> o == Raised(NOT_DESTROYED) && (!running || !dependable)
      ensures Dispatches(env) && env.body.preparation.None? && !Expires(env) && failures == old(failures) ==>
                Answers(env.body, old(running), o)
    {
      if env.budget.Some? && env.budget.value <= 0 {
        o := ExpireInQueue();
        return;
      }
      hide Evolves, OnlyLater, System.Sound, System.Knows, Ids, ResourceReason, Reports, ReportsRun, ReportsError, Answers;
      hide Crashed, Failure, Finalise, Valid, Clean, Seen, Settled;
      var inner := RunGuarded(env);
      o := Conclude(inner, env.expires && env.budget.Some?);
      if inner.Reported? {
        ReportsSettle(Seen(env.body, old(running)), inner.report);
        RunDecides(env.body, old(running), inner.report);
      } else {
        FailureSettles(inner.message);
      }
      if Dispatches(env) && env.body.preparation.None? && !Expires(env) && failures == old(failures) {
        AnswersFrom(env.body, old(running), inner, o);
      }
    }

    /** The deadline was over before the execution got its turn: nothing is run, and the container goes. */
    method ExpireInQueue() returns (o: Outcome)
      requires Valid()
      modifies this`running
      ensures Valid() && (running ==> old(running)) && (dependable ==> !running && Clean())
      ensures o == Raised(NOT_DESTROYED) || (o.Reported? && !running)
      ensures o.Reported? ==> o.report.status == TimedOut && Settled(o.report)
    {
      var gone := Remove();
      if !gone {
        return Raised(NOT_DESTROYED);
      }
      o := Reported(Report(TimedOut, LimitWallClock, None, "", "Execution deadline expired in the queue.", []));
    }

    /**
     * The inner `try`: snapshot, body, and in any case the cleanup, or else the container's end.
     */
    method RunGuarded(env: RunEnv) returns (inner: Outcome)
      requires Valid()
      modifies this
      ensures Valid() && (running ==> old(running))
      ensures dependable && (old(Clean()) || env.snapshot.None?) && !Expires(env) ==> Clean()
      ensures env.snapshot.None? ==> old(processes).born <= ran && Ids(spared) <= old(processes).born
      ensures env.snapshot.None? ==> forall id | old(processes).Present(id) :: id in Ids(spared)
      ensures inner.Reported? ==> Reports(Seen(env.body, old(running)), inner.report)
      ensures env.snapshot.None? && env.body.preparation.None? && failures == old(failures) ==>
                var crash := Crashed(Seen(env.body, old(running)));
                if crash.Some? then inner == Raised(BROKEN + crash.value)
                else inner.Reported? || env.body.collected == CollectionRaised(inner.message)
    {
      if env.snapshot.Some? {
        return Raised(env.snapshot.value);
      }
      TakeSnapshot();
      inner := ExecuteBody(env.body, Expires(env));
      var failure := StopProcesses(Expires(env));
      if failure.Some? {
        var gone := Remove();
        inner := Raised(if gone then failure.value else NOT_DESTROYED);
      }
    }

    /** `_snapshot_processes`: what is there, whoever left it, is the baseline. */
    method TakeSnapshot()
      requires Valid()
      modifies this`processes, this`baseline, this`spared
      ensures Valid() && baseline == Some(spared)
      ensures Evolves(old(processes), processes)
      ensures Ids(spared) <= old(processes).born
      ensures forall id | old(processes).Present(id) :: id in Ids(spared)
    {
      ghost var before := processes;
      var self := Start();
      var snapshot := Snapshot(processes, self);
      baseline, spared := Some(snapshot), snapshot;
      assert forall id | before.Present(id) :: processes.Present(id) && id.pid in snapshot && snapshot[id.pid] == id.start;
      ExitEvolves(processes, self);
      EvolvesOn(before, processes, Exit(processes, self));
      KnowsStays(processes, Exit(processes, self), spared);
      processes := Exit(processes, self);
    }

    /** What becomes of the inner outcome once the timer is joined. */
    method Conclude(inner: Outcome, expired: bool) returns (o: Outcome)
      requires Valid()
      modifies this`running, this`processes
      ensures Valid() && (running ==> old(running))
      ensures old(Clean()) ==> Clean()
      ensures o.Reported? ==> (o.report.status == TimedOut && Settled(o.report) && expired) || !expired
      ensures o.Reported? && o.report.reason !in {Completed, Ended, Stopped, Unknown} ==> !running
      ensures o.Reported? && !expired ==>
                if inner.Reported? then o.report == Finalise(inner.report)
                else o.report == Failure(inner.message) && ResourceReason(inner.message).Some?
      ensures o.Raised? && expired ==> !running || !dependable
      ensures dependable && expired ==> !running && Clean()
      ensures inner.Raised? && !expired && ResourceReason(inner.message).None? ==> o == inner
      ensures o.Raised? ==>
                || o == Raised(NOT_DESTROYED)
                || (o == inner && !expired && ResourceReason(inner.message).None?)
    {
      hide Evolves, OnlyLater, System.Sound, System.Knows, ResourceReason;
      if inner.Raised? && !expired && ResourceReason(inner.message).None? {
        return inner;
      }
      var report := if inner.Raised? then Failure(inner.message) else inner.report;
      if expired {
        Elsewhere();
        report := report.(status := TimedOut, reason := LimitWallClock, exitCode := None, files := [],
        stderr := "Code execution exceeded its time limit and was stopped.");
      }
      if IsLimit(report.reason) {
        if running {
          var gone := Remove();
          if !gone {
            return Raised(NOT_DESTROYED);
          }
        }
        report := Finalise(report);
      }
      o := Reported(report);
    }
  }

  /** The errors a program wrote, with a note when its files were collected in part. */
  function Noted(errors: string, partial: bool): string {
    if !partial then errors else if errors == "" then PARTIAL_NOTE else errors + ("\n" + PARTIAL_NOTE)
  }

  /** The end of `_execute_body`: collects after a normal end, and marks what was cut. */
  method Collect(env: BodyEnv, classified: Report) returns (o: Outcome)
    requires (env.reply.Finished? || env.halted) && classified == Classify(env)
    ensures o.Reported? ==> Judged(env, o.report)
    ensures o.Raised? ==> env.collected == CollectionRaised(o.message)
  {
    hide Contains, ResourceReason;
    var report := classified;
    if report.status == Succeeded || report.status == Unsuccessful {
      match env.collected {
        case CollectionRaised(message) => return Raised(message);
        case Collection(files, truncated) =>
          report := report.(files := files);
          if truncated {
            if report.reason == Completed {
              report := report.(reason := LimitOutput);
            }
            ContainsPrefix(report.stderr, "\n" + PARTIAL_NOTE);
            Unmarked("");
            report := report.(stderr := Noted(report.stderr, true));
          }
      }
    }
    if Contains(report.stdout, MARKER) || Contains(report.stderr, MARKER) {
      report := report.(reason := LimitOutput);
    }
    o := Reported(report);
  }

  /** A container that had stopped before is found stopped. */
  function Seen(env: BodyEnv, running: bool): BodyEnv {
    env.(halted := env.halted || !running)
  }

  function Started(s: System, self: Pid): System {
    s.(table := s.table[self := Process(0, true)], born := s.born + {Identity(self, 0)})
  }

  lemma StartEvolves(s: System, self: Pid)
    requires s.Sound() && Unused(s.born, self)
    ensures Evolves(s, Started(s, self))
    ensures forall id | s.Present(id) :: Started(s, self).Present(id) && id.pid != self
  {
    forall id | s.Present(id) ensures id in s.born {
      assert id == Identity(id.pid, s.table[id.pid].start);
    }
  }

  predicate Unused(born: set<Identity>, pid: Pid) {
    forall id | id in born :: id.pid != pid
  }

  /** The error the body raises: the container runs, but the reply or looking it up again failed. */
  function Crashed(env: BodyEnv): Option<string> {
    if env.halted then None
    else match env.reply
         case Broke(message) => Some(message)
         case Finished(_, _, _) => env.unloaded
  }

  /** The execution gets as far as its body. */
  predicate Dispatches(env: RunEnv) {
    !(env.budget.Some? && env.budget.value <= 0) && env.snapshot.None?
  }

  /** The deadline is over before the start or passes during the run. */
  predicate Expires(env: RunEnv) {
    env.budget.Some? && (env.budget.value <= 0 || env.expires)
  }

  /** The report made of an exception. */
  function Failure(message: string): Report {
    var limit := ResourceReason(message);
    Report(Unsuccessful, if limit.Some? then limit.value else Unknown, None, "", message, [])
  }

  /** No success is reported for an execution that ran into a limit. */
  function Finalise(r: Report): Report {
    if IsLimit(r.reason) && r.status == Succeeded then r.(status := Unsuccessful) else r
  }

  lemma FailureSettles(message: string)
    ensures Settled(Failure(message))
    ensures ResourceReason(message).Some? ==> ReportsError(Failure(message))
  {
    hide ResourceReason;
  }

  /** What a call answers when no cleanup fails and the deadline does not expire. */
  ghost predicate Answers(env: BodyEnv, running: bool, o: Outcome) {
    var crash := Crashed(Seen(env, running));
    || o == Raised(NOT_DESTROYED)
    || if crash.Some? then
         if ResourceReason(crash.value).None? then o == Raised(BROKEN + crash.value)
         else o == Reported(Failure(BROKEN + crash.value))
       else
         || (o.Reported? && ReportsRun(env, running, o.report))
         || (&& env.collected.CollectionRaised?
             && var message := env.collected.message;
                o == if ResourceReason(message).None? then Raised(message) else Reported(Failure(message)))
  }

  lemma AnswersFrom(env: BodyEnv, running: bool, inner: Outcome, o: Outcome)
    requires var crash := Crashed(Seen(env, running));
             if crash.Some? then inner == Raised(BROKEN + crash.value)
             else inner.Reported? || env.collected == CollectionRaised(inner.message)
    requires inner.Reported? ==> ReportsRun(env, running, Finalise(inner.report))
    requires o.Reported? ==>
               if inner.Reported? then o.report == Finalise(inner.report)
               else o.report == Failure(inner.message) && ResourceReason(inner.message).Some?
    requires o.Raised? ==> o == Raised(NOT_DESTROYED) || (o == inner && ResourceReason(inner.message).None?)
    ensures Answers(env, running, o)
  {
    var crash := Crashed(Seen(env, running));
    if crash.Some? {
      ReasonOfCrash(crash.value);
    }
    hide ResourceReason, ReportsRun, Failure, Finalise, Crashed;
  }

  /** What holds of every report that leaves the engine. */
  predicate Settled(r: Report) {
    && (r.status == Succeeded ==> r.reason == Completed)
    && (r.status == TimedOut ==> r.reason == LimitWallClock && r.files == [] && r.exitCode.None?)
    && (r.reason !in {Completed, Ended, Stopped, Unknown} ==> r.status != Succeeded)
  }

  /** The body can report at all, and reports as it should. */
  ghost predicate Reports(env: BodyEnv, r: Report) {
    && env.preparation.None?
    && ((env.reply.Finished? && env.unloaded.None?) || env.halted)
    && Judged(env, r)
  }

  /** What the body reports: the classification, then what collection and clipping make of it. */
  ghost predicate Judged(env: BodyEnv, r: Report)
    requires env.reply.Finished? || env.halted
  {
    var c := Classify(env);
    var collects := c.status == Succeeded || c.status == Unsuccessful;
    && r.status == c.status && r.exitCode == c.exitCode && r.stdout == c.stdout
    && (collects ==> env.collected.Collection? && r.files == env.collected.files)
    && (collects ==> r.stderr == Noted(c.stderr, env.collected.truncated))
    && (!collects ==> r.files == [] && r.stderr == c.stderr)
    && (r.reason == LimitOutput <==>
          || Contains(r.stdout, MARKER) || Contains(r.stderr, MARKER)
          || (collects && c.reason == Completed && env.collected.truncated))
    && (r.reason != LimitOutput ==> r.reason == c.reason)
    && (Contains(c.stderr, MARKER) ==> Contains(r.stderr, MARKER))
  }

  // What a run comes to, by what the daemon and the program did.

  /** Nothing is reported of a program whose container stopped. */
  predicate ReportsStop(r: Report) {
    r.status == Killed && r.reason == Stopped && r.exitCode == None && r.stdout == "" && r.files == []
  }

  /** The program ran to its end: what it exited with, wrote and left decides. */
  ghost predicate ReportsEnd(
    code: int, out: string, err: string, pidsHit: bool, files: seq<nat>, partial: bool, r: Report)
  {
    var clipped := Contains(out, MARKER) || Contains(err, MARKER);
    var named := ResourceReason(err);
    var clean := code == 0 && !pidsHit && named == None;
    && r.exitCode == Some(code) && r.stdout == out && r.files == files
    && (if !partial then r.stderr == err else err <= r.stderr && r.stderr != err)
    && (r.status == Succeeded <==> clean && !clipped && !partial)
    && (r.status == Unsuccessful <==> r.status != Succeeded)
    && (r.reason == Completed <==> r.status == Succeeded)
    && (r.reason == LimitOutput <==> clipped || (clean && partial))
    && (r.reason == LimitPids <==> !clipped && (pidsHit || named == Some(LimitPids)))
    && (r.reason == LimitMemory <==> !clipped && !pidsHit && named == Some(LimitMemory))
    && (r.reason == LimitScratch <==> !clipped && !pidsHit && named == Some(LimitScratch))
    && (r.reason == Ended <==> !clipped && !pidsHit && named == None && code != 0)
  }

  /**
   * The report of an undisturbed run. A program is reported as killed exactly when it ran out of memory,
   * or its container is down and the daemon has no exit code 0 of it.
   */
  ghost predicate ReportsRun(env: BodyEnv, running: bool, r: Report) {
    var down := env.halted || !running;
    match env.reply
    case Broke(_) => down && ReportsStop(r)
    case Finished(code, out, err) =>
      if env.unloaded.Some? then down && ReportsStop(r)
      else if env.oom then
        && r.status == Killed && r.exitCode == Some(code) && r.stdout == out && r.stderr == OOM_NOTE && r.files == []
        && r.reason == if Contains(out, MARKER) then LimitOutput else LimitMemory
      else if code != 0 && down then ReportsStop(r)
      else
        && env.collected.Collection?
        && ReportsEnd(code, out, err, env.pidsHit, env.collected.files, env.collected.truncated, r)
  }

  /** The report of an error that names a limit. */
  ghost predicate ReportsError(r: Report) {
    && r.status == Unsuccessful && r.exitCode == None && r.stdout == "" && r.files == []
    && ResourceReason(r.stderr) == Some(r.reason)
  }

  /** The note on a partial collection is not taken for clipped text either. */
  lemma NotedIsUnmarked(errors: string, partial: bool)
    ensures Contains(Noted(errors, partial), MARKER) <==> Contains(errors, MARKER)
    ensures partial ==> errors <= Noted(errors, partial) && Noted(errors, partial) != errors
  {
    if partial {
      var note := "\n" + PARTIAL_NOTE;
      Unmarked(PARTIAL_NOTE);
      Unmarked("");
      ContainsPrefix(errors, note);
      if errors != "" && Contains(errors + note, MARKER) {
        var all := errors + note;
        var i :| 0 <= i <= |all| && OccursAt(all, MARKER, i);
        assert all[i..i + |MARKER|][0] == all[i] == '[';
        assert i < |errors| by { assert all[|errors|..] == note && '[' !in note; }
        if i + |MARKER| > |errors| {
          MarkerHasNoBreak(all, i, |errors|);
        } else {
          assert all[i..i + |MARKER|] == errors[i..i + |MARKER|];
          assert OccursAt(errors, MARKER, i);
        }
      }
    }
  }

  lemma MarkerHasNoBreak(text: string, i: nat, k: nat)
    requires OccursAt(text, MARKER, i) && i <= k < i + |MARKER|
    ensures text[k] != '\n'
  {
    assert text[i..i + |MARKER|][k - i] == text[k];
    assert '\n' !in MARKER;
  }

  lemma RunDecides(env: BodyEnv, running: bool, r: Report)
    requires Reports(Seen(env, running), r)
    ensures ReportsRun(env, running, Finalise(r))
  {
    NotesAreUnmarked();
    Unmarked("");
    if env.reply.Finished? && env.collected.Collection? {
      NotedIsUnmarked(env.reply.stderr, env.collected.truncated);
    }
    hide Contains, ResourceReason, Noted;
  }

  /** A success that ran into no limit was simply completed; only a deadline times out. */
  lemma ReportsSettle(env: BodyEnv, r: Report)
    requires Reports(env, r)
    ensures Settled(Finalise(r)) && Finalise(r).status != TimedOut
  {
  }

  /**
   * A clipped stream ends as an output limit, unless its text did not make it into the report: a
   * stopped container reports neither stream, one that ran out of memory not its stderr.
   */
  lemma ClippedEndsAsOutputLimit(env: BodyEnv, r: Report)
    requires Reports(env, r) && env.reply.Finished?
    ensures var c := Classify(env); var out, err := env.reply.stdout, env.reply.stderr;
            && (c.status == Succeeded || c.status == Unsuccessful ==>
                  (Contains(out, MARKER) || Contains(err, MARKER) ==> Finalise(r).reason == LimitOutput))
            && (c.reason == LimitMemory && c.status == Killed ==>
                  (Finalise(r).reason == LimitOutput <==> Contains(out, MARKER)))
            && (c.reason == Stopped ==> Finalise(r).reason == Stopped)
  {
    NotesAreUnmarked();
    hide Contains, ResourceReason;
    assert !Contains("", MARKER) by { Unmarked(""); }
  }

  /** An out-of-memory kill whose stderr alone was clipped: nothing of the report says so. */
  lemma ClippedErrorIsLost() returns (whole: string, env: BodyEnv, r: Report)
    ensures |whole| > MAX_STREAM_CHARS && env.reply == Finished(137, "", Clip(whole)) && Contains(Clip(whole), MARKER)
    ensures Reports(env, r) && Finalise(r).reason == LimitMemory
  {
    whole := seq(MAX_STREAM_CHARS + 1, _ => 'x');
    ClipTells(whole);
    NotesAreUnmarked();
    assert !Contains("", MARKER) by { Unmarked(""); }
    hide Contains, Clip, ResourceReason;
    env := BodyEnv(None, Finished(137, "", Clip(whole)), false, None, true, false, Collection([], false));
    r := Report(Killed, LimitMemory, Some(137), "", OOM_NOTE, []);
    assert Classify(env) == r;
  }

  /** The engine's own notes are not taken for clipped text. */
  lemma NotesAreUnmarked()
    ensures !Contains(CANCEL_NOTE, MARKER) && !Contains(STOP_NOTE, MARKER) && !Contains(OOM_NOTE, MARKER)
  {
    CancelIsUnmarked();
    StopIsUnmarked();
    OutOfMemoryIsUnmarked();
    hide Contains;
  }

  lemma CancelIsUnmarked()
    ensures !Contains(CANCEL_NOTE, MARKER)
  {
    hide Contains;
    Unmarked(CANCEL_NOTE);
  }

  lemma StopIsUnmarked()
    ensures !Contains(STOP_NOTE, MARKER)
  {
    hide Contains;
    Unmarked(STOP_NOTE);
  }

  lemma OutOfMemoryIsUnmarked()
    ensures !Contains(OOM_NOTE, MARKER)
  {
    hide Contains;
    Unmarked(OOM_NOTE);
  }

  /** A text without an opening bracket is not taken for a clipped one. */
  lemma Unmarked(text: string)
    requires '[' !in text
    ensures !Contains(text, MARKER)
  {
    forall i | 0 <= i <= |text| ensures !OccursAt(text, MARKER, i) {
      if i + |MARKER| <= |text| {
        assert text[i..i + |MARKER|][0] == text[i] && MARKER[0] == '[';
      }
    }
  }
}
