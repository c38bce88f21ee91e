/** The engine's calls: each under its session's lock, all on one cache, which other threads use meanwhile. */
module ExecutionEngine {
  import opened Options
  import opened ExecutionReports
  import opened ResultCaches
  import opened ExecutionFlow

  /** The cached report of a key. */
  function Lookup(results: Dict<Report>, key: Key): Option<Report> {
    if results == [] then None
    else if results[0].0 == key then Some(results[0].1)
    else Lookup(results[1..], key)
  }

  lemma {:induction false} LookupFinds(results: Dict<Report>, key: Key)
    ensures Lookup(results, key).Some? ==> (key, Lookup(results, key).value) in results
    ensures Lookup(results, key).None? ==> key !in Keys(results)
  {
    KeysOf(results);
    if results != [] && results[0].0 != key {
      LookupFinds(results[1..], key);
      assert forall e | e in results[1..] :: e in results;
    }
  }

  /** Eviction only ever drops entries. */
  lemma SurvivorsAreEntries(results: Dict<Report>, stale: nat)
    ensures forall e | e in Survivors(results, stale) :: e in results
  {
    var n :| 0 <= n <= |results| && Survivors(results, stale) == results[n..];
  }

  class Engine {
    const cache: ResultCache
    ghost var produced: seq<(Key, Report)>     // every report an execution came to, with its key

    /** Whatever is cached was produced under its own key, was not killed, and is settled. */
    ghost predicate Valid()
      reads this, cache
    {
      cache.Valid() && forall e | e in cache.results :: e in produced && e.1.status != Killed && Settled(e.1)
    }

    constructor ()
      ensures Valid() && fresh(cache)
    {
      cache := new ResultCache();
      produced := [];
    }

    /** Caches what one execution came to. */
    method Remember(key: Key, report: Report)
      requires Valid() && Settled(report) && report.status != Killed
      modifies this, cache
      ensures Valid() && produced == old(produced) + [(key, report)]
      ensures Takes(old(cache.State()), Remembered(key, report), cache.State())
    {
      produced := produced + [(key, report)];
      PutEntries(cache.results, key, report);
      ghost var put := Put(cache.results, key, report);
      SurvivorsAreEntries(put, Stale(Put(cache.sizes, key, ResultSize(report)), Keys(put)));
      cache.Remember(key, report);
    }

    /** The part of `close` that forgets results. */
    method Forget(session: Id, generation: Generation)
      requires Valid()
      modifies cache
      ensures Valid() && Takes(old(cache.State()), Closed(session, generation), cache.State())
    {
      OpenKeys(cache.results, session, generation);
      hide Open, Agrees, Stale, Retained, Keys, Covers;
      cache.Close(session, generation);
    }

    /**
     * Other threads, while an execution of `session` runs: executions of other sessions remember their
     * results, and any session may be closed, this one too.
     */
    method Meanwhile(session: Id, steps: seq<Step>) returns (ghost caches: seq<Cache>)
      requires Valid() && ByOthers(steps, session)
      modifies this, cache
      ensures Valid() && old(produced) <= produced
      ensures Reaches(caches, steps) && |caches| == |steps| + 1 && caches[0] == old(cache.State()) && caches[|steps|] == cache.State()
    {
      caches := [cache.State()];
      assert Reaches(caches, steps[..0]);
      hide Takes, Settled, Reaches, Valid;
      for i := 0 to |steps|
        invariant Valid() && old(produced) <= produced
        invariant Reaches(caches, steps[..i]) && |caches| == i + 1 && caches[0] == old(cache.State()) && caches[i] == cache.State()
      {
        assert steps[i] in steps;
        Take(steps[i]);
        ReachesOn(caches, steps[..i], steps[i], cache.State());
        assert steps[..i + 1] == steps[..i] + [steps[i]];
        caches := caches + [cache.State()];
      }
      assert steps[..|steps|] == steps;
    }

    /** One step of another thread. */
    method Take(step: Step)
      requires Valid() && (step.Remembered? ==> Settled(step.report) && step.report.status != Killed)
      modifies this, cache
      ensures Valid() && old(produced) <= produced
      ensures Takes(old(cache.State()), step, cache.State())
    {
      match step
      case Closed(session, generation) => Forget(session, generation);
      case Remembered(key, report) => Remember(key, report);
    }

    /**
     * Executes in an ensured container, or returns what the key came to before. `others` is what other
     * threads do to the cache during the execution, by way of `caches`.
     */
    method ExecuteExisting(key: Key, container: Sandbox?, env: RunEnv, others: seq<Step>)
      returns (o: Outcome, ghost caches: seq<Cache>)
      requires Valid() && (container != null ==> container.Valid()) && ByOthers(others, key.session)
      modifies this, cache, container
      ensures Valid() && (container != null ==> container.Valid())
      ensures Lookup(old(cache.results), key).None? && container != null ==>
                && Reaches(caches, others) && caches[0] == old(cache.State())
                && if o.Reported? && o.report.status != Killed
                   then Takes(caches[|others|], Remembered(key, o.report), cache.State())
                   else cache.State() == caches[|others|]
      ensures Lookup(old(cache.results), key).Some? ==>
                && o == Reported(Lookup(old(cache.results), key).value)
                && cache.State() == old(cache.State()) && produced == old(produced)
                && (container != null ==> container.running == old(container.running) && container.processes == old(container.processes))
      ensures Lookup(old(cache.results), key).None? && container == null ==>
                o.Raised? && cache.State() == old(cache.State()) && produced == old(produced)
      ensures o.Reported? ==> (key, o.report) in produced && Settled(o.report)
      ensures container != null && container.dependable && Lookup(old(cache.results), key).None? ==>
                (old(container.Clean()) || env.snapshot.None?) ==> container.Clean()
    {
      caches := [];
      var cached := Lookup(cache.results, key);
      LookupFinds(cache.results, key);
      if cached.Some? {
        return Reported(cached.value), caches;
      }
      if container == null {
        return Raised("sandbox session must be ensured before execution"), caches;
      }
      o := container.ExecuteUnlocked(env);
      caches := Meanwhile(key.session, others);
      if o.Reported? {
        if o.report.status == Killed {
          produced := produced + [(key, o.report)];
        } else {
          Remember(key, o.report);
        }
      }
    }
  }

  /** What executions of other sessions remember, each by the same rule, and closes of any session. */
  predicate ByOthers(steps: seq<Step>, session: Id) {
    && OfOthers(steps, session)
    && forall step | step in steps :: step.Remembered? ==> Settled(step.report) && step.report.status != Killed
  }

  lemma ReachesOn(caches: seq<Cache>, steps: seq<Step>, step: Step, next: Cache)
    requires Reaches(caches, steps) && Takes(caches[|steps|], step, next)
    ensures Reaches(caches + [next], steps + [step])
  {
    hide Takes;
    var c, s := caches + [next], steps + [step];
    forall i | 0 <= i < |s| ensures Takes(c[i], s[i], c[i + 1]) {
      if i < |steps| { assert c[i] == caches[i] && c[i + 1] == caches[i + 1]; }
    }
  }
}
