/** The runner's cache of finished executions: two bounds, oldest-first eviction, and `close`. */
module ResultCaches {
  import opened ExecutionReports
  import opened Sequences

  const MAX_CACHED_RESULTS: nat := 64
  const MAX_CACHED_RESULT_BYTES: nat := 128 * 1024 * 1024

  type Id(==)

  datatype Key = Key(session: Id, generation: nat, execution: Id)

  /** A Python dictionary: its entries in insertion order. */
  type Dict<V> = seq<(Key, V)>

  predicate Distinct<V>(d: Dict<V>) {
    forall i, j | 0 <= i < j < |d| :: d[i].0 != d[j].0
  }

  function Keys<V>(d: Dict<V>): set<Key> {
    set i | 0 <= i < |d| :: d[i].0
  }

  /** `d[key] = value`: an existing key keeps its place. */
  function Put<V>(d: Dict<V>, key: Key, value: V): Dict<V> {
    if d == [] then [(key, value)]
    else if d[0].0 == key then [(key, value)] + d[1..]
    else [d[0]] + Put(d[1..], key, value)
  }

  /** `d.pop(key, None)`. */
  function Pop<V>(d: Dict<V>, key: Key): Dict<V> {
    if d == [] then []
    else if d[0].0 == key then d[1..]
    else [d[0]] + Pop(d[1..], key)
  }

  datatype Generation = Any | Only(generation: nat)

  /** `close` covers this key. */
  predicate Covers(session: Id, generation: Generation, key: Key) {
    key.session == session && (generation.Any? || generation.generation == key.generation)
  }

  /** The entries `close` leaves. */
  function Open<V>(d: Dict<V>, session: Id, generation: Generation): Dict<V> {
    if d == [] then []
    else (if Covers(session, generation, d[0].0) then [] else [d[0]]) + Open(d[1..], session, generation)
  }

  /** Bytes the accounting holds for keys outside `live`. */
  function Stale(sizes: Dict<nat>, live: set<Key>): nat {
    if sizes == [] then 0
    else (if sizes[0].0 in live then 0 else sizes[0].1) + Stale(sizes[1..], live)
  }

  function Accounted(sizes: Dict<nat>): nat {
    Stale(sizes, {})
  }

  /** Bytes the cached results really retain. */
  function Retained(results: Dict<Report>): nat {
    if results == [] then 0 else ResultSize(results[0].1) + Retained(results[1..])
  }

  /** The lengths of everything the cached results hold: both streams and every collected file. */
  function Lengths(results: Dict<Report>): seq<nat> {
    if results == [] then []
    else
      var r := results[0].1;
      [|r.stdout|, |r.stderr|] + r.files + Lengths(results[1..])
  }

  /** The retained bytes are those of the contents, none left out and none counted twice. */
  lemma {:induction false} RetainedIsContents(results: Dict<Report>)
    ensures Retained(results) == Sum(Lengths(results))
  {
    if results != [] {
      var r := results[0].1;
      RetainedIsContents(results[1..]);
      SumAppend([|r.stdout|, |r.stderr|] + r.files, Lengths(results[1..]));
      SumAppend([|r.stdout|, |r.stderr|], r.files);
      SumAppend([|r.stdout|], [|r.stderr|]);
      SumOne(|r.stdout|);
      SumOne(|r.stderr|);
      assert [|r.stdout|] + [|r.stderr|] == [|r.stdout|, |r.stderr|];
    }
  }

  /** The two bounds, over the contents. */
  lemma FitsMeans(results: Dict<Report>, stale: nat)
    ensures Fits(results, stale) <==> |results| <= 64 && stale + Sum(Lengths(results)) <= 128 * 1024 * 1024
  {
    RetainedIsContents(results);
  }

  /** Nothing of a cached report is missing from the contents. */
  lemma {:induction false} LengthsHold(results: Dict<Report>, i: nat)
    requires i < |results|
    ensures var r := results[i].1;
            |r.stdout| in Lengths(results) && |r.stderr| in Lengths(results)
            && forall n | n in r.files :: n in Lengths(results)
  {
    var first := results[0].1;
    var here := [|first.stdout|, |first.stderr|] + first.files;
    assert here[0] == |first.stdout| && here[1] == |first.stderr| && forall k | 0 <= k < |first.files| :: here[k + 2] == first.files[k];
    assert Lengths(results) == here + Lengths(results[1..]);
    if i > 0 {
      LengthsHold(results[1..], i - 1);
      assert results[1..][i - 1] == results[i];
    }
  }

  lemma {:induction false} KeysOf<V>(d: Dict<V>)
    ensures d != [] ==> Keys(d) == {d[0].0} + Keys(d[1..])
    ensures Distinct(d) && d != [] ==> d[0].0 !in Keys(d[1..]) && Distinct(d[1..])
  {
    if d != [] {
      forall i | 0 <= i < |d| ensures d[i].0 in {d[0].0} + Keys(d[1..]) {
        if i > 0 { assert d[i] == d[1..][i - 1]; }
      }
      forall k | k in Keys(d[1..]) ensures k in Keys(d) {
        var i :| 0 <= i < |d| - 1 && d[1..][i].0 == k;
        assert d[i + 1].0 == k;
      }
    }
  }

  lemma {:induction false} PutKeys<V>(d: Dict<V>, key: Key, value: V)
    requires Distinct(d)
    ensures Distinct(Put(d, key, value)) && Keys(Put(d, key, value)) == Keys(d) + {key}
    ensures key !in Keys(d) ==> Put(d, key, value) == d + [(key, value)]
  {
    var p := Put(d, key, value);
    KeysOf(d);
    KeysOf(p);
    if d != [] {
      if d[0].0 == key {
        assert p[1..] == d[1..];
      } else {
        PutKeys(d[1..], key, value);
        assert p[1..] == Put(d[1..], key, value);
      }
    }
  }

  /** Assigning to a key that is there moves nothing: it stays as old as it was. */
  lemma {:induction false} PutKeepsPlace<V>(d: Dict<V>, key: Key, value: V)
    requires Distinct(d) && key in Keys(d)
    ensures |Put(d, key, value)| == |d|
    ensures forall i | 0 <= i < |d| :: Put(d, key, value)[i].0 == d[i].0
  {
    KeysOf(d);
    if d[0].0 != key {
      PutKeepsPlace(d[1..], key, value);
    }
  }

  lemma {:induction false} PopKeys<V>(d: Dict<V>, key: Key)
    requires Distinct(d)
    ensures Distinct(Pop(d, key)) && Keys(Pop(d, key)) == Keys(d) - {key}
  {
    var p := Pop(d, key);
    KeysOf(d);
    KeysOf(p);
    if d != [] && d[0].0 != key {
      PopKeys(d[1..], key);
      assert p[1..] == Pop(d[1..], key);
    }
  }

  lemma {:induction false} OpenKeys<V>(d: Dict<V>, session: Id, generation: Generation)
    requires Distinct(d)
    ensures var o := Open(d, session, generation);
            && Distinct(o) && (forall e | e in o :: e in d)
            && Keys(o) == set k | k in Keys(d) && !Covers(session, generation, k)
  {
    if d != [] {
      KeysOf(d);
      OpenKeys(d[1..], session, generation);
      var rest := Open(d[1..], session, generation);
      assert forall e | e in d[1..] :: e in d;
      hide Open, Covers;
      if Covers(session, generation, d[0].0) {
        assert Open(d, session, generation) == rest by { OpenNext(d, session, generation); }
      } else {
        assert Open(d, session, generation) == [d[0]] + rest by { OpenNext(d, session, generation); }
        DistinctCons(d[0], rest);
      }
    }
  }

  /** What is left keeps its order, and so its age. */
  lemma {:induction false} OpenAppend<V>(a: Dict<V>, b: Dict<V>, session: Id, generation: Generation)
    ensures Open(a + b, session, generation) == Open(a, session, generation) + Open(b, session, generation)
  {
    if a == [] {
      assert a + b == b;
    } else {
      hide *;
      OpenAppend(a[1..], b, session, generation);
      OpenNext(a, session, generation);
      TailOfAppend(a, b);
      OpenNext(a + b, session, generation);
      Associative(if Covers(session, generation, a[0].0) then [] else [a[0]],
                  Open(a[1..], session, generation), Open(b, session, generation));
    }
  }

  /** `close` forgets the results of its session, of one generation or of all, and no other. */
  lemma CloseForgets(results: Dict<Report>, session: Id, generation: nat, key: Key)
    requires Distinct(results)
    ensures key in Keys(Open(results, session, Any)) <==> key in Keys(results) && key.session != session
    ensures key in Keys(Open(results, session, Only(generation)))
            <==> key in Keys(results) && !(key.session == session && key.generation == generation)
  {
    OpenKeys(results, session, Any);
    OpenKeys(results, session, Only(generation));
  }

  lemma OpenNext<V>(d: Dict<V>, session: Id, generation: Generation)
    requires d != []
    ensures Open(d, session, generation)
            == (if Covers(session, generation, d[0].0) then [] else [d[0]]) + Open(d[1..], session, generation)
  {
  }

  lemma DistinctCons<V>(e: (Key, V), d: Dict<V>)
    requires Distinct(d) && e.0 !in Keys(d)
    ensures Distinct([e] + d) && Keys([e] + d) == {e.0} + Keys(d)
  {
    var o := [e] + d;
    KeysOf(o);
    assert o[1..] == d;
    forall i, j | 0 <= i < j < |o| ensures o[i].0 != o[j].0 {
      assert o[j] == d[j - 1];
      if i == 0 { assert o[j].0 in Keys(d); } else { assert o[i] == d[i - 1]; }
    }
  }

  /** A key that becomes live takes its bytes out of the stale ones. */
  lemma {:induction false} StaleAdd(sizes: Dict<nat>, live: set<Key>, key: Key, size: nat)
    requires Distinct(sizes) && (key, size) in sizes && key !in live
    ensures Stale(sizes, live) == Stale(sizes, live + {key}) + size
  {
    KeysOf(sizes);
    if sizes[0].0 == key {
      var i :| 0 <= i < |sizes| && sizes[i] == (key, size);
      StaleWithout(sizes[1..], live, key);
    } else {
      StaleAdd(sizes[1..], live, key, size);
    }
  }

  lemma {:induction false} StaleWithout(sizes: Dict<nat>, live: set<Key>, key: Key)
    requires Distinct(sizes) && key !in Keys(sizes)
    ensures Stale(sizes, live) == Stale(sizes, live + {key})
  {
    KeysOf(sizes);
    if sizes != [] {
      StaleWithout(sizes[1..], live, key);
    }
  }

  /** Dropping a key from the accounting is counting it as live. */
  lemma {:induction false} StalePop(sizes: Dict<nat>, live: set<Key>, key: Key)
    requires Distinct(sizes)
    ensures Stale(Pop(sizes, key), live) == Stale(sizes, live + {key})
  {
    KeysOf(sizes);
    if sizes != [] {
      if sizes[0].0 == key {
        StaleWithout(sizes[1..], live, key);
      } else {
        StalePop(sizes[1..], live, key);
        assert Pop(sizes, key)[1..] == Pop(sizes[1..], key);
      }
    }
  }

  /** Every cached result has its size in the accounting; the accounting may hold more. */
  ghost predicate Agrees(results: Dict<Report>, sizes: Dict<nat>) {
    && Distinct(results) && Distinct(sizes)
    && forall e | e in results :: (e.0, ResultSize(e.1)) in sizes
  }

  /** The accounted bytes are the retained ones and the stale ones. */
  lemma {:induction false} AccountedSplits(results: Dict<Report>, sizes: Dict<nat>)
    requires Agrees(results, sizes)
    ensures Accounted(sizes) == Retained(results) + Stale(sizes, Keys(results))
  {
    KeysOf(results);
    if results == [] {
      assert Keys(results) == {};
    } else {
      var first, rest := results[0], results[1..];
      AccountedSplits(rest, sizes);
      StaleAdd(sizes, Keys(rest), first.0, ResultSize(first.1));
      assert Keys(rest) + {first.0} == Keys(results);
    }
  }

  /** Both bounds hold for what is kept, with `stale` bytes accounted for besides. */
  predicate Fits(results: Dict<Report>, stale: nat) {
    |results| <= MAX_CACHED_RESULTS && stale + Retained(results) <= MAX_CACHED_RESULT_BYTES
  }

  /** The longest suffix, in insertion order, that fits; nothing when the stale bytes alone do not. */
  function Survivors(results: Dict<Report>, stale: nat): (kept: Dict<Report>)
    ensures exists n | 0 <= n <= |results| ::
              && kept == results[n..]
              && (kept == [] || Fits(kept, stale))
              && forall m | 0 <= m < n :: !Fits(results[m..], stale)
  {
    if results == [] || Fits(results, stale) then
      assert results == results[0..];
      results
    else
      var kept := Survivors(results[1..], stale);
      var n :| 0 <= n <= |results| - 1 && kept == results[1..][n..]
               && (forall m | 0 <= m < n :: !Fits(results[1..][m..], stale));
      assert kept == results[n + 1..];
      assert forall m | 0 <= m < n + 1 :: !Fits(results[m..], stale) by {
        forall m | 0 <= m < n + 1 ensures !Fits(results[m..], stale) {
          if m > 0 { assert results[m..] == results[1..][m - 1..]; } else { assert results[0..] == results; }
        }
      }
      kept
  }

  /** Both dictionaries at one moment, and what the threads do to them, each in one step. */
  datatype Cache = Cache(results: Dict<Report>, sizes: Dict<nat>)

  datatype Step = Remembered(key: Key, report: Report) | Closed(session: Id, generation: Generation)

  ghost predicate Takes(a: Cache, step: Step, b: Cache) {
    && Agrees(b.results, b.sizes)
    && match step
       case Remembered(key, report) =>
         var r, s := Put(a.results, key, report), Put(a.sizes, key, ResultSize(report));
         b.results == Survivors(r, Stale(s, Keys(r))) && Stale(b.sizes, Keys(b.results)) == Stale(s, Keys(r))
       case Closed(session, generation) =>
         b.results == Open(a.results, session, generation) && b.sizes == a.sizes
  }

  /** The engine's two dictionaries. */
  class ResultCache {
    var results: Dict<Report>
    var sizes: Dict<nat>

    ghost function State(): Cache
      reads this
    {
      Cache(results, sizes)
    }

    ghost predicate Valid()
      reads this
    {
      Agrees(results, sizes)
    }

    constructor ()
      ensures Valid() && results == [] && sizes == []
    {
      results, sizes := [], [];
    }

    /** `_remember`: caches a result and evicts oldest first while either bound is exceeded. */
    method Remember(key: Key, result: Report)
      requires Valid()
      modifies this
      ensures Valid()
      ensures Takes(old(State()), Remembered(key, result), State())
      ensures |results| <= 64 && Sum(Lengths(results)) <= 128 * 1024 * 1024
    {
      hide Lengths, Sum, Put, Distinct, Agrees;
      PutAgrees(results, sizes, key, result);
      results := Put(results, key, result);
      sizes := Put(sizes, key, ResultSize(result));
      ghost var stale, all := Stale(sizes, Keys(results)), results;
      while results != [] && (|results| > MAX_CACHED_RESULTS || Accounted(sizes) > MAX_CACHED_RESULT_BYTES)
        invariant Valid() && Stale(sizes, Keys(results)) == stale
        invariant Survivors(all, stale) == Survivors(results, stale)
        decreases |results|
      {
        AccountedSplits(results, sizes);
        var oldest := results[0].0;
        EvictAgrees(results, sizes);
        results := results[1..];
        sizes := Pop(sizes, oldest);
      }
      AccountedSplits(results, sizes);
      RetainedIsContents(results);
    }

    /** `close`: forgets the session's results, of one generation or of all; not their sizes. */
    method Close(session: Id, generation: Generation)
      requires Valid()
      modifies this`results
      ensures Valid()
      ensures Takes(old(State()), Closed(session, generation), State())
      ensures Stale(sizes, Keys(results)) + Retained(results) == Stale(sizes, Keys(old(results))) + Retained(old(results))
    {
      OpenKeys(results, session, generation);
      AccountedSplits(results, sizes);
      results := Open(results, session, generation);
      AccountedSplits(results, sizes);
    }
  }

  lemma PutAgrees(results: Dict<Report>, sizes: Dict<nat>, key: Key, result: Report)
    requires Agrees(results, sizes)
    ensures Agrees(Put(results, key, result), Put(sizes, key, ResultSize(result)))
  {
    PutKeys(results, key, result);
    PutKeys(sizes, key, ResultSize(result));
    hide Put, Keys, Distinct, ResultSize;
    forall e | e in Put(results, key, result) ensures (e.0, ResultSize(e.1)) in Put(sizes, key, ResultSize(result)) {
      PutEntry(results, key, result, e);
      PutEntry(sizes, key, ResultSize(result), (e.0, ResultSize(e.1)));
    }
  }

  lemma PutEntry<V>(d: Dict<V>, key: Key, value: V, e: (Key, V))
    requires Distinct(d)
    ensures e in Put(d, key, value) <==> e == (key, value) || (e in d && e.0 != key)
  {
    PutEntries(d, key, value);
  }

  /** What a dictionary holds after an assignment. */
  lemma {:induction false} PutEntries<V>(d: Dict<V>, key: Key, value: V)
    requires Distinct(d)
    ensures forall e :: e in Put(d, key, value) <==> e == (key, value) || (e in d && e.0 != key)
  {
    KeysOf(d);
    if d != [] {
      PutEntries(d[1..], key, value);
      forall e | e in d[1..] ensures e.0 in Keys(d[1..]) {}
      assert d == [d[0]] + d[1..];
    }
  }

  lemma {:induction false} PopEntries<V>(d: Dict<V>, key: Key)
    requires Distinct(d)
    ensures forall e :: e in Pop(d, key) <==> e in d && e.0 != key
  {
    KeysOf(d);
    if d != [] {
      PopEntries(d[1..], key);
      forall e | e in d[1..] ensures e.0 in Keys(d[1..]) {}
      assert d == [d[0]] + d[1..];
    }
  }

  lemma EvictAgrees(results: Dict<Report>, sizes: Dict<nat>)
    requires Agrees(results, sizes) && results != []
    ensures var after := Pop(sizes, results[0].0);
            && Agrees(results[1..], after)
            && Stale(after, Keys(results[1..])) == Stale(sizes, Keys(results))
  {
    var key := results[0].0;
    KeysOf(results);
    PopKeys(sizes, key);
    PopEntries(sizes, key);
    StalePop(sizes, Keys(results[1..]), key);
    assert Keys(results[1..]) + {key} == Keys(results);
    forall e | e in results[1..] ensures e.0 != key && e in results {
      assert e.0 in Keys(results[1..]);
    }
  }

  lemma {:induction false} SurvivorsOfLast(results: Dict<Report>, stale: nat)
    requires results != []
    ensures var last := results[|results| - 1];
            last in Survivors(results, stale) <==> stale + ResultSize(last.1) <= MAX_CACHED_RESULT_BYTES
  {
    var last := results[|results| - 1];
    if Fits(results, stale) {
      LastRetained(results);
    } else if |results| == 1 {
      assert Retained(results) == ResultSize(last.1) + Retained([]);
      assert Survivors(results[1..], stale) == [];
    } else {
      SurvivorsOfLast(results[1..], stale);
    }
  }

  lemma {:induction false} LastRetained(results: Dict<Report>)
    requires results != []
    ensures ResultSize(results[|results| - 1].1) <= Retained(results)
  {
    if |results| > 1 {
      LastRetained(results[1..]);
    }
  }

  /**
   * A new result survives its own insertion exactly when it fits beside the stale bytes. Once the
   * stale bytes alone exceed the cap, the cache keeps nothing.
   */
  lemma NewestSurvives(results: Dict<Report>, sizes: Dict<nat>, key: Key, result: Report)
    requires Agrees(results, sizes) && key !in Keys(results)
    ensures var r, s := Put(results, key, result), Put(sizes, key, ResultSize(result));
            var stale := Stale(s, Keys(r));
            && ((key, result) in Survivors(r, stale) <==> stale + ResultSize(result) <= MAX_CACHED_RESULT_BYTES)
            && (stale > MAX_CACHED_RESULT_BYTES ==> Survivors(r, stale) == [])
  {
    PutKeys(results, key, result);
    var r, s := Put(results, key, result), Put(sizes, key, ResultSize(result));
    SurvivorsOfLast(r, Stale(s, Keys(r)));
  }

  /**
   * The accounting holds one size per cached result, and no other, until a `close` that covers a
   * cached result: exactly then it is left with orphans.
   */
  lemma CloseLeavesOrphans(results: Dict<Report>, sizes: Dict<nat>, session: Id, generation: Generation)
    requires Agrees(results, sizes) && Keys(results) == Keys(sizes)
    ensures Keys(Open(results, session, generation)) == Keys(sizes)
            <==> forall k | k in Keys(results) :: !Covers(session, generation, k)
  {
    OpenKeys(results, session, generation);
  }

  /** Steps of other executions, and closes of any session, between two looks at the cache. */
  ghost predicate Reaches(caches: seq<Cache>, steps: seq<Step>) {
    && |caches| == |steps| + 1 && Agrees(caches[0].results, caches[0].sizes)
    && forall i | 0 <= i < |steps| :: Takes(caches[i], steps[i], caches[i + 1])
  }

  /** None of the steps remembers a result of this session, whose lock another execution holds. */
  predicate OfOthers(steps: seq<Step>, session: Id) {
    forall step | step in steps :: step.Remembered? ==> step.key.session != session
  }

  lemma StepLeavesUncached(a: Cache, step: Step, b: Cache, key: Key)
    requires Agrees(a.results, a.sizes) && Takes(a, step, b)
    requires key !in Keys(a.results) && (step.Remembered? ==> step.key != key)
    ensures key !in Keys(b.results)
  {
    match step
    case Remembered(k, report) =>
      PutKeys(a.results, k, report);
      var r, s := Put(a.results, k, report), Put(a.sizes, k, ResultSize(report));
      assert b.results == Survivors(r, Stale(s, Keys(r)));
      hide Put, Stale, Agrees;
      SurvivorKeys(r, Stale(s, Keys(r)));
    case Closed(session, generation) =>
      OpenKeys(a.results, session, generation);
      hide Open, Agrees;
  }

  lemma SurvivorKeys(results: Dict<Report>, stale: nat)
    ensures Keys(Survivors(results, stale)) <= Keys(results)
  {
    var n :| 0 <= n <= |results| && Survivors(results, stale) == results[n..];
    hide Survivors;
    forall i | 0 <= i < |results[n..]| ensures results[n..][i].0 in Keys(results) {
      assert results[n..][i] == results[n + i];
    }
  }

  lemma {:induction false} StaysUncached(caches: seq<Cache>, steps: seq<Step>, key: Key, k: nat)
    requires Reaches(caches, steps) && OfOthers(steps, key.session) && k <= |steps| && key !in Keys(caches[0].results)
    ensures key !in Keys(caches[k].results) && Agrees(caches[k].results, caches[k].sizes)
  {
    if k > 0 {
      var i := k - 1;
      StaysUncached(caches, steps, key, i);
      assert Takes(caches[i], steps[i], caches[i + 1]);
      assert steps[i] in steps;
      hide Takes, Agrees, Keys;
      StepLeavesUncached(caches[i], steps[i], caches[k], key);
    }
  }

  /**
   * A result remembered after an execution that began without one, whatever happened to the cache
   * meanwhile: it is there exactly if it fits beside the stale bytes. A `close` of its session in
   * between makes no difference: it did not forget the result, and a later call is answered with it.
   */
  lemma RememberedAnyway(caches: seq<Cache>, steps: seq<Step>, key: Key, report: Report, last: Cache)
    requires Reaches(caches, steps) && OfOthers(steps, key.session) && key !in Keys(caches[0].results)
    requires Takes(caches[|steps|], Remembered(key, report), last)
    ensures (key, report) in last.results
            <==> Stale(last.sizes, Keys(last.results)) + ResultSize(report) <= MAX_CACHED_RESULT_BYTES
  {
    StaysUncached(caches, steps, key, |steps|);
    var met := caches[|steps|];
    NewestSurvives(met.results, met.sizes, key, report);
  }

  lemma FirstRemembered(key: Key, report: Report)
    requires ResultSize(report) <= MAX_CACHED_RESULT_BYTES
    ensures Takes(Cache([], []), Remembered(key, report), Cache([(key, report)], [(key, ResultSize(report))]))
  {
    var r, s: Dict<nat> := [(key, report)], [(key, ResultSize(report))];
    KeysOf(r);
    assert Stale(s, Keys(r)) == Stale(s[1..], Keys(r)) == 0;
    assert Retained(r) == ResultSize(report) + Retained(r[1..]);
    assert Put([], key, report) == r && Put([], key, ResultSize(report)) == s;
    assert Fits(r, 0) && Survivors(r, 0) == r;
  }

  /** Such a run: closed while it executes, the session still gets its result cached. */
  lemma ClosedAndRemembered(key: Key, report: Report) returns (caches: seq<Cache>, steps: seq<Step>, last: Cache)
    requires ResultSize(report) <= MAX_CACHED_RESULT_BYTES
    ensures Reaches(caches, steps) && steps == [Closed(key.session, Any)]
    ensures Takes(caches[1], Remembered(key, report), last) && last.results == [(key, report)]
  {
    var empty := Cache([], []);
    caches, steps := [empty, empty], [Closed(key.session, Any)];
    last := Cache([(key, report)], [(key, ResultSize(report))]);
    assert Takes(empty, steps[0], empty);
    hide Takes;
    FirstRemembered(key, report);
  }
}
