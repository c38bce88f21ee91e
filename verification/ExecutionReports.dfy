/** What the runner reports of one execution. */
module ExecutionReports {
  import opened Options

  datatype Status = Succeeded | Unsuccessful | Killed | TimedOut

  datatype Reason =
    | Completed | Ended | Stopped | Unknown
    | LimitMemory | LimitPids | LimitScratch | LimitOutput | LimitWallClock

  /** The reasons that start with `sandbox_limit_`. */
  predicate IsLimit(r: Reason) {
    r == LimitMemory || r == LimitPids || r == LimitScratch || r == LimitOutput || r == LimitWallClock
  }

  /** `files` holds the length of each collected file's encoded content. */
  datatype Report = Report(
    status: Status, reason: Reason, exitCode: Option<int>, stdout: string, stderr: string, files: seq<nat>)

  function Sum(sizes: seq<nat>): nat {
    if sizes == [] then 0 else sizes[0] + Sum(sizes[1..])
  }

  /** Roughly what a cached report retains. */
  function ResultSize(r: Report): nat {
    |r.stdout| + |r.stderr| + Sum(r.files)
  }

  lemma {:induction false} SumAppend(a: seq<nat>, b: seq<nat>)
    ensures Sum(a + b) == Sum(a) + Sum(b)
  {
    if a == [] {
      assert a + b == b;
    } else {
      SumAppend(a[1..], b);
      assert (a + b)[1..] == a[1..] + b;
    }
  }

  lemma SumOne(n: nat)
    ensures Sum([n]) == n && Sum([]) == 0
  {
    assert [n][1..] == [];
  }
}
