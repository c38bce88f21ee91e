/** Killing what an execution left behind: repeated passes over the process table until one kills nothing. */
module ProcessCleanup {

  type Pid = nat

  /** A zombie is in the table and not live. */
  datatype Process = Process(start: int, live: bool)

  /** What a process is known by: pids are used again, a pid with its start time never is. */
  datatype Identity = Identity(pid: Pid, start: int)

  type Baseline = map<Pid, int>

  /**
   * The processes of a container now, and the identities of all there ever were, each with its parent,
   * the parent's parent and so on, as far as these are known.
   */
  datatype System = System(table: map<Pid, Process>, born: set<Identity>, ancestors: map<Identity, set<Identity>>)
  {
    predicate Present(id: Identity) {
      id.pid in table && table[id.pid].start == id.start
    }

    predicate Alive(id: Identity) {
      Present(id) && table[id.pid].live
    }

    predicate Sound() {
      forall pid | pid in table :: Identity(pid, table[pid].start) in born
    }

    predicate Knows(baseline: Baseline) {
      forall pid | pid in baseline :: Identity(pid, baseline[pid]) in born
    }
  }

  /** Live, and neither PID 1 nor of the baseline, by pid and start time. */
  predicate Stray(s: System, baseline: Baseline, pid: Pid) {
    pid in s.table && s.table[pid].live && pid != 1 && !(pid in baseline && baseline[pid] == s.table[pid].start)
  }

  predicate Quiet(s: System, baseline: Baseline) {
    forall pid | pid in s.table :: !Stray(s, baseline, pid)
  }

  /** Every stray process was born after the processes of `listed`. */
  predicate OnlyLater(s: System, baseline: Baseline, listed: set<Identity>) {
    forall pid | pid in s.table :: Stray(s, baseline, pid) ==> Identity(pid, s.table[pid].start) !in listed
  }

  /** Processes come, exit and become zombies; none that was before comes back. */
  predicate Evolves(a: System, b: System) {
    && a.born <= b.born && b.Sound()
    && forall id | id in a.born && b.Present(id) :: a.Present(id) && (b.Alive(id) ==> a.Alive(id))
  }

  lemma EvolvesOn(a: System, b: System, c: System)
    requires Evolves(a, b) && Evolves(b, c)
    ensures Evolves(a, c)
  {
  }

  lemma OnlyLaterStays(a: System, b: System, baseline: Baseline, listed: set<Identity>)
    requires OnlyLater(a, baseline, listed) && Evolves(a, b) && listed <= a.born
    ensures OnlyLater(b, baseline, listed)
  {
    forall pid | pid in b.table && Stray(b, baseline, pid) ensures Identity(pid, b.table[pid].start) !in listed {
      var id := Identity(pid, b.table[pid].start);
      assert b.Alive(id) && (id in a.born ==> a.Alive(id));
    }
  }

  /** `PROCESS_SNAPSHOT`, of which `self` is the process. */
  function Snapshot(s: System, self: Pid): (baseline: Baseline)
    requires s.Sound()
    ensures s.Knows(baseline)
  {
    map pid | pid in s.table && pid != self :: s.table[pid].start
  }

  /** Whatever lives when the snapshot is taken, an escaped process too, is spared for good. */
  lemma SnapshotSparesEscaped(s: System, self: Pid, later: System, id: Identity)
    requires s.Sound() && s.Present(id) && id.pid != self && later.Present(id)
    ensures !Stray(later, Snapshot(s, self), id.pid)
  {
  }

  /** The script, which is process `self`, goes on running. */
  predicate Moves(a: System, b: System, self: Pid) {
    && Evolves(a, b)
    && self in a.table && self in b.table && b.table[self] == a.table[self]
  }

  /** What is new after a move descends from a process that lived before it; lineages do not change. */
  predicate Forks(a: System, b: System) {
    && (forall id | id in a.born && id in a.ancestors :: id in b.ancestors && b.ancestors[id] == a.ancestors[id])
    && forall id | id in b.born && id !in a.born ::
         id in b.ancestors && exists older | older in b.ancestors[id] :: a.Alive(older)
  }

  predicate Foreign(s: System, baseline: Baseline, self: Pid, pid: Pid) {
    Stray(s, baseline, pid) && pid != self
  }

  /**
   * Looking at one listed pid: skip it, or kill it. `read` is the system when its stat file is read,
   * `sent` the system when the signal is sent; the processes move before either.
   */
  datatype Look = Look(pid: Pid, read: System, sent: System, killed: bool)

  function Kill(s: System, pid: Pid): System
    requires pid in s.table
  {
    s.(table := s.table[pid := s.table[pid].(live := false)])
  }

  ghost predicate Looks(a: System, look: Look, b: System, baseline: Baseline, self: Pid) {
    && Moves(a, look.read, self) && Moves(look.read, look.sent, self)
    && Forks(a, look.read) && Forks(look.read, look.sent)
    && if !Foreign(look.read, baseline, self, look.pid) then !look.killed && b == look.read
       else if look.pid !in look.sent.table then !look.killed && b == look.sent
       else look.killed && b == Kill(look.sent, look.pid)
  }

  /** One pass: `systems[0]` is what was listed, `systems[i + 1]` the system after `looks[i]`. */
  ghost predicate Pass(systems: seq<System>, looks: seq<Look>, baseline: Baseline, self: Pid) {
    && |systems| == |looks| + 1 && systems[0].Sound() && self in systems[0].table
    && (forall pid | pid in systems[0].table :: exists i | 0 <= i < |looks| :: looks[i].pid == pid)
    && forall i | 0 <= i < |looks| :: Looks(systems[i], looks[i], systems[i + 1], baseline, self)
  }

  /** A pass after which the script stops. */
  ghost predicate Inactive(looks: seq<Look>) {
    forall i | 0 <= i < |looks| :: !looks[i].killed
  }

  lemma LookMoves(a: System, look: Look, b: System, baseline: Baseline, self: Pid)
    requires Looks(a, look, b, baseline, self)
    ensures Moves(a, b, self)
  {
    EvolvesOn(a, look.read, look.sent);
  }

  /** A signal never reaches PID 1, the script or a process of the baseline, not even on a pid used again. */
  lemma KillsOnlyStrays(a: System, look: Look, b: System, baseline: Baseline, self: Pid)
    requires Looks(a, look, b, baseline, self) && look.killed && a.Knows(baseline)
    ensures look.pid != 1 && look.pid != self
    ensures !(look.pid in baseline && baseline[look.pid] == look.sent.table[look.pid].start)
  {
    var id := Identity(look.pid, look.sent.table[look.pid].start);
    assert look.sent.Present(id) && (id in look.read.born ==> look.read.Present(id));
  }

  lemma {:induction false} PassMoves(systems: seq<System>, looks: seq<Look>, baseline: Baseline, self: Pid, i: nat, k: nat)
    requires Pass(systems, looks, baseline, self) && i <= k <= |looks| && systems[i].Sound() && self in systems[i].table
    ensures Moves(systems[i], systems[k], self)
  {
    hide Evolves, Looks;
    if i == k {
      assert Evolves(systems[i], systems[i]) by { EvolvesSelf(systems[i]); }
    } else {
      PassMoves(systems, looks, baseline, self, i, k - 1);
      assert Looks(systems[k - 1], looks[k - 1], systems[k - 1 + 1], baseline, self);
      LookMoves(systems[k - 1], looks[k - 1], systems[k], baseline, self);
      EvolvesOn(systems[i], systems[k - 1], systems[k]);
    }
  }

  lemma EvolvesSelf(s: System)
    requires s.Sound()
    ensures Evolves(s, s)
  {
  }

  /** Once its turn is over, a foreign process that was listed is dead, killed or not. */
  lemma ListedIsDead(
    systems: seq<System>, looks: seq<Look>, baseline: Baseline, self: Pid, i: nat, last: System, pid: Pid)
    requires Pass(systems, looks, baseline, self) && i < |looks| && looks[i].pid == pid
    requires Evolves(systems[i + 1], last) && Foreign(last, baseline, self, pid)
    ensures Identity(pid, last.table[pid].start) !in systems[0].born
  {
    var id := Identity(pid, last.table[pid].start);
    assert Looks(systems[i], looks[i], systems[i + 1], baseline, self);
    PassMoves(systems, looks, baseline, self, 0, i);
    assert last.Alive(id) && (id in systems[i + 1].born ==> systems[i + 1].Alive(id));
  }

  lemma LeftWasBornLater(systems: seq<System>, looks: seq<Look>, baseline: Baseline, self: Pid, pid: Pid)
    requires Pass(systems, looks, baseline, self) && Foreign(systems[|looks|], baseline, self, pid)
    ensures Identity(pid, systems[|looks|].table[pid].start) !in systems[0].born
  {
    var last := systems[|looks|];
    var id := Identity(pid, last.table[pid].start);
    PassMoves(systems, looks, baseline, self, 0, |looks|);
    if id in systems[0].born {
      assert last.Alive(id) && systems[0].Present(id);
      var i :| 0 <= i < |looks| && looks[i].pid == pid;
      assert Looks(systems[i], looks[i], systems[i + 1], baseline, self);
      LookMoves(systems[i], looks[i], systems[i + 1], baseline, self);
      PassMoves(systems, looks, baseline, self, i + 1, |looks|);
      ListedIsDead(systems, looks, baseline, self, i, last, pid);
    }
  }

  /** A live process born after a listing is none of the baseline, nor the script, which was listed. */
  lemma BornLaterIsForeign(listed: System, last: System, baseline: Baseline, self: Pid, id: Identity)
    requires listed.Sound() && listed.Knows(baseline) && Moves(listed, last, self)
    requires id !in listed.born && last.Alive(id) && id.pid != 1
    ensures Foreign(last, baseline, self, id.pid)
  {
    assert Identity(self, listed.table[self].start) in listed.born;
  }

  /**
   * A pass, the last one or any other, leaves a foreign process if and only if something was born after
   * it listed the table, other than as PID 1, and is alive: all that was listed is dead or spared.
   */
  lemma PassLeaves(systems: seq<System>, looks: seq<Look>, baseline: Baseline, self: Pid)
    requires Pass(systems, looks, baseline, self) && systems[0].Knows(baseline)
    ensures var last := systems[|looks|];
            (exists pid :: Foreign(last, baseline, self, pid))
            <==> exists id: Identity :: id !in systems[0].born && last.Alive(id) && id.pid != 1
  {
    var last := systems[|looks|];
    if pid :| Foreign(last, baseline, self, pid) {
      LeftWasBornLater(systems, looks, baseline, self, pid);
      assert last.Alive(Identity(pid, last.table[pid].start));
    }
    if id: Identity :| id !in systems[0].born && last.Alive(id) && id.pid != 1 {
      PassMoves(systems, looks, baseline, self, 0, |looks|);
      BornLaterIsForeign(systems[0], last, baseline, self, id);
    }
  }

  /** The script exits. */
  function Exit(s: System, self: Pid): System {
    s.(table := s.table - {self})
  }

  ghost predicate NoForeign(s: System, baseline: Baseline, self: Pid) {
    forall pid :: !Foreign(s, baseline, self, pid)
  }

  /** Spared processes start no others, as in an idle container: nothing new has one for an ancestor. */
  ghost predicate Idle(a: System, b: System, baseline: Baseline, self: Pid) {
    forall id, older | id in b.born && id !in a.born && id in b.ancestors && older in b.ancestors[id] && a.Alive(older) ::
      Foreign(a, baseline, self, older.pid)
  }

  /** Where nothing foreign lives and the spared are idle, nothing is born. */
  lemma NothingIsBorn(a: System, b: System, baseline: Baseline, self: Pid)
    requires Evolves(a, b) && Forks(a, b) && Idle(a, b, baseline, self) && NoForeign(a, baseline, self)
    ensures b.born == a.born && NoForeign(b, baseline, self)
  {
    assert forall id | id in b.born :: id in a.born;
    forall pid ensures !Foreign(b, baseline, self, pid) {
      if pid in b.table {
        var id := Identity(pid, b.table[pid].start);
        assert b.Present(id) && (b.Alive(id) ==> a.Alive(id));
        assert !Foreign(a, baseline, self, pid);
      }
    }
  }

  ghost predicate IdlePass(systems: seq<System>, looks: seq<Look>, baseline: Baseline, self: Pid)
    requires |systems| == |looks| + 1
  {
    forall i | 0 <= i < |looks| ::
      Idle(systems[i], looks[i].read, baseline, self) && Idle(looks[i].read, looks[i].sent, baseline, self)
  }

  /** Among idle spared processes, a pass whose listing shows nothing foreign leaves nothing foreign. */
  lemma {:induction false} QuietListing(systems: seq<System>, looks: seq<Look>, baseline: Baseline, self: Pid, k: nat)
    requires |systems| == |looks| + 1 && k <= |looks|
    requires Pass(systems, looks, baseline, self) && IdlePass(systems, looks, baseline, self)
    requires NoForeign(systems[0], baseline, self)
    ensures NoForeign(systems[k], baseline, self)
    ensures forall i | 0 <= i < k :: !looks[i].killed
  {
    hide *;
    if k > 0 {
      QuietListing(systems, looks, baseline, self, k - 1);
      IdleAt(systems, looks, baseline, self, k - 1);
      QuietLook(systems[k - 1], looks[k - 1], systems[k], baseline, self);
    }
  }

  lemma IdleAt(systems: seq<System>, looks: seq<Look>, baseline: Baseline, self: Pid, i: nat)
    requires |systems| == |looks| + 1 && i < |looks|
    requires Pass(systems, looks, baseline, self) && IdlePass(systems, looks, baseline, self)
    ensures Looks(systems[i], looks[i], systems[i + 1], baseline, self) && Idle(systems[i], looks[i].read, baseline, self)
  {
    hide Looks, Idle;
  }

  lemma QuietLook(a: System, look: Look, b: System, baseline: Baseline, self: Pid)
    requires Looks(a, look, b, baseline, self) && NoForeign(a, baseline, self) && Idle(a, look.read, baseline, self)
    ensures NoForeign(b, baseline, self) && !look.killed
  {
    NothingIsBorn(a, look.read, baseline, self);
    hide Idle, Evolves, Forks;
    assert !Foreign(look.read, baseline, self, look.pid);
  }

  /** The exception is real: a parent that forks and exits after being listed leaves its child running. */
  lemma ChildEscapes() returns (systems: seq<System>, looks: seq<Look>)
    ensures Pass(systems, looks, map[], 2) && Inactive(looks)
    ensures Stray(Exit(systems[|looks|], 2), map[], 8)
  {
    var script, parent, child := Process(20, true), Process(70, true), Process(80, true);
    var born := {Identity(2, 20), Identity(7, 70)};
    var before := System(map[2 := script, 7 := parent], born, map[]);
    var after := System(map[2 := script, 8 := child], born + {Identity(8, 80)}, map[Identity(8, 80) := {Identity(7, 70)}]);
    assert before.Alive(Identity(7, 70));
    systems, looks := [before, before, after], [Look(2, before, before, false), Look(7, after, after, false)];
    assert Looks(systems[0], looks[0], systems[1], map[], 2);
    assert Looks(systems[1], looks[1], systems[2], map[], 2);
    assert looks[0].pid == 2 && looks[1].pid == 7;
  }

  function Ids(baseline: Baseline): set<Identity> {
    set pid | pid in baseline :: Identity(pid, baseline[pid])
  }

  /** What a cleanup that stopped came to: its last pass, and the container without the script. */
  ghost predicate Swept(systems: seq<System>, looks: seq<Look>, baseline: Baseline, self: Pid, end: System) {
    Pass(systems, looks, baseline, self) && Inactive(looks) && end == Exit(systems[|looks|], self)
  }

  /**
   * Wherever only what was born after a listing is stray, the table is quiet exactly when nothing born
   * after it is alive, PID 1 aside.
   */
  lemma QuietExactly(s: System, baseline: Baseline, listed: set<Identity>)
    requires Ids(baseline) <= listed && OnlyLater(s, baseline, listed)
    ensures Quiet(s, baseline) <==> forall id: Identity | id !in listed && s.Alive(id) :: id.pid == 1
  {
    forall pid | pid in s.table && Stray(s, baseline, pid) ensures s.Alive(Identity(pid, s.table[pid].start)) {}
    forall id: Identity | id !in listed && s.Alive(id) && id.pid != 1 ensures Stray(s, baseline, id.pid) {
      if id.pid in baseline {
        assert Identity(id.pid, baseline[id.pid]) in Ids(baseline);
      }
    }
  }

  lemma KnownIds(s: System, baseline: Baseline)
    ensures s.Knows(baseline) <==> Ids(baseline) <= s.born
  {
    forall pid | pid in baseline ensures Identity(pid, baseline[pid]) in Ids(baseline) {}
  }

  /** Once the script has exited, all that lives beside the baseline was born after its last listing. */
  lemma SweptLeavesOnlyLater(systems: seq<System>, looks: seq<Look>, baseline: Baseline, self: Pid, end: System)
    requires Swept(systems, looks, baseline, self, end)
    ensures OnlyLater(end, baseline, systems[0].born)
    ensures Evolves(systems[0], end)
    ensures systems[0].Knows(baseline) ==>
              (Quiet(end, baseline) <==> forall id: Identity | id !in systems[0].born && end.Alive(id) :: id.pid == 1)
  {
    PassMoves(systems, looks, baseline, self, 0, |looks|);
    forall pid | pid in end.table && Stray(end, baseline, pid) ensures Identity(pid, end.table[pid].start) !in systems[0].born {
      LeftWasBornLater(systems, looks, baseline, self, pid);
      assert end.Alive(Identity(pid, end.table[pid].start));
    }
    KnownIds(systems[0], baseline);
    if systems[0].Knows(baseline) {
      QuietExactly(end, baseline, systems[0].born);
    }
  }

  lemma PassGrows(
    systems: seq<System>, looks: seq<Look>, look: Look, next: System, baseline: Baseline, self: Pid, todo: set<Pid>)
    requires |systems| == |looks| + 1 && Looks(systems[|looks|], look, next, baseline, self)
    requires forall i | 0 <= i < |looks| :: Looks(systems[i], looks[i], systems[i + 1], baseline, self)
    requires forall p | p in systems[0].table && p !in todo :: exists i | 0 <= i < |looks| :: looks[i].pid == p
    ensures var s, l := systems + [next], looks + [look];
            && (forall i | 0 <= i < |l| :: Looks(s[i], l[i], s[i + 1], baseline, self))
            && (forall p | p in s[0].table && p !in todo - {look.pid} :: exists i | 0 <= i < |l| :: l[i].pid == p)
  {
    var s, l := systems + [next], looks + [look];
    hide Looks;
    forall i | 0 <= i < |l| ensures Looks(s[i], l[i], s[i + 1], baseline, self) {
      if i < |looks| {
        assert s[i] == systems[i] && s[i + 1] == systems[i + 1];
      }
    }
    forall p | p in s[0].table && p !in todo - {look.pid} ensures exists i | 0 <= i < |l| :: l[i].pid == p {
      if p == look.pid {
        assert l[|looks|].pid == p;
      } else {
        var i :| 0 <= i < |looks| && looks[i].pid == p;
        assert l[i].pid == p;
      }
    }
  }

  lemma ExitEvolves(s: System, self: Pid)
    requires s.Sound()
    ensures Evolves(s, Exit(s, self))
  {
  }

  /** One turn of the script's loop; `idle` says that it killed nothing. */
  method OnePass(start: System, baseline: Baseline, self: Pid)
    returns (end: System, idle: bool, ghost systems: seq<System>, ghost looks: seq<Look>, ghost killed: set<Identity>)
    requires start.Sound() && start.Knows(baseline) && self in start.table
    ensures Moves(start, end, self) && Pass(systems, looks, baseline, self)
    ensures systems[0] == start && end == systems[|looks|]
    ensures idle <==> Inactive(looks)
    ensures killed !! Ids(baseline) && forall id | id in killed :: id.pid != 1 && id.pid != self
  {
    assert Inactive([]);
    EvolvesSelf(start);
    hide Evolves, Looks, Inactive;
    end, idle, systems, looks, killed := start, true, [start], [], {};
    var todo := start.table.Keys;
    while todo != {}
      invariant Moves(start, end, self)
      invariant |systems| == |looks| + 1 && systems[0] == start && end == systems[|looks|]
      invariant forall i | 0 <= i < |looks| :: Looks(systems[i], looks[i], systems[i + 1], baseline, self)
      invariant forall p | p in start.table && p !in todo :: exists i | 0 <= i < |looks| :: looks[i].pid == p
      invariant idle <==> Inactive(looks)
      invariant killed !! Ids(baseline) && forall id | id in killed :: id.pid != 1 && id.pid != self
      decreases todo
    {
      var pid :| pid in todo;
      KnowsStays(start, end, baseline);
      var next, look := LookAt(end, pid, baseline, self);
      if look.killed {
        KillsOnlyStrays(end, look, next, baseline, self);
        killed := killed + {Identity(pid, look.sent.table[pid].start)};
        idle := false;
      }
      LookMoves(end, look, next, baseline, self);
      EvolvesOn(start, end, next);
      PassGrows(systems, looks, look, next, baseline, self, todo);
      InactiveGrows(looks, look);
      end, systems, looks := next, systems + [next], looks + [look];
      todo := todo - {pid};
    }
  }

  lemma KnowsStays(a: System, b: System, baseline: Baseline)
    requires Evolves(a, b) && a.Knows(baseline)
    ensures b.Knows(baseline) && b.Sound()
  {
  }

  lemma BornStays(a: System, b: System)
    requires Evolves(a, b)
    ensures a.born <= b.born
  {
  }

  lemma {:induction false} FreshPid(born: set<Identity>) returns (pid: Pid)
    ensures forall id | id in born :: id.pid < pid
  {
    pid := 0;
    if born != {} {
      var id :| id in born;
      pid := FreshPid(born - {id});
      if pid <= id.pid {
        pid := id.pid + 1;
      }
    }
  }

  lemma InactiveGrows(looks: seq<Look>, look: Look)
    ensures Inactive(looks + [look]) <==> Inactive(looks) && !look.killed
  {
    var all := looks + [look];
    assert all[|looks|] == look && forall i | 0 <= i < |looks| :: all[i] == looks[i];
  }

  /** Reads one process's state and kills it unless it is spared or dead. */
  method LookAt(now: System, pid: Pid, baseline: Baseline, self: Pid) returns (next: System, look: Look)
    requires now.Sound() && self in now.table
    ensures look.pid == pid && Looks(now, look, next, baseline, self)
    ensures look.killed ==> pid in look.sent.table
  {
    var read := Others(now, self);
    if !Foreign(read, baseline, self, pid) {
      EvolvesSelf(read);
      return read, Look(pid, read, read, false);
    }
    var sent := Others(read, self);
    if pid !in sent.table {
      return sent, Look(pid, read, sent, false);
    }
    next, look := Kill(sent, pid), Look(pid, read, sent, true);
  }

  /** Whatever the processes do meanwhile. */
  method Others(now: System, self: Pid) returns (next: System)
    requires now.Sound() && self in now.table
    ensures Moves(now, next, self) && Forks(now, next)
  {
    next := *;
    if !Moves(now, next, self) || !Forks(now, next) {
      next := now;
    }
  }

  /**
   * The script's loop, for as long as `passes` lasts, while the processes move as they like. `killed`
   * collects whom the signals reached.
   */
  method Cleanup(start: System, baseline: Baseline, self: Pid, passes: nat)
    returns (end: System, stopped: bool, ghost systems: seq<System>, ghost looks: seq<Look>, ghost killed: set<Identity>)
    requires start.Sound() && start.Knows(baseline) && self in start.table
    ensures Evolves(start, end)
    ensures killed !! Ids(baseline) && forall id | id in killed :: id.pid != 1 && id.pid != self
    ensures stopped ==>
              Swept(systems, looks, baseline, self, end) && Evolves(start, systems[0]) && systems[0].Knows(baseline)
  {
    hide Evolves, OnlyLater, Looks, Ids, Inactive;
    var now := start;
    EvolvesSelf(start);
    systems, looks, killed, stopped := [], [], {}, false;
    var left := passes;
    while left > 0 && !stopped
      invariant Moves(start, now, self)
      invariant killed !! Ids(baseline) && forall id | id in killed :: id.pid != 1 && id.pid != self
      invariant stopped ==> Pass(systems, looks, baseline, self) && Inactive(looks) && now == systems[|looks|]
                            && Evolves(start, systems[0]) && systems[0].Knows(baseline)
      decreases left
    {
      ghost var before := now;
      ghost var reached: set<Identity>;
      KnowsStays(start, now, baseline);
      now, stopped, systems, looks, reached := OnePass(now, baseline, self);
      EvolvesOn(start, before, now);
      killed := killed + reached;
      left := left - 1;
    }
    KnowsStays(start, now, baseline);
    ExitEvolves(now, self);
    EvolvesOn(start, now, Exit(now, self));
    end := Exit(now, self);
  }
}
