/** A container's creation-time bounds: engine flags, fingerprint and the check on a live container. */
module ContainerBounds {
  import opened Options
  import opened AsciiText
  import opened Decimals

  const OUTPUT_BYTES_CEILING: nat := 64 * 1024 * 1024
  const WORKSPACE: string := "/workspace"

  /** A finite positive float, by the shortest decimal text that denotes it: `repr` of it. */
  type Float = s: string | FloatText(s) witness "1.0"

  predicate FloatText(s: string) {
    s != "" && forall c | c in s :: '0' <= c <= '9' || c == '.' || c == 'e' || c == '+' || c == '-'
  }

  datatype Policy = Policy(
    cpus: Option<Float>, memoryBytes: Option<nat>, pidsLimit: Option<nat>, scratchBytes: Option<nat>,
    wallClockSeconds: Option<nat>, readOnlyRootfs: bool, outputBytesCap: Option<nat>)

  /** The smallest values the request schema lets through. */
  predicate Admitted(p: Policy) {
    && (p.memoryBytes.Some? ==> p.memoryBytes.value >= 6 * 1024 * 1024)
    && (p.pidsLimit.Some? ==> p.pidsLimit.value >= 1)
    && (p.scratchBytes.Some? ==> p.scratchBytes.value >= 1)
  }

  /** What was requested, but not below one byte nor above the ceiling, which is also the default. */
  function EffectiveOutputCap(requested: Option<nat>): (cap: nat)
    ensures 1 <= cap <= 64 * 1024 * 1024
    ensures requested.None? ==> cap == 64 * 1024 * 1024
    ensures requested.Some? && cap < requested.value ==> cap == 64 * 1024 * 1024
    ensures requested.Some? && cap > requested.value ==> cap == 1
  {
    if requested.None? || requested.value > OUTPUT_BYTES_CEILING then OUTPUT_BYTES_CEILING
    else if requested.value < 1 then 1 else requested.value
  }

  function Text(n: Option<nat>): string {
    if n.None? then "None" else Decimal(n.value)
  }

  function Parts(p: Policy): seq<string> {
    [ if p.cpus.None? then "None" else p.cpus.value,
      Text(p.memoryBytes), Text(p.pidsLimit), Text(p.scratchBytes), Text(p.wallClockSeconds),
      if p.readOnlyRootfs then "True" else "False",
      Text(Some(EffectiveOutputCap(p.outputBytesCap))),
      "execution-process-cleanup-v1", "workspace-volume-v1", "bounded-mplconfig-v1" ]
  }

  function Fingerprint(p: Policy): string {
    Join(Parts(p), "|")
  }

  lemma {:induction false} JoinInjective(a: seq<string>, b: seq<string>)
    requires |a| == |b| > 0 && (forall s | s in a + b :: '|' !in s)
    requires Join(a, "|") == Join(b, "|")
    ensures a == b
  {
    assert a[0] in a + b && b[0] in a + b;
    if |a| > 1 {
      PartitionOf(a[0], '|', Join(a[1..], "|"));
      PartitionOf(b[0], '|', Join(b[1..], "|"));
      assert forall s | s in a[1..] + b[1..] :: s in a + b;
      JoinInjective(a[1..], b[1..]);
      assert a == [a[0]] + a[1..] && b == [b[0]] + b[1..];
    }
  }

  lemma TextInjective(m: Option<nat>, n: Option<nat>)
    ensures Text(m) == Text(n) <==> m == n
    ensures '|' !in Text(m)
  {
    if m.Some? { ParseDecimalOf(m.value); assert Decimal(m.value)[0] != 'N'; }
    if n.Some? { ParseDecimalOf(n.value); assert Decimal(n.value)[0] != 'N'; }
  }

  /** Equal fingerprints mean equal policies, up to the output cap that takes effect. */
  lemma FingerprintInjective(p: Policy, q: Policy)
    ensures Fingerprint(p) == Fingerprint(q) <==>
            p.(outputBytesCap := Some(EffectiveOutputCap(p.outputBytesCap)))
            == q.(outputBytesCap := Some(EffectiveOutputCap(q.outputBytesCap)))
  {
    var a, b := Parts(p), Parts(q);
    TextInjective(p.memoryBytes, q.memoryBytes);
    TextInjective(p.pidsLimit, q.pidsLimit);
    TextInjective(p.scratchBytes, q.scratchBytes);
    TextInjective(p.wallClockSeconds, q.wallClockSeconds);
    TextInjective(Some(EffectiveOutputCap(p.outputBytesCap)), Some(EffectiveOutputCap(q.outputBytesCap)));
    PartsHaveNoBar(p);
    PartsHaveNoBar(q);
    hide Join, Text, Decimal;
    if Fingerprint(p) == Fingerprint(q) {
      JoinInjective(a, b);
      assert forall i | 0 <= i < 7 :: a[i] == b[i];
      NumbersAreNotNone(p);
      NumbersAreNotNone(q);
    }
  }

  lemma NumbersAreNotNone(p: Policy)
    ensures p.cpus.Some? ==> p.cpus.value != "None"
  {
    if p.cpus.Some? {
      var first := p.cpus.value[0];
      assert first in p.cpus.value && first != 'N';
    }
  }

  lemma PartsHaveNoBar(p: Policy)
    ensures forall s | s in Parts(p) :: '|' !in s
  {
    TextInjective(p.memoryBytes, None);
    TextInjective(p.pidsLimit, None);
    TextInjective(p.scratchBytes, None);
    TextInjective(p.wallClockSeconds, None);
    TextInjective(Some(EffectiveOutputCap(p.outputBytesCap)), None);
    var parts := Parts(p);
    hide Text, Decimal;
    assert forall i | 0 <= i < 10 :: '|' !in parts[i];
  }

  /** The tmpfs-backed workspace volume; `source` is set on any other kind of mount only. */
  datatype Mount = Mount(target: string, kind: string, source: string, noCopy: bool, driver: string, options: string)

  function WorkspaceVolume(scratch: nat): Mount {
    Mount(WORKSPACE, "volume", "", true, "local", "size=" + Decimal(scratch) + ",nosuid,nodev")
  }

  /** The flags a container is created with; an absent bound stays absent. */
  datatype Flags = Flags(memory: Option<nat>, memorySwap: Option<nat>, pids: Option<nat>, nanoCpus: Option<nat>, mounts: seq<Mount>)

  /** `nano` is `int(cpus * 10**9)`. */
  function ResourceBounds(p: Policy, nano: Float -> nat): Flags {
    Flags(p.memoryBytes, p.memoryBytes, p.pidsLimit,
          if p.cpus.None? then None else Some(nano(p.cpus.value)),
          if p.scratchBytes.None? then [] else [WorkspaceVolume(p.scratchBytes.value)])
  }

  predicate ReadOnly(p: Policy) {
    p.scratchBytes.Some? || p.readOnlyRootfs
  }

  /** What the daemon reports of a container; an unset number is 0. */
  datatype HostConfig = HostConfig(memory: nat, memorySwap: nat, pids: nat, nanoCpus: nat, readOnly: bool, mounts: seq<Mount>)

  function Value(n: Option<nat>): nat {
    if n.None? then 0 else n.value
  }

  /** A container created exactly as asked. */
  function Created(p: Policy, nano: Float -> nat): HostConfig {
    var f := ResourceBounds(p, nano);
    HostConfig(Value(f.memory), Value(f.memorySwap), Value(f.pids), Value(f.nanoCpus), ReadOnly(p), f.mounts)
  }

  function AtWorkspace(mounts: seq<Mount>): seq<Mount> {
    if mounts == [] then []
    else (if mounts[0].target == WORKSPACE then [mounts[0]] else []) + AtWorkspace(mounts[1..])
  }

  predicate MatchesBounds(host: HostConfig, p: Policy, nano: Float -> nat) {
    if (p.memoryBytes.Some? && (host.memory != p.memoryBytes.value || host.memorySwap != p.memoryBytes.value))
       || (p.pidsLimit.Some? && host.pids != p.pidsLimit.value)
       || (p.cpus.Some? && host.nanoCpus != nano(p.cpus.value)) then false
    else if host.readOnly != ReadOnly(p) then false
    else if p.scratchBytes.None? then true
    else
      var workspace := AtWorkspace(host.mounts);
      host.readOnly && |workspace| == 1 && workspace[0] == WorkspaceVolume(p.scratchBytes.value)
  }

  /** Mount `i` is the only one at the workspace. */
  predicate OnlyWorkspace(mounts: seq<Mount>, i: nat) {
    && i < |mounts| && mounts[i].target == "/workspace"
    && forall j | 0 <= j < |mounts| && j != i :: mounts[j].target != "/workspace"
  }

  lemma {:induction false} NoWorkspace(mounts: seq<Mount>)
    ensures AtWorkspace(mounts) == [] <==> forall j | 0 <= j < |mounts| :: mounts[j].target != "/workspace"
  {
    if mounts != [] {
      NoWorkspace(mounts[1..]);
      assert forall j | 1 <= j < |mounts| :: mounts[j] == mounts[1..][j - 1];
    }
  }

  lemma {:induction false} SingleWorkspace(mounts: seq<Mount>, v: Mount)
    ensures AtWorkspace(mounts) == [v] <==> exists i: nat :: OnlyWorkspace(mounts, i) && mounts[i] == v
  {
    if mounts != [] {
      var rest := mounts[1..];
      SingleWorkspace(rest, v);
      NoWorkspace(rest);
      assert forall j | 1 <= j < |mounts| :: mounts[j] == rest[j - 1];
      if i: nat :| OnlyWorkspace(rest, i) && rest[i] == v && mounts[0].target != WORKSPACE {
        assert OnlyWorkspace(mounts, i + 1);
      }
      if mounts[0] == v && AtWorkspace(mounts) == [v] {
        assert v.target == WORKSPACE ==> OnlyWorkspace(mounts, 0);
      }
      if i: nat :| OnlyWorkspace(mounts, i) && mounts[i] == v {
        if i > 0 {
          assert mounts[0].target != WORKSPACE && OnlyWorkspace(rest, i - 1);
        }
      }
    }
  }

  /**
   * The check passes exactly the containers that have what was asked for: memory with no swap beyond it,
   * process limit, CPU share, root mode, and the bounded volume as the only mount at the workspace.
   */
  lemma MatchesExactly(host: HostConfig, p: Policy, nano: Float -> nat)
    ensures MatchesBounds(host, p, nano) <==>
            && (p.memoryBytes.Some? ==> host.memory == host.memorySwap == p.memoryBytes.value)
            && (p.pidsLimit.Some? ==> host.pids == p.pidsLimit.value)
            && (p.cpus.Some? ==> host.nanoCpus == nano(p.cpus.value))
            && (host.readOnly <==> p.scratchBytes.Some? || p.readOnlyRootfs)
            && (p.scratchBytes.Some? ==>
                  exists i: nat :: OnlyWorkspace(host.mounts, i) && host.mounts[i] ==
                    Mount("/workspace", "volume", "", true, "local", "size=" + Decimal(p.scratchBytes.value) + ",nosuid,nodev"))
  {
    if p.scratchBytes.Some? {
      var v := WorkspaceVolume(p.scratchBytes.value);
      SingleWorkspace(host.mounts, v);
      var workspace := AtWorkspace(host.mounts);
      assert |workspace| == 1 && workspace[0] == v <==> workspace == [v];
      hide AtWorkspace, Decimal;
    }
  }

  /** The bounds `q` asks for are the ones `p` asks for; what `q` leaves open is not looked at. */
  predicate Agrees(p: Policy, q: Policy, nano: Float -> nat) {
    && (q.memoryBytes.Some? ==> p.memoryBytes == q.memoryBytes)
    && (q.pidsLimit.Some? ==> p.pidsLimit == q.pidsLimit)
    && (q.cpus.Some? ==> Value(ResourceBounds(p, nano).nanoCpus) == nano(q.cpus.value))
    && (q.scratchBytes.Some? ==> p.scratchBytes == q.scratchBytes)
    && ReadOnly(p) == ReadOnly(q)
  }

  /**
   * A container created from `p` passes the check for `q` exactly when `q` asks for nothing else:
   * the check alone would reuse a container with more bounds than asked for, and the fingerprint
   * is what tells those apart.
   */
  lemma CreatedMatches(p: Policy, q: Policy, nano: Float -> nat)
    requires Admitted(p) && Admitted(q)
    ensures MatchesBounds(Created(p, nano), p, nano)
    ensures MatchesBounds(Created(p, nano), q, nano) <==> Agrees(p, q, nano)
  {
    if p.scratchBytes.Some? {
      var v := WorkspaceVolume(p.scratchBytes.value);
      assert AtWorkspace([v]) == [v] + AtWorkspace([]);
      if q.scratchBytes.Some? && WorkspaceVolume(q.scratchBytes.value) == v {
        SizeInjective(p.scratchBytes.value, q.scratchBytes.value);
      }
    }
  }

  lemma SizeInjective(m: nat, n: nat)
    requires "size=" + Decimal(m) + ",nosuid,nodev" == "size=" + Decimal(n) + ",nosuid,nodev"
    ensures m == n
  {
    var a, b := "size=" + Decimal(m) + ",nosuid,nodev", "size=" + Decimal(n) + ",nosuid,nodev";
    assert a[5..5 + |Decimal(m)|] == Decimal(m) && b[5..5 + |Decimal(n)|] == Decimal(n);
    assert |a| == 5 + |Decimal(m)| + |",nosuid,nodev"| && |b| == 5 + |Decimal(n)| + |",nosuid,nodev"|;
    ParseDecimalOf(m);
    ParseDecimalOf(n);
  }

  /** Reusing a container only under an equal fingerprint keeps flags, root mode and output cap. */
  lemma EqualFingerprintsSameContainer(p: Policy, q: Policy, nano: Float -> nat)
    requires Fingerprint(p) == Fingerprint(q)
    ensures ResourceBounds(p, nano) == ResourceBounds(q, nano) && ReadOnly(p) == ReadOnly(q)
    ensures EffectiveOutputCap(p.outputBytesCap) == EffectiveOutputCap(q.outputBytesCap)
    ensures p.wallClockSeconds == q.wallClockSeconds
  {
    FingerprintInjective(p, q);
  }

  /** The output cap an execution reads back from the container's label. */
  function OutputCapOf(labelled: Option<string>): nat {
    if labelled.None? || labelled.value == "" || !Digits(labelled.value) then
      OUTPUT_BYTES_CEILING
    else
      var value := ParseDecimal(labelled.value);
      if value < 1 || value > OUTPUT_BYTES_CEILING then OUTPUT_BYTES_CEILING else value
  }

  /** It is the cap the container was created with, and whatever the label says, never above the ceiling. */
  lemma CapSurvivesLabel(requested: Option<nat>, odd: Option<string>)
    ensures OutputCapOf(Some(Decimal(EffectiveOutputCap(requested)))) == EffectiveOutputCap(requested)
    ensures 1 <= OutputCapOf(odd) <= OUTPUT_BYTES_CEILING
  {
    ParseDecimalOf(EffectiveOutputCap(requested));
  }
}
