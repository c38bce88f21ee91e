/** Ensuring one session's container while teardown may remove containers at any moment. */
module SessionContainers {
  import opened Options
  import opened ContainerBounds

  type Runtime(==)

  /** A managed container of the session, as the daemon reports it. */
  datatype Container = Container(
    generation: nat, fingerprint: string, host: HostConfig, runtime: Option<Runtime>, running: bool)

  datatype Request = Request(generation: nat, policy: Policy, runtime: Runtime)

  datatype Result = Ready(id: nat) | Missing | Failed

  /** The container is the one the request asks for, under the runtime this service is set to. */
  predicate Suits(c: Container, r: Request, configured: Runtime, nano: Float -> nat) {
    && c.generation == r.generation
    && (c.runtime.Some? ==> c.runtime.value == configured)
    && c.fingerprint == Fingerprint(r.policy)
    && MatchesBounds(c.host, r.policy, nano)
  }

  /** A container is reused exactly when nothing of what was asked for differs, as far as is reported. */
  lemma SuitsMeans(c: Container, r: Request, configured: Runtime, nano: Float -> nat)
    ensures Suits(c, r, configured, nano) <==>
            && c.generation == r.generation && c.fingerprint == Fingerprint(r.policy)
            && (c.runtime == None || c.runtime == Some(configured))
            && MatchesBounds(c.host, r.policy, nano)
  {
    hide MatchesBounds, Fingerprint;
  }

  lemma {:induction false} SubsetSize<T>(a: set<T>, b: set<T>)
    requires a <= b
    ensures |a| <= |b|
  {
    if a != {} {
      var x :| x in a;
      SubsetSize(a - {x}, b - {x});
    }
  }

  /** One more, after one went or there was none, makes no more than there were, or one. */
  lemma OneForAnother<T>(before: set<T>, left: set<T>, now: set<T>, more: T)
    requires (before == {} || left < before) && left <= before && now <= left + {more}
    ensures |now| <= if before == {} then 1 else |before|
    ensures |before| <= 1 ==> left == {}
  {
    SubsetSize(now, left + {more});
    if before != {} {
      var gone :| gone in before && gone !in left;
      SubsetSize(left, before - {gone});
    }
  }

  /**
   * The daemon's containers with this session's label. `Ensure` runs under the session's lock, so
   * nothing else creates one; `close`, which takes no lock, may remove any of them between any two
   * calls to the daemon.
   */
  class Session {
    const configured: Runtime
    var containers: map<nat, Container>
    var nextId: nat

    ghost predicate Valid()
      reads this
    {
      forall id | id in containers :: id < nextId
    }

    constructor (configured: Runtime)
      ensures Valid() && this.configured == configured && containers == map[]
    {
      this.configured := configured;
      containers, nextId := map[], 0;
    }

    /** Teardown elsewhere, and containers that stop by themselves. */
    method Elsewhere()
      requires Valid()
      modifies this`containers
      ensures Valid() && containers.Keys <= old(containers).Keys
      ensures forall id | id in containers ::
                containers[id] == old(containers)[id] || containers[id] == old(containers)[id].(running := false)
    {
      var kept: set<nat>, stopped: set<nat> := *, *;
      containers := map id | id in containers && id in kept ::
        if id in stopped then containers[id].(running := false) else containers[id];
    }

    /** A forced removal, which fails for a container that is gone. */
    method Remove(id: nat) returns (ok: bool)
      requires Valid()
      modifies this`containers
      ensures Valid() && containers.Keys <= old(containers).Keys
      ensures ok ==> id in old(containers) && id !in containers
      ensures forall i | i in containers ::
                containers[i] == old(containers)[i] || containers[i] == old(containers)[i].(running := false)
    {
      Elsewhere();
      ok := *;
      ok := ok && id in containers;
      if ok {
        containers := containers - {id};
      }
    }

    /** `close`: removes the session's containers, of one generation or all; nobody waits for a lock. */
    method Close(generation: Option<nat>) returns (ok: bool)
      requires Valid()
      modifies this`containers
      ensures Valid() && containers.Keys <= old(containers).Keys
      ensures ok ==> forall id | id in containers ::
                       generation.Some? && old(containers)[id].generation != generation.value
    {
      var todo := containers.Keys;
      while todo != {}
        invariant Valid() && todo <= old(containers).Keys && containers.Keys <= old(containers).Keys
        invariant forall id | id in containers :: containers[id].generation == old(containers)[id].generation
        invariant forall id | id in containers && id !in todo ::
                    generation.Some? && old(containers)[id].generation != generation.value
        decreases todo
      {
        var id :| id in todo;
        todo := todo - {id};
        if id in containers && (generation.None? || containers[id].generation == generation.value) {
          var removed := Remove(id);
          if !removed {
            return false;
          }
        } else {
          Elsewhere();
        }
      }
      ok := true;
    }

    /**
     * The search of `_ensure_unlocked`: the first container that suits is started if need be and
     * returned; those before it are removed, and the search stops at one of this generation that does
     * not suit. When it finds none, it has removed a container, or there was none.
     */
    method Reuse(r: Request, nano: Float -> nat) returns (o: Result)
      requires Valid()
      modifies this`containers
      ensures Valid() && containers.Keys <= old(containers).Keys
      ensures o.Ready? ==> o.id in old(containers) && Suits(old(containers)[o.id], r, configured, nano)
      ensures o == Missing ==> old(containers).Keys == {} || containers.Keys < old(containers).Keys
      ensures o == Missing ==>
                || containers == map[]
                || exists id | id in old(containers) && id !in containers ::
                     old(containers)[id].generation == r.generation && !Suits(old(containers)[id], r, configured, nano)
    {
      hide MatchesBounds, Fingerprint;
      var todo := containers.Keys;
      while todo != {}
        invariant Valid() && todo <= old(containers).Keys && containers.Keys <= todo
        invariant forall id | id in containers ::
                    containers[id] == old(containers)[id] || containers[id] == old(containers)[id].(running := false)
        decreases todo
      {
        var id :| id in todo;
        todo := todo - {id};
        Elsewhere();
        if id in containers && containers[id].generation == r.generation {
          if Suits(containers[id], r, configured, nano) {
            if !containers[id].running {
              Elsewhere();
              if id !in containers {
                return Failed;
              }
              containers := containers[id := containers[id].(running := true)];
            }
            return Ready(id);
          }
          var removed := Remove(id);
          return if removed then Missing else Failed;
        }
        var removed := Remove(id);
        if !removed {
          return Failed;
        }
      }
      o := Missing;
    }

    /**
     * The launch of `_ensure_unlocked`, which fails when the new container is gone before it is looked
     * at. The daemon may fail; it keeps labels and runtime as given and may not report the runtime;
     * `made` is what it makes of the bounds.
     */
    method Launch(r: Request, nano: Float -> nat, local: bool, made: Option<HostConfig>, reported: bool) returns (o: Result)
      requires Valid()
      modifies this
      ensures Valid() && o != Missing
      ensures containers.Keys <= old(containers).Keys + {old(nextId)}
      ensures o.Ready? ==>
                && o.id == old(nextId) && o.id in containers && Suits(containers[o.id], r, configured, nano)
                && made == Some(containers[o.id].host)
                && local && r.runtime == configured
    {
      hide MatchesBounds, Fingerprint;
      if r.runtime != configured || !local || made.None? {
        return Failed;
      }
      Elsewhere();
      var id := nextId;
      nextId := nextId + 1;
      var runtime := if reported then Some(configured) else None;
      containers := containers[id := Container(r.generation, Fingerprint(r.policy), made.value, runtime, true)];
      Elsewhere();
      if id !in containers {
        return Failed;
      }
      if !MatchesBounds(containers[id].host, r.policy, nano) {
        var removed := Remove(id);
        return Failed;
      }
      o := Ready(id);
    }

    /**
     * `_ensure_unlocked`: reuses a suitable container or replaces the session's by a new one. `local`
     * says that the image is on the host. However teardown interferes and whatever fails, a session
     * that has at most one container keeps at most one.
     */
    method Ensure(r: Request, nano: Float -> nat, local: bool, made: Option<HostConfig>, reported: bool) returns (o: Result)
      requires Valid()
      modifies this
      ensures Valid() && o != Missing
      ensures |containers| <= if old(containers) == map[] then 1 else |old(containers)|
      ensures o.Ready? ==> o.id in old(containers) || o.id in containers
      ensures o.Ready? ==>
                var c := if o.id in old(containers) then old(containers)[o.id] else containers[o.id];
                && c.generation == r.generation && c.fingerprint == Fingerprint(r.policy)
                && (c.runtime == None || c.runtime == Some(configured))
                && MatchesBounds(c.host, r.policy, nano)
      ensures o.Ready? && o.id !in old(containers) ==>
                && r.runtime == configured && local
                && (|old(containers)| <= 1 ==> containers.Keys == {o.id})
    {
      hide MatchesBounds, Fingerprint, Suits;
      ghost var before := containers.Keys;
      o := Reuse(r, nano);
      SubsetSize(containers.Keys, before);
      if o.Ready? {
        SuitsMeans(old(containers)[o.id], r, configured, nano);
      }
      if o == Missing {
        ghost var left, id := containers.Keys, nextId;
        o := Launch(r, nano, local, made, reported);
        OneForAnother(before, left, containers.Keys, id);
        if o.Ready? {
          SuitsMeans(containers[o.id], r, configured, nano);
        }
      }
    }
  }
}
