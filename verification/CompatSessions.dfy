/**
 `CompatSessionManager`, crates/redis-web-runtime/src/compat.rs:94-165: first the methods as they
 run undisturbed, then every interleaving of their steps, split where the locks are released.
 */
module CompatSessions {
  import opened Bytes

  type Id = nat
  type Task = nat

  datatype Config = Config(maxSessions: nat, ttl: nat)

  /** `saturating_duration_since`. */
  function Idle(now: nat, last: nat): (d: nat) { if now >= last then now - last else 0 }

  // ---------------------------------------------------------------------------------------
  // Undisturbed methods
  // ---------------------------------------------------------------------------------------

  datatype Creation = Created | LimitReached | BackendUnavailable

  /** The sessions a sweep leaves in place when the clock shows `clock(id)` as it comes to session `id`. */
  function Fresh(sessions: map<Id, nat>, ttl: nat, clock: Id -> nat): (r: map<Id, nat>)
  {
    map id | id in sessions && Idle(clock(id), sessions[id]) <= ttl :: sessions[id]
  }

  class Manager {
    const config: Config
    /** Stored sessions, each with its last access. */
    var sessions: map<Id, nat>

    constructor (config: Config)
      ensures this.config == config && sessions == map[]
    {
      this.config := config;
      sessions := map[];
    }

    method SweepExpired(clock: Id -> nat)
      modifies this
      ensures sessions == Fresh(old(sessions), config.ttl, clock)
    {
      var expired: set<Id>, unseen := {}, sessions.Keys;
      while unseen != {}
        invariant unseen <= sessions.Keys && sessions == old(sessions)
        invariant expired == set id | id in sessions && id !in unseen && Idle(clock(id), sessions[id]) > config.ttl
        decreases unseen
      {
        var id :| id in unseen;
        if Idle(clock(id), sessions[id]) > config.ttl {
          expired := expired + {id};
        }
        unseen := unseen - {id};
      }
      if expired == {} {
        assert forall id :: id in sessions && Idle(clock(id), sessions[id]) > config.ttl ==> id in expired;
        assert sessions == Fresh(sessions, config.ttl, clock);
        return;
      }
      while expired != {}
        invariant expired <= old(sessions).Keys
        invariant sessions.Keys == Fresh(old(sessions), config.ttl, clock).Keys + expired
        invariant forall id :: id in sessions ==> sessions[id] == old(sessions)[id]
        invariant forall id :: id in expired ==> Idle(clock(id), old(sessions)[id]) > config.ttl
        decreases expired
      {
        var id :| id in expired;
        sessions := sessions - {id};
        expired := expired - {id};
      }
    }

    /**
     A lookup succeeds exactly on a stored session that the sweep sees idle for at most the TTL, and
     renews it to `now`.
     */
    method GetSession(id: Id, clock: Id -> nat, now: nat) returns (found: bool)
      modifies this
      ensures found <==> id in old(sessions) && Idle(clock(id), old(sessions)[id]) <= config.ttl
      ensures sessions == if found then Fresh(old(sessions), config.ttl, clock)[id := now]
                          else Fresh(old(sessions), config.ttl, clock)
    {
      SweepExpired(clock);
      found := id in sessions;
      if found {
        sessions := sessions[id := now];
      }
    }

    /** Undisturbed creation never exceeds the limit, and fails on it exactly when unexpired sessions fill it. */
    method CreateSession(id: Id, clock: Id -> nat, now: nat, connects: bool) returns (r: Creation)
      requires id !in sessions
      modifies this
      ensures var kept := Fresh(old(sessions), config.ttl, clock);
              && (r == LimitReached <==> |kept| >= config.maxSessions)
              && (r == BackendUnavailable <==> |kept| < config.maxSessions && !connects)
              && sessions == (if r == Created then kept[id := now] else kept)
      ensures |old(sessions)| <= config.maxSessions ==> |sessions| <= config.maxSessions
    {
      SweepExpired(clock);
      FreshShrinks(old(sessions), config.ttl, clock);
      if |sessions| >= config.maxSessions {
        return LimitReached;
      }
      if !connects {
        return BackendUnavailable;
      }
      assert |sessions[id := now].Keys| == |sessions.Keys + {id}|;
      sessions := sessions[id := now];
      return Created;
    }

    method RemoveSession(id: Id) returns (removed: bool)
      modifies this
      ensures removed <==> id in old(sessions)
      ensures sessions == old(sessions) - {id}
    {
      removed := id in sessions;
      sessions := sessions - {id};
    }
  }

  lemma FreshShrinks(sessions: map<Id, nat>, ttl: nat, clock: Id -> nat)
    ensures |Fresh(sessions, ttl, clock)| <= |sessions|
  {
    SubsetSize(Fresh(sessions, ttl, clock).Keys, sessions.Keys);
  }

  // ---------------------------------------------------------------------------------------
  // All interleavings
  // ---------------------------------------------------------------------------------------

  datatype Purpose = ToCreate | ToGet(id: Id)

  /** Where a call of `create_session` or `get_session` stands. */
  datatype Phase =
    | Scanning(why: Purpose, unseen: set<Id>, expired: set<Id>)  // read lock held, sessions examined one by one
    | Collected(why: Purpose, expired: set<Id>)                  // read lock released, write lock not yet taken
    | Swept(why: Purpose)                                        // sweep over
    | Admitted                                                   // limit checked, backend connecting
    | Connected(created: nat)                                    // session built, write lock not yet taken

  /**
   `last` covers every session ever created, for a handle outlives its table entry; `held` are the
   sessions some caller has got a handle of.
   */
  datatype State = State(now: nat, table: set<Id>, last: map<Id, nat>, held: set<Id>, tasks: map<Task, Phase>)

  datatype Step =
    | Tick(d: nat)
    | Begin(t: Task, why: Purpose)
    | Examine(t: Task, id: Id)
    | Release(t: Task)
    | Expunge(t: Task)
    | Admit(t: Task)
    | Reject(t: Task)
    | Connect(t: Task)
    | Insert(t: Task, id: Id)
    | ConnectFails(t: Task)
    | Lookup(t: Task)
    | Touch(id: Id)
    | Delete(id: Id)

  const INIT: State := State(0, {}, map[], {}, map[])

  /** No sweep holds the read lock, so the write lock can be taken. */
  predicate Writable(s: State)
  {
    forall t :: t in s.tasks ==> !s.tasks[t].Scanning?
  }

  predicate Enabled(c: Config, s: State, step: Step)
  {
    match step
    case Tick(_) => true
    case Begin(t, _) => t !in s.tasks
    case Examine(t, id) => t in s.tasks && s.tasks[t].Scanning? && id in s.tasks[t].unseen && id in s.last
    case Release(t) => t in s.tasks && s.tasks[t].Scanning? && s.tasks[t].unseen == {}
    case Expunge(t) => t in s.tasks && s.tasks[t].Collected? && (s.tasks[t].expired == {} || Writable(s))
    case Admit(t) => t in s.tasks && s.tasks[t] == Swept(ToCreate) && |s.table| < c.maxSessions
    case Reject(t) => t in s.tasks && s.tasks[t] == Swept(ToCreate) && |s.table| >= c.maxSessions
    case Connect(t) => t in s.tasks && s.tasks[t].Admitted?
    case Insert(t, id) => t in s.tasks && s.tasks[t].Connected? && id !in s.last && Writable(s)
    case ConnectFails(t) => t in s.tasks && s.tasks[t].Admitted?
    case Lookup(t) => t in s.tasks && s.tasks[t].Swept? && s.tasks[t].why.ToGet?
    case Touch(id) => id in s.held
    case Delete(id) => Writable(s)
  }

  function After(c: Config, s: State, step: Step): (r: State)
    requires Enabled(c, s, step)
  {
    match step
    case Tick(d) => s.(now := s.now + d)
    case Begin(t, why) => s.(tasks := s.tasks[t := Scanning(why, s.table, {})])
    case Examine(t, id) =>
      var p := s.tasks[t];
      var expired := if Idle(s.now, s.last[id]) > c.ttl then p.expired + {id} else p.expired;
      s.(tasks := s.tasks[t := p.(unseen := p.unseen - {id}, expired := expired)])
    case Release(t) => s.(tasks := s.tasks[t := Collected(s.tasks[t].why, s.tasks[t].expired)])
    case Expunge(t) =>
      s.(table := s.table - s.tasks[t].expired, tasks := s.tasks[t := Swept(s.tasks[t].why)])
    case Admit(t) => s.(tasks := s.tasks[t := Admitted])
    case Reject(t) => s.(tasks := s.tasks - {t})
    case Connect(t) => s.(tasks := s.tasks[t := Connected(s.now)])
    case Insert(t, id) =>
      s.(table := s.table + {id}, last := s.last[id := s.tasks[t].created], tasks := s.tasks - {t})
    case ConnectFails(t) => s.(tasks := s.tasks - {t})
    case Lookup(t) =>
      var id := s.tasks[t].why.id;
      s.(held := if id in s.table then s.held + {id} else s.held, tasks := s.tasks - {t})
    case Touch(id) => s.(last := s.last[id := s.now])
    case Delete(id) => s.(table := s.table - {id})
  }

  /** A run is a list of steps, each enabled where it is taken. */
  predicate Legal(c: Config, steps: seq<Step>)
    decreases |steps|, 0
  {
    steps == [] || (Legal(c, Front(steps)) && Enabled(c, At(c, Front(steps)), steps[|steps| - 1]))
  }

  function Front(steps: seq<Step>): (r: seq<Step>)
    requires steps != []
  {
    steps[..|steps| - 1]
  }

  /** The state after a legal run from the start. */
  function At(c: Config, steps: seq<Step>): (s: State)
    requires Legal(c, steps)
    decreases |steps|, 1
  {
    if steps == [] then INIT else After(c, At(c, Front(steps)), steps[|steps| - 1])
  }

  lemma {:induction false} LegalPrefix(c: Config, steps: seq<Step>, n: nat)
    requires Legal(c, steps) && n <= |steps|
    ensures Legal(c, steps[..n])
    decreases |steps|
  {
    if n == |steps| {
      assert steps[..n] == steps;
    } else {
      LegalPrefix(c, Front(steps), n);
      assert Front(steps)[..n] == steps[..n];
    }
  }

  /** The creations that have passed the limit check and not yet inserted or failed. */
  function Pending(s: State): (r: set<Task>)
  {
    set t | t in s.tasks && (s.tasks[t].Admitted? || s.tasks[t].Connected?)
  }

  // ---------------------------------------------------------------------------------------
  // The limit
  // ---------------------------------------------------------------------------------------

  /** At most `k` creations are pending at any moment of the run. */
  ghost predicate AtMostPending(c: Config, steps: seq<Step>, k: nat)
    requires Legal(c, steps)
    decreases |steps|
  {
    |Pending(At(c, steps))| <= k && (steps == [] || AtMostPending(c, Front(steps), k))
  }

  function Bound(c: Config, k: nat): (b: nat)
  {
    if c.maxSessions == 0 then 0 else c.maxSessions - 1 + k
  }

  /**
   Every stored or held session exists, and an unfinished sweep only knows sessions that do.
   */
  ghost predicate Sound(s: State)
  {
    && s.table <= s.last.Keys && s.held <= s.last.Keys
    && forall t :: t in s.tasks && s.tasks[t].Scanning? ==> s.tasks[t].unseen <= s.last.Keys
  }

  lemma StepSound(c: Config, s: State, step: Step)
    requires Sound(s) && Enabled(c, s, step)
    ensures Sound(After(c, s, step))
  {}

  /** Only `Insert` adds a session and only `Admit` adds a pending creation. */
  lemma StepShrinks(c: Config, s: State, step: Step)
    requires Enabled(c, s, step) && !step.Admit? && !step.Insert?
    ensures var r := After(c, s, step); r.table <= s.table && Pending(r) <= Pending(s)
  {}

  lemma StepBound(c: Config, s: State, step: Step, k: nat)
    requires Sound(s) && Enabled(c, s, step)
    requires |s.table| + |Pending(s)| <= Bound(c, k) && |Pending(After(c, s, step))| <= k
    ensures var r := After(c, s, step); |r.table| + |Pending(r)| <= Bound(c, k)
  {
    var r := After(c, s, step);
    if step.Insert? {
      assert Pending(r) == Pending(s) - {step.t} && step.t in Pending(s);
    } else if !step.Admit? {
      StepShrinks(c, s, step);
      SubsetSize(r.table, s.table);
      SubsetSize(Pending(r), Pending(s));
    }
  }

  /**
   Over every interleaving of creations, failed connects, lookups, deletes and sweeps with at most
   `k` creations pending at once, stored plus pending sessions never exceed `maxSessions - 1 + k`
   (nothing at all when the limit is zero).
   */
  lemma {:induction false} SessionBound(c: Config, steps: seq<Step>, k: nat)
    requires Legal(c, steps) && AtMostPending(c, steps, k)
    ensures Sound(At(c, steps))
    ensures |At(c, steps).table| + |Pending(At(c, steps))| <= Bound(c, k)
    decreases |steps|
  {
    if steps != [] {
      SessionBound(c, Front(steps), k);
      StepSound(c, At(c, Front(steps)), steps[|steps| - 1]);
      StepBound(c, At(c, Front(steps)), steps[|steps| - 1], k);
    } else {
      assert Pending(INIT) == {};
    }
  }

  // ---------------------------------------------------------------------------------------
  // Expiry
  // ---------------------------------------------------------------------------------------

  /** Step `j` of the run is the one where task `t` saw session `id` idle for longer than the TTL. */
  ghost predicate SawExpired(c: Config, steps: seq<Step>, t: Task, id: Id, j: nat)
    requires Legal(c, steps) && j < |steps|
  {
    LegalPrefix(c, steps, j);
    var s := At(c, steps[..j]);
    && steps[j] == Examine(t, id)
    && id in s.last && Idle(s.now, s.last[id]) > c.ttl
  }

  /** Task `t` has not started another sweep since step `j`. */
  predicate SameSweep(steps: seq<Step>, t: Task, j: nat)
  {
    forall i :: j < i < |steps| ==> !(steps[i].Begin? && steps[i].t == t)
  }

  ghost predicate Witnessed(c: Config, steps: seq<Step>, t: Task, id: Id)
    requires Legal(c, steps)
  {
    exists j :: 0 <= j < |steps| && SawExpired(c, steps, t, id, j) && SameSweep(steps, t, j)
  }

  lemma WitnessedLater(c: Config, steps: seq<Step>, t: Task, id: Id)
    requires steps != [] && Legal(c, steps) && Witnessed(c, Front(steps), t, id)
    requires !(steps[|steps| - 1].Begin? && steps[|steps| - 1].t == t)
    ensures Witnessed(c, steps, t, id)
  {
    var j :| 0 <= j < |Front(steps)| && SawExpired(c, Front(steps), t, id, j) && SameSweep(Front(steps), t, j);
    assert Front(steps)[..j] == steps[..j];
    assert SawExpired(c, steps, t, id, j) && SameSweep(steps, t, j);
  }

  function Doomed(s: State, t: Task): (r: set<Id>)
  {
    if t in s.tasks && (s.tasks[t].Scanning? || s.tasks[t].Collected?) then s.tasks[t].expired else {}
  }

  /** Everything a sweep is about to remove was seen expired by that sweep's read phase. */
  lemma {:induction false} DoomedWitnessed(c: Config, steps: seq<Step>, t: Task, id: Id)
    requires Legal(c, steps) && id in Doomed(At(c, steps), t)
    ensures Witnessed(c, steps, t, id)
    decreases |steps|
  {
    var s, last := At(c, Front(steps)), steps[|steps| - 1];
    if id in Doomed(s, t) {
      DoomedWitnessed(c, Front(steps), t, id);
      WitnessedLater(c, steps, t, id);
    } else {
      assert last == Examine(t, id);
      assert steps[..|steps| - 1] == Front(steps);
      assert SawExpired(c, steps, t, id, |steps| - 1) && SameSweep(steps, t, |steps| - 1);
    }
  }

  /**
   In every run, a session leaves the table only by an explicit delete, or by a sweep whose read
   phase saw it idle for strictly longer than the TTL.
   */
  lemma RemovalJustified(c: Config, steps: seq<Step>, id: Id)
    requires steps != [] && Legal(c, steps)
    requires id in At(c, Front(steps)).table && id !in At(c, steps).table
    ensures var last := steps[|steps| - 1];
            last == Delete(id) || (last.Expunge? && Witnessed(c, Front(steps), last.t, id))
  {
    var last := steps[|steps| - 1];
    if last != Delete(id) {
      DoomedWitnessed(c, Front(steps), last.t, id);
    }
  }

  predicate Sweeping(s: State, t: Task)
  {
    t in s.tasks && (s.tasks[t].Scanning? || s.tasks[t].Collected?)
  }

  lemma WitnessedEarlier(c: Config, steps: seq<Step>, t: Task, id: Id, j: nat)
    requires steps != [] && Legal(c, steps) && j < |steps| - 1
    requires SawExpired(c, steps, t, id, j) && SameSweep(steps, t, j)
    ensures Witnessed(c, Front(steps), t, id)
  {
    assert Front(steps)[..j] == steps[..j];
    assert SawExpired(c, Front(steps), t, id, j) && SameSweep(Front(steps), t, j);
  }

  /** A sweep forgets nothing: what its read phase saw expired it is about to remove. */
  lemma {:induction false} WitnessedDoomed(c: Config, steps: seq<Step>, t: Task, id: Id)
    requires Legal(c, steps) && Sweeping(At(c, steps), t) && Witnessed(c, steps, t, id)
    ensures id in Doomed(At(c, steps), t)
    decreases |steps|
  {
    var j :| 0 <= j < |steps| && SawExpired(c, steps, t, id, j) && SameSweep(steps, t, j);
    var s, last := At(c, Front(steps)), steps[|steps| - 1];
    assert steps[..|steps| - 1] == Front(steps);
    if j < |steps| - 1 {
      hide SawExpired, Witnessed;
      WitnessedEarlier(c, steps, t, id, j);
      assert !(last.Begin? && last.t == t);
      DoomedLater(c, s, last, t);
      WitnessedDoomed(c, Front(steps), t, id);
    }
  }

  lemma DoomedLater(c: Config, s: State, step: Step, t: Task)
    requires Enabled(c, s, step) && !(step.Begin? && step.t == t) && Sweeping(After(c, s, step), t)
    ensures Sweeping(s, t) && Doomed(s, t) <= Doomed(After(c, s, step), t)
  {}

  /**
   When a sweep takes the write lock, a stored session leaves the table if and only if that sweep's
   read phase saw it expired, whatever has been done with it since.
   */
  lemma ExpungeExactly(c: Config, steps: seq<Step>, t: Task, id: Id)
    requires steps != [] && Legal(c, steps) && steps[|steps| - 1] == Expunge(t)
    requires id in At(c, Front(steps)).table
    ensures id !in At(c, steps).table <==> Witnessed(c, Front(steps), t, id)
  {
    hide Witnessed;
    if id !in At(c, steps).table {
      DoomedWitnessed(c, Front(steps), t, id);
    } else if Witnessed(c, Front(steps), t, id) {
      WitnessedDoomed(c, Front(steps), t, id);
    }
  }

  /** The time at which step `i` of the run is taken. */
  function TimeOf(c: Config, steps: seq<Step>, i: nat): (now: nat)
    requires Legal(c, steps) && i <= |steps|
  {
    LegalPrefix(c, steps, i);
    At(c, steps[..i]).now
  }

  lemma TimeInFront(c: Config, steps: seq<Step>, i: nat)
    requires steps != [] && Legal(c, steps) && i < |steps|
    ensures TimeOf(c, steps, i) == TimeOf(c, Front(steps), i)
  {
    assert Front(steps)[..i] == steps[..i];
  }

  predicate UsedAt(steps: seq<Step>, id: Id, i: nat) requires i < |steps| { steps[i] == Touch(id) }

  /** The last access is that of the starting point or of the latest use since. */
  ghost predicate LastAccess(c: Config, steps: seq<Step>, id: Id, j: nat, start: nat)
    requires Legal(c, steps) && j <= |steps|
  {
    && id in At(c, steps).last
    && (forall i :: j <= i < |steps| && UsedAt(steps, id, i) ==> TimeOf(c, steps, i) <= At(c, steps).last[id])
    && (At(c, steps).last[id] == start
        || exists i :: j <= i < |steps| && UsedAt(steps, id, i) && At(c, steps).last[id] == TimeOf(c, steps, i))
    && (forall i :: j <= i <= |steps| ==> TimeOf(c, steps, i) <= At(c, steps).now)
  }

  lemma LastAfter(c: Config, s: State, step: Step, id: Id)
    requires Enabled(c, s, step) && id in s.last
    ensures var r := After(c, s, step); id in r.last && r.last[id] == if step == Touch(id) then s.now else s.last[id]
  {}

  lemma LastAccessStep(c: Config, steps: seq<Step>, id: Id, j: nat, start: nat)
    requires steps != [] && Legal(c, steps) && j < |steps| && LastAccess(c, Front(steps), id, j, start)
    ensures LastAccess(c, steps, id, j, start)
  {
    hide TimeOf, Legal, At, After, Enabled;
    var n := |steps| - 1;
    var s, r := AtLast(c, steps);
    LastAfter(c, s, steps[n], id);
    forall i | j <= i < |steps|
      ensures TimeOf(c, steps, i) == TimeOf(c, Front(steps), i) <= s.now
      ensures i < n ==> UsedAt(steps, id, i) == UsedAt(Front(steps), id, i)
    {
      TimeInFront(c, steps, i);
    }
    if steps[n] == Touch(id) {
      assert UsedAt(steps, id, n) && r.last[id] == TimeOf(c, steps, n);
    } else {
      assert r.last[id] == s.last[id];
      if s.last[id] != start {
        var i :| j <= i < n && UsedAt(Front(steps), id, i) && s.last[id] == TimeOf(c, Front(steps), i);
        assert UsedAt(steps, id, i) && r.last[id] == TimeOf(c, steps, i);
      }
    }
  }

  /** The last two states of a run. */
  lemma AtLast(c: Config, steps: seq<Step>) returns (s: State, r: State)
    requires steps != [] && Legal(c, steps)
    ensures Legal(c, Front(steps)) && s == At(c, Front(steps)) && r == At(c, steps)
    ensures Enabled(c, s, steps[|steps| - 1]) && r == After(c, s, steps[|steps| - 1])
    ensures TimeOf(c, steps, |steps| - 1) == s.now && TimeOf(c, steps, |steps|) == r.now && s.now <= r.now
  {
    s, r := At(c, Front(steps)), At(c, steps);
    assert steps[..|steps| - 1] == Front(steps) && steps[..|steps|] == steps;
  }

  lemma {:induction false} LastAccessKnown(c: Config, steps: seq<Step>, id: Id, j: nat)
    requires Legal(c, steps) && j <= |steps| && Legal(c, steps[..j]) && id in At(c, steps[..j]).last
    ensures LastAccess(c, steps, id, j, At(c, steps[..j]).last[id])
    decreases |steps|
  {
    if j == |steps| {
      assert steps[..j] == steps;
    } else {
      assert Front(steps)[..j] == steps[..j];
      LastAccessKnown(c, Front(steps), id, j);
      LastAccessStep(c, steps, id, j, At(c, steps[..j]).last[id]);
    }
  }

  /** The session has been used since step `j`, no longer ago than the TTL. */
  ghost predicate UsedLately(c: Config, steps: seq<Step>, id: Id, j: nat)
    requires Legal(c, steps)
  {
    exists i :: j <= i < |steps| && UsedAt(steps, id, i) && At(c, steps).now - TimeOf(c, steps, i) <= c.ttl
  }

  /**
   A session seen expired at step `j` is still expired later if and only if it has not been used
   since then within the last TTL.
   */
  lemma StillIdleExactly(c: Config, steps: seq<Step>, t: Task, id: Id, j: nat)
    requires Legal(c, steps) && j < |steps| && SawExpired(c, steps, t, id, j)
    ensures id in At(c, steps).last
    ensures Idle(At(c, steps).now, At(c, steps).last[id]) > c.ttl <==> !UsedLately(c, steps, id, j)
  {
    hide Legal, At, UsedAt;
    LegalPrefix(c, steps, j);
    LastAccessKnown(c, steps, id, j);
    var now, last := At(c, steps).now, At(c, steps).last[id];
    assert TimeOf(c, steps, j) <= now;
    if last != At(c, steps[..j]).last[id] {
      var i :| j <= i < |steps| && UsedAt(steps, id, i) && last == TimeOf(c, steps, i);
      assert TimeOf(c, steps, i) <= now;
    }
  }

  // ---------------------------------------------------------------------------------------
  // What is stored, by the steps alone
  // ---------------------------------------------------------------------------------------

  predicate Inserts(step: Step, id: Id) { step.Insert? && step.id == id }

  /** Step `i` takes the session out: a delete, or a sweep that saw it expired. */
  ghost predicate TakesOut(c: Config, steps: seq<Step>, i: nat, id: Id)
    requires Legal(c, steps) && i < |steps|
  {
    LegalPrefix(c, steps, i);
    steps[i] == Delete(id) || (steps[i].Expunge? && Witnessed(c, steps[..i], steps[i].t, id))
  }

  /** Step `i` stored the session and no later step has taken it out. */
  ghost predicate StoredSince(c: Config, steps: seq<Step>, i: nat, id: Id)
    requires Legal(c, steps) && i < |steps|
  {
    Inserts(steps[i], id) && forall k :: i < k < |steps| ==> !TakesOut(c, steps, k, id)
  }

  lemma TakesOutInFront(c: Config, steps: seq<Step>, i: nat, id: Id)
    requires steps != [] && Legal(c, steps) && i < |steps| - 1
    ensures TakesOut(c, steps, i, id) <==> TakesOut(c, Front(steps), i, id)
  {
    hide Witnessed, Legal;
    LegalPrefix(c, steps, |steps| - 1);
    assert steps[..|steps| - 1] == Front(steps);
    LegalPrefix(c, steps, i);
    assert Front(steps)[..i] == steps[..i];
  }

  lemma StoredInFront(c: Config, steps: seq<Step>, i: nat, id: Id)
    requires steps != [] && Legal(c, steps) && i < |steps| - 1
    ensures StoredSince(c, steps, i, id) <==> StoredSince(c, Front(steps), i, id) && !TakesOut(c, steps, |steps| - 1, id)
  {
    hide TakesOut, Legal;
    var n := |steps| - 1;
    LegalPrefix(c, steps, n);
    assert steps[..n] == Front(steps);
    forall k | i < k < n
      ensures TakesOut(c, steps, k, id) <==> TakesOut(c, Front(steps), k, id)
    {
      TakesOutInFront(c, steps, k, id);
    }
  }

  /** What one step does to the table, given what the run before it saw. */
  lemma TableStep(c: Config, steps: seq<Step>, id: Id)
    requires steps != [] && Legal(c, steps)
    ensures var last := steps[|steps| - 1];
            id in At(c, steps).table <==>
            Inserts(last, id) || (id in At(c, Front(steps)).table && !TakesOut(c, steps, |steps| - 1, id))
  {
    hide Witnessed;
    var n := |steps| - 1;
    assert steps[..n] == Front(steps);
    if steps[n].Expunge? && id in At(c, Front(steps)).table {
      ExpungeExactly(c, steps, steps[n].t, id);
    }
  }

  /** In every run a session is stored exactly when some step inserted it and none has taken it out since. */
  lemma {:induction false} TableExactly(c: Config, steps: seq<Step>, id: Id)
    requires Legal(c, steps)
    ensures id in At(c, steps).table <==> exists i :: 0 <= i < |steps| && StoredSince(c, steps, i, id)
    decreases |steps|
  {
    if steps != [] {
      var n := |steps| - 1;
      hide At, TakesOut, Legal, StoredSince;
      assert Legal(c, Front(steps)) by { LegalPrefix(c, steps, n); }
      TableExactly(c, Front(steps), id);
      TableStep(c, steps, id);
      forall i | 0 <= i < n
        ensures StoredSince(c, steps, i, id) <==> StoredSince(c, Front(steps), i, id) && !TakesOut(c, steps, n, id)
      {
        StoredInFront(c, steps, i, id);
      }
      StoredNow(c, steps, id);
    }
  }

  lemma StoredNow(c: Config, steps: seq<Step>, id: Id)
    requires steps != [] && Legal(c, steps)
    ensures StoredSince(c, steps, |steps| - 1, id) <==> Inserts(steps[|steps| - 1], id)
  {}

  /** The step ends the call that task `t` makes. */
  predicate EndsCall(step: Step, t: Task)
  {
    (step.Reject? || step.Insert? || step.ConnectFails? || step.Lookup?) && step.t == t
  }

  predicate BeganAt(steps: seq<Step>, i: nat, t: Task)
    requires i < |steps|
  {
    steps[i].Begin? && steps[i].t == t && forall k :: i < k < |steps| ==> !EndsCall(steps[k], t)
  }

  /** A call is in progress exactly from its first step to the one that rejects, inserts, fails or answers. */
  lemma {:induction false} InProgressExactly(c: Config, steps: seq<Step>, t: Task)
    requires Legal(c, steps)
    ensures t in At(c, steps).tasks <==> exists i :: 0 <= i < |steps| && BeganAt(steps, i, t)
    decreases |steps|
  {
    if steps != [] {
      var n := |steps| - 1;
      var s, r := AtLast(c, steps);
      InProgressExactly(c, Front(steps), t);
      TasksAfter(c, s, steps[n], t);
      hide At, After, Enabled, Legal;
      forall i | 0 <= i < n
        ensures BeganAt(steps, i, t) <==> BeganAt(Front(steps), i, t) && !EndsCall(steps[n], t)
      {}
      assert BeganAt(steps, n, t) <==> steps[n].Begin? && steps[n].t == t;
    }
  }

  lemma TasksAfter(c: Config, s: State, step: Step, t: Task)
    requires Enabled(c, s, step)
    ensures t in After(c, s, step).tasks <==> (t in s.tasks && !EndsCall(step, t)) || (step.Begin? && step.t == t)
  {}

  /** Step `i` answers a call that asked for the session, and finds it stored. */
  ghost predicate FoundAt(c: Config, steps: seq<Step>, i: nat, id: Id)
    requires Legal(c, steps) && i < |steps|
  {
    LegalPrefix(c, steps, i);
    var s := At(c, steps[..i]);
    && steps[i].Lookup? && steps[i].t in s.tasks && s.tasks[steps[i].t] == Swept(ToGet(id)) && id in s.table
  }

  /** A session is held exactly when some lookup has found it. */
  lemma {:induction false} HeldExactly(c: Config, steps: seq<Step>, id: Id)
    requires Legal(c, steps)
    ensures id in At(c, steps).held <==> exists i :: 0 <= i < |steps| && FoundAt(c, steps, i, id)
    decreases |steps|
  {
    if steps != [] {
      var n := |steps| - 1;
      var s, r := AtLast(c, steps);
      HeldExactly(c, Front(steps), id);
      HeldAfter(c, s, steps[n], id);
      assert steps[..n] == Front(steps);
      hide After, Enabled, Legal, At;
      forall i | 0 <= i < n
        ensures FoundAt(c, steps, i, id) <==> FoundAt(c, Front(steps), i, id)
      {
        assert Front(steps)[..i] == steps[..i];
      }
      assert FoundAt(c, steps, n, id) <==> steps[n].Lookup? && s.tasks[steps[n].t] == Swept(ToGet(id)) && id in s.table;
    }
  }

  lemma HeldAfter(c: Config, s: State, step: Step, id: Id)
    requires Enabled(c, s, step)
    ensures step.Lookup? ==> step.t in s.tasks
    ensures id in After(c, s, step).held <==>
            id in s.held || (step.Lookup? && s.tasks[step.t] == Swept(ToGet(id)) && id in s.table)
  {}

  /** Step `i` is the task's last `Connect`, and the clock showed `created`. */
  ghost predicate ConnectedAt(c: Config, steps: seq<Step>, t: Task, created: nat, i: nat)
    requires Legal(c, steps) && i < |steps|
  {
    && steps[i] == Connect(t) && TimeOf(c, steps, i) == created
    && forall k :: i < k < |steps| ==> steps[k] != Connect(t)
  }

  /** A built session carries the time at which its task connected. */
  lemma {:induction false} BuiltWhenConnected(c: Config, steps: seq<Step>, t: Task)
    requires Legal(c, steps) && t in At(c, steps).tasks && At(c, steps).tasks[t].Connected?
    ensures exists i :: 0 <= i < |steps| && ConnectedAt(c, steps, t, At(c, steps).tasks[t].created, i)
    decreases |steps|
  {
    var n := |steps| - 1;
    var s, r := AtLast(c, steps);
    var created := r.tasks[t].created;
    if steps[n] == Connect(t) {
      assert ConnectedAt(c, steps, t, created, n);
    } else {
      BuiltWhenConnected(c, Front(steps), t);
      var i :| 0 <= i < n && ConnectedAt(c, Front(steps), t, created, i);
      TimeInFront(c, steps, i);
      assert ConnectedAt(c, steps, t, created, i);
    }
  }

  /** So a session's first last access is the time its creator connected, however late it is inserted. */
  lemma FirstAccess(c: Config, steps: seq<Step>, t: Task, id: Id)
    requires steps != [] && Legal(c, steps) && steps[|steps| - 1] == Insert(t, id)
    ensures id in At(c, steps).last
    ensures exists i :: 0 <= i < |steps| - 1 && ConnectedAt(c, Front(steps), t, At(c, steps).last[id], i)
  {
    BuiltWhenConnected(c, Front(steps), t);
  }

  /** How many steps of a run satisfy `p`. */
  function Count(steps: seq<Step>, p: Step -> bool): (n: nat)
  {
    if steps == [] then 0 else Count(Front(steps), p) + (if p(steps[|steps| - 1]) then 1 else 0)
  }

  /** Every admitted creation is inserted, fails, or is still pending. */
  lemma {:induction false} PendingBalanced(c: Config, steps: seq<Step>)
    requires Legal(c, steps)
    ensures Count(steps, (s: Step) => s.Admit?)
         == |Pending(At(c, steps))| + Count(steps, (s: Step) => s.Insert?) + Count(steps, (s: Step) => s.ConnectFails?)
    decreases |steps|
  {
    if steps == [] {
      assert Pending(INIT) == {};
    } else {
      PendingBalanced(c, Front(steps));
      PendingStep(c, At(c, Front(steps)), steps[|steps| - 1]);
    }
  }

  lemma PendingStep(c: Config, s: State, step: Step)
    requires Enabled(c, s, step)
    ensures |Pending(After(c, s, step))|
         == |Pending(s)| + (if step.Admit? then 1 else 0) - (if step.Insert? || step.ConnectFails? then 1 else 0)
  {
    hide Pending, After, Enabled;
    PendingMoves(c, s, step);
  }

  lemma PendingMoves(c: Config, s: State, step: Step)
    requires Enabled(c, s, step)
    ensures var r := After(c, s, step);
            if step.Admit? then Pending(r) == Pending(s) + {step.t} && step.t !in Pending(s)
            else if step.Insert? || step.ConnectFails? then Pending(r) == Pending(s) - {step.t} && step.t in Pending(s)
            else Pending(r) == Pending(s)
  {}

  /** Task `t` takes the step. */
  predicate IsStepOf(step: Step, t: Task)
  {
    match step
    case Tick(_) => false
    case Touch(_) => false
    case Delete(_) => false
    case _ => step.t == t
  }

  /** Needs the write lock next. */
  predicate WantsWrite(p: Phase) { p.Connected? || (p.Collected? && p.expired != {}) }

  /** A call in progress can always go on, except while a sweep's read phase keeps it from the write lock. */
  lemma TaskProgress(c: Config, s: State, t: Task)
    requires Sound(s) && t in s.tasks
    ensures (exists step :: IsStepOf(step, t) && Enabled(c, s, step)) <==> !WantsWrite(s.tasks[t]) || Writable(s)
  {
    var p := s.tasks[t];
    if !WantsWrite(p) || Writable(s) {
      var id := Unused(s.last.Keys);
      var step :=
        match p
        case Scanning(_, unseen, _) => if unseen == {} then Release(t) else (var x :| x in unseen; Examine(t, x))
        case Collected(_, _) => Expunge(t)
        case Swept(why) => if why.ToGet? then Lookup(t) else if |s.table| < c.maxSessions then Admit(t) else Reject(t)
        case Admitted => Connect(t)
        case Connected(_) => Insert(t, id);
      assert IsStepOf(step, t) && Enabled(c, s, step);
    }
  }

  lemma {:induction false} Unused(ids: set<Id>) returns (id: Id)
    ensures id !in ids && forall x :: x in ids ==> x < id
  {
    id := 0;
    if ids != {} {
      var x :| x in ids;
      var other := Unused(ids - {x});
      id := if x < other then other else x + 1;
      assert forall y :: y in ids ==> y == x || y in ids - {x};
    }
  }

  // ---------------------------------------------------------------------------------------
  // The undisturbed sweep is one of the interleavings
  // ---------------------------------------------------------------------------------------

  /** The stored sessions with their last access. */
  function Stored(s: State): (r: map<Id, nat>)
    requires Sound(s)
  {
    map id | id in s.table :: s.last[id]
  }

  /** The clock moves on by `elapsed` and session `id` is looked at. */
  datatype Visit = Visit(elapsed: nat, id: Id)

  predicate CanExamineAll(c: Config, s: State, t: Task, visits: seq<Visit>)
    decreases |visits|
  {
    visits == []
    || (var later := After(c, s, Tick(visits[0].elapsed));
        && Enabled(c, later, Examine(t, visits[0].id))
        && CanExamineAll(c, After(c, later, Examine(t, visits[0].id)), t, visits[1..]))
  }

  function ExamineAll(c: Config, s: State, t: Task, visits: seq<Visit>): (r: State)
    requires CanExamineAll(c, s, t, visits)
    decreases |visits|
  {
    if visits == [] then s
    else
      var later := After(c, s, Tick(visits[0].elapsed));
      ExamineAll(c, After(c, later, Examine(t, visits[0].id)), t, visits[1..])
  }

  function Visited(visits: seq<Visit>): (ids: seq<Id>)
    ensures |ids| == |visits| && forall i :: 0 <= i < |ids| ==> ids[i] == visits[i].id
  {
    seq(|visits|, i requires 0 <= i < |visits| => visits[i].id)
  }

  function Elapsed(visits: seq<Visit>): (d: nat)
  {
    if visits == [] then 0 else visits[0].elapsed + Elapsed(visits[1..])
  }

  /** `clock` says when each session is visited, starting at `now`. */
  predicate Timed(visits: seq<Visit>, now: nat, clock: Id -> nat)
  {
    visits == []
    || (var later := now + visits[0].elapsed; clock(visits[0].id) == later && Timed(visits[1..], later, clock))
  }

  /** The sessions among these that have been idle for too long when they are visited. */
  function Overdue(c: Config, last: map<Id, nat>, clock: Id -> nat, ids: set<Id>): (r: set<Id>)
  {
    set id | id in ids && id in last && Idle(clock(id), last[id]) > c.ttl
  }

  /** Task `t` has spent `elapsed` on these sessions and condemned some. */
  function Progressed(s: State, t: Task, elapsed: nat, ids: set<Id>, doomed: set<Id>): (r: State)
    requires t in s.tasks && s.tasks[t].Scanning?
    ensures t in r.tasks && r.tasks[t].Scanning? && r.last == s.last && r.now == s.now + elapsed
  {
    var p := s.tasks[t];
    s.(now := s.now + elapsed, tasks := s.tasks[t := Scanning(p.why, p.unseen - ids, p.expired + doomed)])
  }

  lemma NoProgress(s: State, t: Task)
    requires t in s.tasks && s.tasks[t].Scanning?
    ensures Progressed(s, t, 0, {}, {}) == s
  {
    var p := s.tasks[t];
    assert p == Scanning(p.why, p.unseen - {}, p.expired + {});
    assert s.tasks[t := p] == s.tasks;
  }

  lemma ProgressAdds(s: State, t: Task, d: nat, a: set<Id>, x: set<Id>, e: nat, b: set<Id>, y: set<Id>)
    requires t in s.tasks && s.tasks[t].Scanning?
    ensures Progressed(Progressed(s, t, d, a, x), t, e, b, y) == Progressed(s, t, d + e, a + b, x + y)
  {
    var p := s.tasks[t];
    var once, twice := Scanning(p.why, p.unseen - a, p.expired + x), Scanning(p.why, p.unseen - (a + b), p.expired + (x + y));
    assert (p.unseen - a) - b == p.unseen - (a + b) && (p.expired + x) + y == p.expired + (x + y);
    assert s.tasks[t := once][t := twice] == s.tasks[t := twice];
  }

  /** One visit. */
  lemma ExaminedOne(c: Config, s: State, t: Task, v: Visit, clock: Id -> nat)
    requires Sound(s) && t in s.tasks && s.tasks[t].Scanning? && v.id in s.tasks[t].unseen
    requires clock(v.id) == s.now + v.elapsed
    ensures var later := After(c, s, Tick(v.elapsed));
            && Enabled(c, later, Examine(t, v.id)) && Sound(After(c, later, Examine(t, v.id)))
            && After(c, later, Examine(t, v.id))
               == Progressed(s, t, v.elapsed, {v.id}, Overdue(c, s.last, clock, {v.id}))
  {
    var p, later := s.tasks[t], After(c, s, Tick(v.elapsed));
    var expired := if Idle(later.now, s.last[v.id]) > c.ttl then p.expired + {v.id} else p.expired;
    assert expired == p.expired + Overdue(c, s.last, clock, {v.id});
    StepSound(c, later, Examine(t, v.id));
  }

  lemma OverdueSplit(c: Config, last: map<Id, nat>, clock: Id -> nat, a: set<Id>, b: set<Id>)
    ensures Overdue(c, last, clock, a + b) == Overdue(c, last, clock, a) + Overdue(c, last, clock, b)
    ensures Overdue(c, last, clock, {}) == {}
  {}

  lemma StillUnseen(s: State, t: Task, d: nat, id: Id, doomed: set<Id>, rest: set<Id>)
    requires t in s.tasks && s.tasks[t].Scanning? && rest <= s.tasks[t].unseen && id !in rest
    ensures rest <= Progressed(s, t, d, {id}, doomed).tasks[t].unseen
  {}

  /** Visiting any duplicate-free list of unseen sessions condemns exactly those expired when visited. */
  lemma {:induction false} Examined(c: Config, s: State, t: Task, visits: seq<Visit>, clock: Id -> nat)
    requires Sound(s) && t in s.tasks && s.tasks[t].Scanning?
    requires Elements(Visited(visits)) <= s.tasks[t].unseen && Distinct(Visited(visits))
    requires Timed(visits, s.now, clock)
    ensures CanExamineAll(c, s, t, visits)
    ensures var ids := Elements(Visited(visits));
            ExamineAll(c, s, t, visits) == Progressed(s, t, Elapsed(visits), ids, Overdue(c, s.last, clock, ids))
    decreases |visits|
  {
    hide Overdue, Sound, After, Enabled, Progressed, Distinct;
    var ids := Elements(Visited(visits));
    if visits == [] {
      assert ids == {};
      OverdueSplit(c, s.last, clock, {}, {});
      NoProgress(s, t);
    } else {
      hide Elements;
      var v, rest := visits[0], Elements(Visited(visits[1..]));
      var now, more := Overdue(c, s.last, clock, {v.id}), Overdue(c, s.last, clock, rest);
      VisitedTail(visits);
      ExaminedOne(c, s, t, v, clock);
      StillUnseen(s, t, v.elapsed, v.id, now, rest);
      Examined(c, Progressed(s, t, v.elapsed, {v.id}, now), t, visits[1..], clock);
      OverdueSplit(c, s.last, clock, {v.id}, rest);
      ProgressAdds(s, t, v.elapsed, {v.id}, now, Elapsed(visits[1..]), rest, more);
    }
  }

  lemma VisitedTail(visits: seq<Visit>)
    requires visits != [] && Distinct(Visited(visits))
    ensures Distinct(Visited(visits[1..])) && visits[0].id !in Elements(Visited(visits[1..]))
    ensures Elements(Visited(visits)) == {visits[0].id} + Elements(Visited(visits[1..]))
  {
    var all, rest := Visited(visits), Visited(visits[1..]);
    assert all == [visits[0].id] + rest;
    assert forall i :: 0 <= i < |rest| ==> rest[i] == all[i + 1];
  }

  /**
   Without other steps in between, in whatever order it visits the table and however long each
   visit takes, a sweep leaves what `SweepExpired` leaves.
   */
  lemma UninterruptedSweep(c: Config, s: State, t: Task, why: Purpose, visits: seq<Visit>, clock: Id -> nat)
    requires Sound(s) && t !in s.tasks && Writable(s)
    requires Elements(Visited(visits)) == s.table && Distinct(Visited(visits)) && Timed(visits, s.now, clock)
    ensures CanExamineAll(c, After(c, s, Begin(t, why)), t, visits)
    ensures var seen := ExamineAll(c, After(c, s, Begin(t, why)), t, visits);
            && Enabled(c, seen, Release(t)) && Enabled(c, After(c, seen, Release(t)), Expunge(t))
            && After(c, After(c, seen, Release(t)), Expunge(t)).table == Fresh(Stored(s), c.ttl, clock).Keys
  {
    hide ExamineAll, CanExamineAll, Overdue, Fresh, Elements, Sound, Visited, Elapsed, Timed;
    var begun := After(c, s, Begin(t, why));
    StepSound(c, s, Begin(t, why));
    Examined(c, begun, t, visits, clock);
    LeftByOverdue(c, s, clock);
    assert s.table - Elements(Visited(visits)) == {};
    FinishSweep(c, ExamineAll(c, begun, t, visits), t);
  }

  lemma FinishSweep(c: Config, s: State, t: Task)
    requires t in s.tasks && s.tasks[t].Scanning? && s.tasks[t].unseen == {}
    requires forall u :: u in s.tasks && u != t ==> !s.tasks[u].Scanning?
    ensures Enabled(c, s, Release(t)) && Enabled(c, After(c, s, Release(t)), Expunge(t))
    ensures After(c, After(c, s, Release(t)), Expunge(t)).table == s.table - s.tasks[t].expired
  {}

  lemma LeftByOverdue(c: Config, s: State, clock: Id -> nat)
    requires Sound(s)
    ensures s.table - ({} + Overdue(c, s.last, clock, s.table)) == Fresh(Stored(s), c.ttl, clock).Keys
  {}

  // ---------------------------------------------------------------------------------------
  // Both results are sharp
  // ---------------------------------------------------------------------------------------

  lemma Extend(c: Config, steps: seq<Step>, step: Step)
    requires Legal(c, steps) && Enabled(c, At(c, steps), step)
    ensures Legal(c, steps + [step]) && At(c, steps + [step]) == After(c, At(c, steps), step)
    ensures forall k: nat :: AtMostPending(c, steps, k) && |Pending(After(c, At(c, steps), step))| <= k ==>
              AtMostPending(c, steps + [step], k)
  {
    assert Front(steps + [step]) == steps;
  }

  /** Sessions `0..i` stored; tasks `i..a` admitted; tasks `a..n` swept and about to check the limit. */
  function Shape(i: nat, a: nat, n: nat): (s: State)
  {
    State(0, UpTo(i), map x | x in UpTo(i) :: 0, {},
      map t | t in UpTo(n) && i <= t :: if t < a then Admitted else Swept(ToCreate))
  }

  lemma ShapePending(i: nat, a: nat, n: nat)
    requires i <= a <= n
    ensures |Pending(Shape(i, a, n))| == a - i && Writable(Shape(i, a, n))
  {
    hide UpTo;
    assert Pending(Shape(i, a, n)) == UpTo(a) - UpTo(i);
    assert UpTo(a) * UpTo(i) == UpTo(i);
  }

  lemma ShapeReady(c: Config, n: nat)
    ensures Enabled(c, Shape(0, 0, n), Begin(n, ToCreate))
    ensures var s := After(c, Shape(0, 0, n), Begin(n, ToCreate));
            Pending(s) == Pending(Shape(0, 0, n)) && Enabled(c, s, Release(n))
    ensures var s := After(c, After(c, Shape(0, 0, n), Begin(n, ToCreate)), Release(n));
            && Pending(s) == Pending(Shape(0, 0, n)) && Enabled(c, s, Expunge(n))
            && After(c, s, Expunge(n)) == Shape(0, 0, n + 1)
  {
    hide UpTo;
    UpToNext(n);
    assert UpTo(0) == {};
  }

  lemma ShapeInsert(c: Config, i: nat, a: nat, n: nat)
    requires i < a <= n
    ensures Enabled(c, Shape(i, a, n), Connect(i))
    ensures var s := After(c, Shape(i, a, n), Connect(i));
            && Pending(s) == Pending(Shape(i, a, n)) && Enabled(c, s, Insert(i, i))
            && After(c, s, Insert(i, i)) == Shape(i + 1, a, n)
  {
    hide UpTo;
    UpToNext(i);
    var s := After(c, Shape(i, a, n), Connect(i));
    var r, t := After(c, s, Insert(i, i)), Shape(i + 1, a, n);
    assert r.last == t.last;
    assert r.tasks == t.tasks;
  }

  /** Task `n` starts, finds nothing to sweep, and is ready to check the limit. */
  lemma ReadyOne(c: Config, steps: seq<Step>, n: nat, k: nat) returns (more: seq<Step>)
    requires Legal(c, steps) && At(c, steps) == Shape(0, 0, n) && AtMostPending(c, steps, k)
    ensures Legal(c, more) && At(c, more) == Shape(0, 0, n + 1) && AtMostPending(c, more, k)
  {
    hide AtMostPending, Legal, At, Shape, After, Enabled, Pending;
    ShapePending(0, 0, n);
    ShapePending(0, 0, n + 1);
    ShapeReady(c, n);
    Extend(c, steps, Begin(n, ToCreate));
    more := steps + [Begin(n, ToCreate)];
    Extend(c, more, Release(n));
    more := more + [Release(n)];
    Extend(c, more, Expunge(n));
    more := more + [Expunge(n)];
  }

  lemma {:induction false} Ready(c: Config, n: nat, k: nat) returns (steps: seq<Step>)
    ensures Legal(c, steps) && At(c, steps) == Shape(0, 0, n) && AtMostPending(c, steps, k)
  {
    if n == 0 {
      steps := [];
      assert Shape(0, 0, 0) == INIT && Pending(INIT) == {};
    } else {
      steps := Ready(c, n - 1, k);
      steps := ReadyOne(c, steps, n - 1, k);
    }
  }

  lemma AdmitOne(c: Config, steps: seq<Step>, i: nat, a: nat, n: nat, k: nat) returns (more: seq<Step>)
    requires Legal(c, steps) && At(c, steps) == Shape(i, a, n) && AtMostPending(c, steps, k)
    requires i < c.maxSessions && i <= a < n && a + 1 - i <= k
    ensures Legal(c, more) && At(c, more) == Shape(i, a + 1, n) && AtMostPending(c, more, k)
  {
    hide AtMostPending, Legal, At;
    Extend(c, steps, Admit(a));
    more := steps + [Admit(a)];
    assert At(c, more) == Shape(i, a + 1, n);
    ShapePending(i, a + 1, n);
  }

  lemma InsertOne(c: Config, steps: seq<Step>, i: nat, a: nat, n: nat, k: nat) returns (more: seq<Step>)
    requires Legal(c, steps) && At(c, steps) == Shape(i, a, n) && AtMostPending(c, steps, k)
    requires i < a <= n && a - i <= k
    ensures Legal(c, more) && At(c, more) == Shape(i + 1, a, n) && AtMostPending(c, more, k)
  {
    hide AtMostPending, Legal, At, Shape, After, Enabled, Pending;
    ShapeInsert(c, i, a, n);
    ShapePending(i, a, n);
    Extend(c, steps, Connect(i));
    more := steps + [Connect(i)];
    Extend(c, more, Insert(i, i));
    more := more + [Insert(i, i)];
    ShapePending(i + 1, a, n);
  }

  /** The bound is attained: `k` creations that check together overrun the limit by `k - 1`. */
  lemma BoundAttained(c: Config, k: nat) returns (steps: seq<Step>)
    requires c.maxSessions >= 1 && k >= 1
    ensures Legal(c, steps) && AtMostPending(c, steps, k)
    ensures |At(c, steps).table| == c.maxSessions - 1 + k
  {
    hide AtMostPending, Legal, At, Shape;
    var m, n := c.maxSessions - 1, c.maxSessions - 1 + k;
    steps := Ready(c, n, k);
    var i := 0;
    while i < m
      invariant i <= m && Legal(c, steps) && At(c, steps) == Shape(i, i, n) && AtMostPending(c, steps, k)
    {
      steps := AdmitOne(c, steps, i, i, n, k);
      steps := InsertOne(c, steps, i, i + 1, n, k);
      i := i + 1;
    }
    var a := m;
    while a < n
      invariant m <= a <= n && Legal(c, steps) && At(c, steps) == Shape(m, a, n) && AtMostPending(c, steps, k)
    {
      steps := AdmitOne(c, steps, m, a, n, k);
      a := a + 1;
    }
    while i < n
      invariant m <= i <= n && Legal(c, steps) && At(c, steps) == Shape(i, n, n) && AtMostPending(c, steps, k)
    {
      steps := InsertOne(c, steps, i, n, n, k);
      i := i + 1;
    }
    ShapeTable(n);
  }

  lemma ShapeTable(n: nat)
    ensures Shape(n, n, n).table == UpTo(n)
  {}

  lemma OneStored(c: Config) returns (steps: seq<Step>)
    requires c.maxSessions >= 1
    ensures Legal(c, steps) && At(c, steps) == State(0, {0}, map[0 := 0], {}, map[])
  {
    hide AtMostPending, Legal, At;
    steps := Ready(c, 1, 1);
    steps := AdmitOne(c, steps, 0, 0, 1, 1);
    steps := InsertOne(c, steps, 0, 1, 1, 1);
    assert Shape(1, 1, 1) == State(0, {0}, map[0 := 0], {}, map[]) by { assert UpTo(1) == {0}; }
  }

  /** Session 0 is stored and a caller has looked it up. */
  lemma OneHeld(c: Config) returns (steps: seq<Step>)
    requires c.maxSessions >= 1
    ensures Legal(c, steps) && At(c, steps) == State(0, {0}, map[0 := 0], {0}, map[])
  {
    hide AtMostPending, Legal, At;
    steps := OneStored(c);
    Extend(c, steps, Begin(0, ToGet(0)));
    steps := steps + [Begin(0, ToGet(0))];
    Extend(c, steps, Examine(0, 0));
    steps := steps + [Examine(0, 0)];
    Extend(c, steps, Release(0));
    steps := steps + [Release(0)];
    assert At(c, steps).tasks == map[0 := Collected(ToGet(0), {})];
    Extend(c, steps, Expunge(0));
    steps := steps + [Expunge(0)];
    Extend(c, steps, Lookup(0));
    steps := steps + [Lookup(0)];
    assert At(c, steps).tasks == map[];
  }

  /** The TTL passes and another lookup's read phase condemns the session. */
  lemma OneDoomed(c: Config) returns (steps: seq<Step>)
    requires c.maxSessions >= 1
    ensures Legal(c, steps)
    ensures At(c, steps) == State(c.ttl + 1, {0}, map[0 := 0], {0}, map[0 := Collected(ToGet(0), {0})])
  {
    hide AtMostPending, Legal, At;
    steps := OneHeld(c);
    Extend(c, steps, Tick(c.ttl + 1));
    steps := steps + [Tick(c.ttl + 1)];
    Extend(c, steps, Begin(0, ToGet(0)));
    steps := steps + [Begin(0, ToGet(0))];
    Extend(c, steps, Examine(0, 0));
    steps := steps + [Examine(0, 0)];
    Extend(c, steps, Release(0));
    steps := steps + [Release(0)];
  }

  /**
   The proviso about later use matters: whatever the TTL, the caller that holds a session can renew
   it after the read phase and see it swept away at the very same instant.
   */
  lemma RenewedYetSwept(c: Config) returns (steps: seq<Step>)
    requires c.maxSessions >= 1
    ensures steps != [] && Legal(c, steps)
    ensures var s := At(c, Front(steps));
            && 0 in s.table && 0 in s.held && 0 in s.last
            && Idle(s.now, s.last[0]) == 0 && 0 !in At(c, steps).table
  {
    hide AtMostPending, Legal, At;
    steps := OneDoomed(c);
    Extend(c, steps, Touch(0));
    steps := steps + [Touch(0)];
    Extend(c, steps, Expunge(0));
    var whole := steps + [Expunge(0)];
    assert Front(whole) == steps;
    steps := whole;
  }
}
