/** `DatabasePoolRegistry`, crates/redis-web-runtime/src/redis.rs:150-187: a double-checked cache. */
module PoolRegistry {
  import opened Bytes

  type Database = nat
  type Task = nat

  /** A connection pool: its identity, and the database its connections are bound to. */
  datatype Pool = Pool(id: nat, database: Database)

  // ---------------------------------------------------------------------------------------
  // Undisturbed
  // ---------------------------------------------------------------------------------------

  class Registry {
    const defaultDatabase: Database
    const defaultPool: Pool
    var pools: map<Database, Pool>
    var built: nat

    ghost predicate Valid()
      reads this
    {
      && defaultPool.database == defaultDatabase && defaultDatabase !in pools
      && forall d :: d in pools ==> pools[d].database == d
    }

    constructor (database: Database)
      ensures Valid() && defaultDatabase == database && pools == map[]
    {
      defaultDatabase := database;
      defaultPool := Pool(0, database);
      pools, built := map[], 1;
    }

    /** Returns a pool bound to the database; once one is cached it is the one returned ever after. */
    method PoolForDatabase(database: Database, succeeds: bool) returns (r: Option<Pool>)
      requires Valid()
      modifies this
      ensures Valid()
      ensures r.Some? ==> r.value.database == database
      ensures r.None? <==> !succeeds && database != defaultDatabase && database !in old(pools)
      ensures database == defaultDatabase ==> r == Some(defaultPool)
      ensures database in old(pools) ==> r == Some(old(pools)[database])
      ensures built == if database != defaultDatabase && database !in old(pools) && succeeds then old(built) + 1 else old(built)
      ensures database != defaultDatabase && database !in old(pools) && r.Some? ==> r.value.id == old(built)
      ensures pools == if r.Some? && database != defaultDatabase then old(pools)[database := r.value] else old(pools)
    {
      if database == defaultDatabase {
        return Some(defaultPool);
      }
      if database in pools {
        assert pools == pools[database := pools[database]];
        return Some(pools[database]);
      }
      if !succeeds {
        return None;
      }
      var fresh' := Pool(built, database);
      built := built + 1;
      if database !in pools {
        pools := pools[database := fresh'];
      }
      return Some(pools[database]);
    }
  }

  // ---------------------------------------------------------------------------------------
  // All interleavings
  // ---------------------------------------------------------------------------------------

  /** Between the read lock and the write lock: nothing found, or a spare pool in hand. */
  datatype Phase = Missed(database: Database) | Built(pool: Pool, database: Database)

  datatype Returned = Returned(database: Database, pool: Pool)

  datatype State = State(pools: map<Database, Pool>, calls: map<Task, Phase>, built: nat, returned: seq<Returned>)

  datatype Step =
    | Look(t: Task, database: Database)
    | Build(t: Task, succeeds: bool)
    | Publish(t: Task)

  predicate Enabled(s: State, step: Step)
  {
    match step
    case Look(t, _) => t !in s.calls
    case Build(t, _) => t in s.calls && s.calls[t].Missed?
    case Publish(t) => t in s.calls && s.calls[t].Built?
  }

  function After(home: Pool, s: State, step: Step): (r: State)
    requires Enabled(s, step)
  {
    match step
    case Look(t, d) =>
      if d == home.database then s.(returned := s.returned + [Returned(d, home)])
      else if d in s.pools then s.(returned := s.returned + [Returned(d, s.pools[d])])
      else s.(calls := s.calls[t := Missed(d)])
    case Build(t, succeeds) =>
      var d := s.calls[t].database;
      if succeeds then s.(calls := s.calls[t := Built(Pool(s.built, d), d)], built := s.built + 1)
      else s.(calls := s.calls - {t})
    case Publish(t) =>
      var d := s.calls[t].database;
      var pools := if d in s.pools then s.pools else s.pools[d := s.calls[t].pool];
      s.(pools := pools, calls := s.calls - {t}, returned := s.returned + [Returned(d, pools[d])])
  }

  const INIT: State := State(map[], map[], 1, [])

  predicate Legal(home: Pool, s: State, steps: seq<Step>)
    decreases |steps|
  {
    steps == [] || (Enabled(s, steps[0]) && Legal(home, After(home, s, steps[0]), steps[1..]))
  }

  function Run(home: Pool, s: State, steps: seq<Step>): (r: State)
    requires Legal(home, s, steps)
    decreases |steps|
  {
    if steps == [] then s else Run(home, After(home, s, steps[0]), steps[1..])
  }

  /** The pool every answer for this database must be. */
  predicate Agreed(home: Pool, s: State, r: Returned)
  {
    && r.pool.database == r.database
    && if r.database == home.database then r.pool == home
       else r.database in s.pools && s.pools[r.database] == r.pool
  }

  ghost predicate Consistent(home: Pool, s: State)
  {
    && home.database !in s.pools
    && (forall d :: d in s.pools ==> s.pools[d].database == d)
    && (forall t :: t in s.calls ==> s.calls[t].database != home.database)
    && (forall t :: t in s.calls && s.calls[t].Built? ==> s.calls[t].pool.database == s.calls[t].database)
    && (forall i :: 0 <= i < |s.returned| ==> Agreed(home, s, s.returned[i]))
  }

  lemma StepConsistent(home: Pool, s: State, step: Step)
    requires Consistent(home, s) && Enabled(s, step)
    ensures Consistent(home, After(home, s, step))
  {
    var r := After(home, s, step);
    forall i | 0 <= i < |r.returned|
      ensures Agreed(home, r, r.returned[i])
    {
      if i < |s.returned| {
        assert Agreed(home, s, s.returned[i]);
      }
    }
  }

  /**
   In every interleaving, even when several callers miss together and build spare pools: every
   answer is bound to its database, all answers for one database are the same pool, and the default
   database never enters the map.
   */
  lemma {:induction false} CacheAgrees(home: Pool, s: State, steps: seq<Step>)
    requires Consistent(home, s) && Legal(home, s, steps)
    ensures var r := Run(home, s, steps);
            && Consistent(home, r) && home.database !in r.pools
            && forall i, j :: 0 <= i < |r.returned| && 0 <= j < |r.returned| ==>
                 r.returned[i].database == r.returned[j].database ==> r.returned[i] == r.returned[j]
    decreases |steps|
  {
    if steps != [] {
      StepConsistent(home, s, steps[0]);
      CacheAgrees(home, After(home, s, steps[0]), steps[1..]);
    } else {
      forall i, j | 0 <= i < |s.returned| && 0 <= j < |s.returned| && s.returned[i].database == s.returned[j].database
        ensures s.returned[i] == s.returned[j]
      {
        assert Agreed(home, s, s.returned[i]) && Agreed(home, s, s.returned[j]);
      }
    }
  }

  lemma InitConsistent(home: Pool)
    ensures Consistent(home, INIT)
  {}

  /** So it is in every run from the start. */
  lemma CacheFromStart(home: Pool, steps: seq<Step>)
    requires Legal(home, INIT, steps)
    ensures var r := Run(home, INIT, steps);
            && home.database !in r.pools
            && (forall i :: 0 <= i < |r.returned| ==> r.returned[i].pool.database == r.returned[i].database)
            && forall i, j :: 0 <= i < |r.returned| && 0 <= j < |r.returned| ==>
                 r.returned[i].database == r.returned[j].database ==> r.returned[i] == r.returned[j]
  {
    hide Run, Legal;
    InitConsistent(home);
    CacheAgrees(home, INIT, steps);
    var r := Run(home, INIT, steps);
    assert forall i :: 0 <= i < |r.returned| ==> Agreed(home, r, r.returned[i]);
  }

  /** Spare pools do occur: two callers that miss together build two pools and still agree on one. */
  lemma SparePoolDropped(home: Pool, d: Database)
    requires d != home.database
    ensures var steps := [Look(0, d), Look(1, d), Build(0, true), Build(1, true), Publish(1), Publish(0)];
            && Legal(home, INIT, steps)
            && Run(home, INIT, steps).built == 3
            && Run(home, INIT, steps).returned == [Returned(d, Pool(2, d)), Returned(d, Pool(2, d))]
  {
    var steps := [Look(0, d), Look(1, d), Build(0, true), Build(1, true), Publish(1), Publish(0)];
    var s1 := After(home, INIT, steps[0]);
    var s2 := After(home, s1, steps[1]);
    var s3 := After(home, s2, steps[2]);
    var s4 := After(home, s3, steps[3]);
    var s5 := After(home, s4, steps[4]);
    assert s5.returned == [Returned(d, Pool(2, d))];
    var s6 := After(home, s5, steps[5]);
    assert s6.returned == [Returned(d, Pool(2, d)), Returned(d, Pool(2, d))];
    Unroll(home, s5, steps[5..]);
    assert steps[5..][1..] == [];
    Unroll(home, s4, steps[4..]);
    assert steps[4..][1..] == steps[5..];
    Unroll(home, s3, steps[3..]);
    assert steps[3..][1..] == steps[4..];
    Unroll(home, s2, steps[2..]);
    assert steps[2..][1..] == steps[3..];
    Unroll(home, s1, steps[1..]);
    assert steps[1..][1..] == steps[2..];
    Unroll(home, INIT, steps);
  }

  lemma Unroll(home: Pool, s: State, steps: seq<Step>)
    requires steps != [] && Enabled(s, steps[0]) && Legal(home, After(home, s, steps[0]), steps[1..])
    ensures Legal(home, s, steps) && Run(home, s, steps) == Run(home, After(home, s, steps[0]), steps[1..])
  {}
}
