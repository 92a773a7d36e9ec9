/**
 The work-sharing loop of the benchmark runner, crates/redis-web-bench/src/suites.rs:201-251, over
 every interleaving of its workers.
 */
module BenchWorkers {
  import opened Bytes

  /** What a worker is about to do. */
  datatype Phase = Fetching | Running(index: nat) | Stopped

  datatype Suite = Suite(measuredOps: nat, concurrency: nat)

  datatype State = State(counter: nat, workers: map<nat, Phase>, done: set<nat>, successes: nat, errors: nat)

  datatype Step = Fetch(w: nat) | Finish(w: nat, ok: bool)

  function Init(suite: Suite): (s: State)
  {
    State(0, map w | w in UpTo(suite.concurrency) :: Fetching, {}, 0, 0)
  }

  predicate Enabled(s: State, step: Step)
  {
    match step
    case Fetch(w) => w in s.workers && s.workers[w].Fetching?
    case Finish(w, _) => w in s.workers && s.workers[w].Running?
  }

  /** `fetch_add` hands out the next index; an operation ends in a latency or in an error. */
  function After(suite: Suite, s: State, step: Step): (r: State)
    requires Enabled(s, step)
  {
    match step
    case Fetch(w) =>
      var phase := if s.counter < suite.measuredOps then Running(s.counter) else Stopped;
      s.(counter := s.counter + 1, workers := s.workers[w := phase])
    case Finish(w, ok) =>
      State(s.counter, s.workers[w := Fetching], s.done + {s.workers[w].index},
        if ok then s.successes + 1 else s.successes, if ok then s.errors else s.errors + 1)
  }

  predicate Legal(suite: Suite, s: State, steps: seq<Step>)
    decreases |steps|
  {
    steps == [] || (Enabled(s, steps[0]) && Legal(suite, After(suite, s, steps[0]), steps[1..]))
  }

  function Run(suite: Suite, s: State, steps: seq<Step>): (r: State)
    requires Legal(suite, s, steps)
    decreases |steps|
  {
    if steps == [] then s else Run(suite, After(suite, s, steps[0]), steps[1..])
  }

  function StoppedWorkers(s: State): (r: set<nat>) { set w | w in s.workers && s.workers[w].Stopped? }

  function BusyWorkers(s: State): (r: set<nat>) { set w | w in s.workers && s.workers[w].Running? }

  function Started(suite: Suite, s: State): (n: nat)
  {
    if s.counter < suite.measuredOps then s.counter else suite.measuredOps
  }

  /** Index `i` is being run by some worker. */
  ghost predicate InProgress(s: State, i: nat)
  {
    exists w :: w in s.workers && s.workers[w] == Running(i)
  }

  /** Every index handed out is either done or in the hands of exactly one worker. */
  ghost predicate Shared(suite: Suite, s: State)
  {
    && (forall v, w :: v in s.workers && w in s.workers && v != w && s.workers[v].Running? ==>
          s.workers[v] != s.workers[w])
    && (forall w :: w in s.workers && s.workers[w].Running? ==>
          s.workers[w].index < Started(suite, s) && s.workers[w].index !in s.done)
    && (forall i :: i in s.done ==> i < Started(suite, s))
    && (forall i: nat :: i < Started(suite, s) ==> i in s.done || InProgress(s, i))
  }

  /** The counts agree. */
  ghost predicate Balanced(suite: Suite, s: State)
  {
    && |s.done| == s.successes + s.errors
    && |s.done| + |BusyWorkers(s)| == Started(suite, s)
    && s.counter == Started(suite, s) + |StoppedWorkers(s)|
  }

  ghost predicate Conserved(suite: Suite, s: State)
  {
    s.workers.Keys == UpTo(suite.concurrency) && Shared(suite, s) && Balanced(suite, s)
  }

  lemma FetchShares(suite: Suite, s: State, w: nat)
    requires Shared(suite, s) && Enabled(s, Fetch(w))
    ensures Shared(suite, After(suite, s, Fetch(w)))
  {
    var r := After(suite, s, Fetch(w));
    forall i: nat | i < Started(suite, r)
      ensures i in r.done || InProgress(r, i)
    {
      if i == s.counter {
        assert r.workers[w] == Running(i);
      } else if i !in s.done {
        assert InProgress(s, i);
        var v :| v in s.workers && s.workers[v] == Running(i);
        assert r.workers[v] == Running(i);
      }
    }
  }

  lemma FetchMoves(suite: Suite, s: State, w: nat)
    requires Enabled(s, Fetch(w))
    ensures var r := After(suite, s, Fetch(w));
            if s.counter < suite.measuredOps then
              BusyWorkers(r) == BusyWorkers(s) + {w} && StoppedWorkers(r) == StoppedWorkers(s)
            else
              BusyWorkers(r) == BusyWorkers(s) && StoppedWorkers(r) == StoppedWorkers(s) + {w}
    ensures w !in BusyWorkers(s) && w !in StoppedWorkers(s)
  {}

  lemma FetchConserves(suite: Suite, s: State, w: nat)
    requires Conserved(suite, s) && Enabled(s, Fetch(w))
    ensures Conserved(suite, After(suite, s, Fetch(w)))
  {
    hide Shared, UpTo, BusyWorkers, StoppedWorkers;
    FetchShares(suite, s, w);
    FetchMoves(suite, s, w);
    assert After(suite, s, Fetch(w)).workers.Keys == s.workers.Keys;
  }

  lemma FinishShares(suite: Suite, s: State, w: nat, ok: bool)
    requires Shared(suite, s) && Enabled(s, Finish(w, ok))
    ensures Shared(suite, After(suite, s, Finish(w, ok)))
  {
    var r := After(suite, s, Finish(w, ok));
    forall i: nat | i < Started(suite, r)
      ensures i in r.done || InProgress(r, i)
    {
      if i !in r.done {
        assert InProgress(s, i);
        var v :| v in s.workers && s.workers[v] == Running(i);
        assert r.workers[v] == Running(i);
      }
    }
  }

  lemma FinishMoves(suite: Suite, s: State, w: nat, ok: bool)
    requires Enabled(s, Finish(w, ok))
    ensures var r := After(suite, s, Finish(w, ok));
            BusyWorkers(r) == BusyWorkers(s) - {w} && StoppedWorkers(r) == StoppedWorkers(s)
    ensures w in BusyWorkers(s)
  {}

  lemma FinishBalances(suite: Suite, s: State, w: nat, ok: bool)
    requires Balanced(suite, s) && Enabled(s, Finish(w, ok)) && s.workers[w].index !in s.done
    ensures Balanced(suite, After(suite, s, Finish(w, ok)))
  {
    hide BusyWorkers, StoppedWorkers;
    FinishMoves(suite, s, w, ok);
    var r := After(suite, s, Finish(w, ok));
    assert |r.done| == |s.done| + 1;
    assert |BusyWorkers(r)| == |BusyWorkers(s)| - 1;
  }

  lemma FinishConserves(suite: Suite, s: State, w: nat, ok: bool)
    requires Conserved(suite, s) && Enabled(s, Finish(w, ok))
    ensures Conserved(suite, After(suite, s, Finish(w, ok)))
  {
    hide Balanced, UpTo, BusyWorkers, StoppedWorkers, InProgress;
    hide Shared;
    FinishUnlisted(suite, s, w);
    FinishShares(suite, s, w, ok);
    FinishBalances(suite, s, w, ok);
    assert After(suite, s, Finish(w, ok)).workers.Keys == s.workers.Keys;
  }

  lemma FinishUnlisted(suite: Suite, s: State, w: nat)
    requires Shared(suite, s) && w in s.workers && s.workers[w].Running?
    ensures s.workers[w].index !in s.done
  {}

  lemma InitConserved(suite: Suite)
    ensures Conserved(suite, Init(suite))
  {
    assert BusyWorkers(Init(suite)) == {} && StoppedWorkers(Init(suite)) == {};
  }

  /** How many operations of the run ended well. */
  function Succeeded(steps: seq<Step>): (n: nat)
  {
    if steps == [] then 0 else (if steps[0].Finish? && steps[0].ok then 1 else 0) + Succeeded(steps[1..])
  }

  /** Whatever the interleaving, the accounts balance at every moment, and the number of steps with them. */
  lemma {:induction false} AlwaysConserved(suite: Suite, s: State, steps: seq<Step>)
    requires Conserved(suite, s) && Legal(suite, s, steps)
    ensures var r := Run(suite, s, steps);
            && Conserved(suite, r)
            && |steps| == (r.counter - s.counter) + (r.successes + r.errors - s.successes - s.errors)
            && r.successes == s.successes + Succeeded(steps)
    decreases |steps|
  {
    hide Conserved;
    if steps != [] {
      if steps[0].Fetch? {
        FetchConserves(suite, s, steps[0].w);
      } else {
        FinishConserves(suite, s, steps[0].w, steps[0].ok);
      }
      AlwaysConserved(suite, After(suite, s, steps[0]), steps[1..]);
    }
  }

  predicate Joined(s: State) { forall w :: w in s.workers ==> s.workers[w].Stopped? }

  /**
   When all workers have joined, every index has been run exactly once, successes plus errors are
   the number of operations and the counter is that plus the number of workers, exactly when there
   is at least one worker or nothing to do; and the run took `2 * ops + workers` steps.
   */
  lemma WorkConserved(suite: Suite, steps: seq<Step>)
    requires Legal(suite, Init(suite), steps) && Joined(Run(suite, Init(suite), steps))
    ensures AllAccountedFor(suite, Run(suite, Init(suite), steps), |steps|)
       <==> suite.concurrency >= 1 || suite.measuredOps == 0
  {
    hide Legal, Run, UpTo;
    var r := Run(suite, Init(suite), steps);
    InitConserved(suite);
    AlwaysConserved(suite, Init(suite), steps);
    assert StoppedWorkers(r) == r.workers.Keys;
    assert BusyWorkers(r) == {};
    forall i: nat | i < Started(suite, r)
      ensures i in r.done
    {
      assert i in r.done || InProgress(r, i);
    }
    if suite.concurrency == 0 {
      NoWorkers(suite, steps);
    }
  }

  lemma NoWorkers(suite: Suite, steps: seq<Step>)
    requires suite.concurrency == 0 && Legal(suite, Init(suite), steps)
    ensures steps == []
  {
    assert UpTo(0) == {};
    assert Init(suite).workers == map[];
  }

  /** Every index done, every operation counted once, every worker's last fetch in vain. */
  ghost predicate AllAccountedFor(suite: Suite, r: State, steps: nat)
  {
    && (forall i: nat :: i in r.done <==> i < suite.measuredOps)
    && r.successes + r.errors == suite.measuredOps
    && r.counter == suite.measuredOps + suite.concurrency
    && steps == 2 * suite.measuredOps + suite.concurrency
  }

  /** Until then some worker can always move: no interleaving deadlocks. */
  lemma NoDeadlock(s: State)
    ensures Joined(s) <==> !exists step :: Enabled(s, step)
  {
    if !Joined(s) {
      var w :| w in s.workers && !s.workers[w].Stopped?;
      assert Enabled(s, if s.workers[w].Fetching? then Fetch(w) else Finish(w, true));
    }
  }
}
