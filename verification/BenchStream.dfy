/** The in-flight window of the streaming benchmark, crates/redis-web-bench/src/suites.rs:1337-1383. */
module BenchStream {
  import opened Bytes

  const MAX_IN_FLIGHT: nat := 32

  /** The publisher has yet to see room, has seen room and released the lock, is sending, or gave up. */
  datatype Publisher = Waiting | Cleared | Sending | Failed

  /**
   `sendTimes` is the shared map's key set; `attempts` counts the consumer's remaining reads, which
   it forgoes when a payload that is no index in the map makes it give up.
   */
  datatype State = State(
    next: nat, publisher: Publisher, sendTimes: set<nat>, attempts: nat, gaveUp: bool, received: nat, errors: nat)

  datatype Step = SeeRoom | Insert | Sent | SendFails | Receive(index: nat) | ReadFails | ReadStray

  function Init(messages: nat): (s: State) { State(0, Waiting, {}, messages, false, 0, 0) }

  predicate Enabled(messages: nat, s: State, step: Step)
  {
    match step
    case SeeRoom => s.publisher.Waiting? && s.next < messages && |s.sendTimes| < MAX_IN_FLIGHT
    case Insert => s.publisher.Cleared?
    case Sent => s.publisher.Sending?
    case SendFails => s.publisher.Sending?
    case Receive(i) => s.attempts > 0 && !s.gaveUp && i in s.sendTimes
    case ReadFails => s.attempts > 0 && !s.gaveUp
    case ReadStray => s.attempts > 0 && !s.gaveUp
  }

  function After(messages: nat, s: State, step: Step): (r: State)
    requires Enabled(messages, s, step)
  {
    match step
    case SeeRoom => s.(publisher := Cleared)
    case Insert => s.(publisher := Sending, sendTimes := s.sendTimes + {s.next})
    case Sent => s.(publisher := Waiting, next := s.next + 1)
    case SendFails => s.(publisher := Failed)
    case Receive(i) => s.(attempts := s.attempts - 1, sendTimes := s.sendTimes - {i}, received := s.received + 1)
    case ReadFails => s.(attempts := s.attempts - 1, errors := s.errors + 1)
    case ReadStray => s.(gaveUp := true)
  }

  predicate Legal(messages: nat, s: State, steps: seq<Step>)
    decreases |steps|
  {
    steps == [] || (Enabled(messages, s, steps[0]) && Legal(messages, After(messages, s, steps[0]), steps[1..]))
  }

  function Run(messages: nat, s: State, steps: seq<Step>): (r: State)
    requires Legal(messages, s, steps)
    decreases |steps|
  {
    if steps == [] then s else Run(messages, After(messages, s, steps[0]), steps[1..])
  }

  /** Messages entered in the map so far. */
  function Inserted(s: State): (n: nat) { if s.publisher.Sending? || s.publisher.Failed? then s.next + 1 else s.next }

  ghost predicate Window(messages: nat, s: State)
  {
    && |s.sendTimes| <= MAX_IN_FLIGHT
    && (s.publisher.Cleared? ==> |s.sendTimes| < MAX_IN_FLIGHT)
    && (!s.publisher.Waiting? ==> s.next < messages) && s.next <= messages
    && (forall i :: i in s.sendTimes ==> i < Inserted(s))
    && |s.sendTimes| + s.received == Inserted(s)
    && s.attempts + s.received + s.errors == messages && (s.gaveUp ==> s.attempts > 0)
  }

  lemma StepWindow(messages: nat, s: State, step: Step)
    requires Window(messages, s) && Enabled(messages, s, step)
    ensures Window(messages, After(messages, s, step))
  {
    match step
    case Insert => assert |s.sendTimes + {s.next}| == |s.sendTimes| + 1;
    case Receive(i) => assert |s.sendTimes - {i}| == |s.sendTimes| - 1;
    case _ =>
  }

  /**
   In every interleaving at most 32 messages are in flight, although the publisher checks and
   inserts under two separate locks; and every message inserted is in flight or was received.
   */
  lemma {:induction false} WindowKept(messages: nat, s: State, steps: seq<Step>)
    requires Window(messages, s) && Legal(messages, s, steps)
    ensures var r := Run(messages, s, steps);
            Window(messages, r) && |r.sendTimes| <= MAX_IN_FLIGHT && |r.sendTimes| + r.received == Inserted(r)
    decreases |steps|
  {
    if steps != [] {
      StepWindow(messages, s, steps[0]);
      WindowKept(messages, After(messages, s, steps[0]), steps[1..]);
    }
  }

  lemma InitWindow(messages: nat)
    ensures Window(messages, Init(messages))
  {}

  /** In every run from the start, then, the window is never overrun. */
  lemma NeverOverrun(messages: nat, steps: seq<Step>)
    requires Legal(messages, Init(messages), steps)
    ensures |Run(messages, Init(messages), steps).sendTimes| <= 32
  {
    InitWindow(messages);
    WindowKept(messages, Init(messages), steps);
  }

  /** The consumer has used up its reads and the publisher still has a message but sees no room. */
  predicate Stalled(messages: nat, s: State)
  {
    s.attempts == 0 && s.publisher.Waiting? && s.next < messages && |s.sendTimes| >= MAX_IN_FLIGHT
  }

  /** A failed read never frees its slot, so the publisher can wait for ever, but only after more than 32 failures. */
  lemma StallNeedsLosses(messages: nat, s: State)
    requires Window(messages, s)
    ensures Stalled(messages, s) ==> s.errors > MAX_IN_FLIGHT
    ensures s.attempts == 0 && s.errors <= MAX_IN_FLIGHT ==>
              s.next == messages || s.publisher.Failed? || exists step :: Enabled(messages, s, step)
  {
    if s.attempts == 0 && s.errors <= MAX_IN_FLIGHT && s.next < messages {
      match s.publisher
      case Waiting => assert Enabled(messages, s, SeeRoom);
      case Cleared => assert Enabled(messages, s, Insert);
      case Sending => assert Enabled(messages, s, Sent);
      case Failed =>
    }
  }

  /** The consumer waits for the publisher to finish, which has messages left, has not failed, and cannot move. */
  ghost predicate Hung(messages: nat, s: State)
  {
    s.attempts == 0 && s.next < messages && !s.publisher.Failed? && forall step :: !Enabled(messages, s, step)
  }

  lemma HungExactlyStalled(messages: nat, s: State)
    requires Window(messages, s)
    ensures Hung(messages, s) <==> Stalled(messages, s)
  {
    if Hung(messages, s) {
      assert !Enabled(messages, s, Insert) && !Enabled(messages, s, Sent) && !Enabled(messages, s, SeeRoom);
    }
  }

  lemma {:induction false} Chain(messages: nat, s: State, steps: seq<Step>, step: Step)
    requires Legal(messages, s, steps) && Enabled(messages, Run(messages, s, steps), step)
    ensures Legal(messages, s, steps + [step])
    ensures Run(messages, s, steps + [step]) == After(messages, Run(messages, s, steps), step)
    decreases |steps|
  {
    if steps == [] {
      assert [step][1..] == [];
      assert steps + [step] == [step];
    } else {
      Chain(messages, After(messages, s, steps[0]), steps[1..], step);
      AppendTail(steps, [step]);
    }
  }

  /** After `n` messages have been published and none received. */
  function Unread(messages: nat, n: nat): (s: State) { State(n, Waiting, UpTo(n), messages, false, 0, 0) }

  lemma {:induction false} PublishOnly(messages: nat, n: nat) returns (steps: seq<Step>)
    requires n <= MAX_IN_FLIGHT && n <= messages
    ensures Legal(messages, Init(messages), steps)
    ensures Run(messages, Init(messages), steps) == Unread(messages, n)
  {
    hide Legal, Run, UpTo;
    if n == 0 {
      Nowhere(messages);
      steps := [];
    } else {
      steps := PublishOnly(messages, n - 1);
      Chain(messages, Init(messages), steps, SeeRoom);
      steps := steps + [SeeRoom];
      Chain(messages, Init(messages), steps, Insert);
      steps := steps + [Insert];
      Chain(messages, Init(messages), steps, Sent);
      steps := steps + [Sent];
      UpToNext(n - 1);
    }
  }

  lemma Nowhere(messages: nat)
    ensures Legal(messages, Init(messages), []) && Run(messages, Init(messages), []) == Init(messages) == Unread(messages, 0)
  {}

  lemma LoseAll(messages: nat, published: seq<Step>) returns (steps: seq<Step>)
    requires Legal(messages, Init(messages), published)
    requires Run(messages, Init(messages), published) == Unread(messages, MAX_IN_FLIGHT)
    ensures Legal(messages, Init(messages), steps)
    ensures Run(messages, Init(messages), steps) == Unread(messages, MAX_IN_FLIGHT).(attempts := 0, errors := messages)
  {
    hide Legal, Run, UpTo;
    steps := published;
    var lost := 0;
    while lost < messages
      invariant lost <= messages && Legal(messages, Init(messages), steps)
      invariant Run(messages, Init(messages), steps)
             == Unread(messages, MAX_IN_FLIGHT).(attempts := messages - lost, errors := lost)
    {
      Chain(messages, Init(messages), steps, ReadFails);
      steps := steps + [ReadFails];
      lost := lost + 1;
    }
  }

  /** A run can hang exactly when there are more messages than the window holds. */
  lemma HangPossibleExactly(messages: nat)
    ensures (exists steps :: Legal(messages, Init(messages), steps) && Hung(messages, Run(messages, Init(messages), steps)))
       <==> messages > 32
  {
    hide Legal, Run, Hung, Window;
    InitWindow(messages);
    if messages > MAX_IN_FLIGHT {
      var steps := PublishOnly(messages, MAX_IN_FLIGHT);
      steps := LoseAll(messages, steps);
      assert Stalled(messages, Run(messages, Init(messages), steps));
      WindowKept(messages, Init(messages), steps);
      HungExactlyStalled(messages, Run(messages, Init(messages), steps));
    }
    forall steps | Legal(messages, Init(messages), steps) && Hung(messages, Run(messages, Init(messages), steps))
      ensures messages > MAX_IN_FLIGHT
    {
      var s := Run(messages, Init(messages), steps);
      WindowKept(messages, Init(messages), steps);
      HungExactlyStalled(messages, s);
      StallNeedsLosses(messages, s);
      LossesAreReads(messages, s);
    }
  }

  lemma LossesAreReads(messages: nat, s: State)
    requires Window(messages, s)
    ensures s.errors <= messages
  {}
}
