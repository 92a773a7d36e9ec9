/**
 `PubSubManager`, crates/redis-web-runtime/src/pubsub.rs:52-145: `subscribe` calls and the
 background dispatcher, interleaved at every await.
 */
module PubSubFanout {
  import opened Bytes

  type Channel = nat
  type Payload = nat

  /** Capacity of the command queue. */
  const CAPACITY: nat := 100

  /** A local receiver: where its channel's log stood when it attached, and how far it has read. */
  datatype Receiver = Receiver(channel: Channel, attached: nat, cursor: nat, got: seq<Payload>)

  /** Where the background task stands. */
  datatype Dispatcher = Connecting | Draining | Listening | Holding(channel: Channel, payload: Payload)

  /**
   `logs` has one entry per channel in the map: everything ever broadcast on it.  `opening` is the
   channel of the call that holds the write lock while it waits for room in the queue.
   */
  datatype State = State(
    logs: map<Channel, seq<Payload>>,
    receivers: seq<Receiver>,
    opening: Option<Channel>,
    queue: seq<Channel>,
    enqueued: seq<Channel>,
    dispatcher: Dispatcher,
    subscribed: set<Channel>)

  datatype Step =
    | Join(channel: Channel)         // subscribe, channel known: attach and return
    | Open(channel: Channel)         // subscribe, channel new: insert, then wait to send
    | Enqueue                        // the waiting send completes and the lock is released
    | Connect
    | Take(succeeds: bool)           // the dispatcher takes a command and calls Redis
    | Listen
    | Timeout
    | Unreadable
    | Arrive(channel: Channel, payload: Payload)
    | Deliver                        // the dispatcher gets the read lock and broadcasts
    | StreamEnds
    | Receive(r: nat, skipped: nat)  // a receiver reads on, after losing `skipped` messages to lag

  const INIT: State := State(map[], [], None, [], [], Connecting, {})

  predicate Enabled(s: State, step: Step)
  {
    match step
    case Join(ch) => s.opening.None? && ch in s.logs
    case Open(ch) => s.opening.None? && ch !in s.logs
    case Enqueue => s.opening.Some? && |s.queue| < CAPACITY
    case Connect => s.dispatcher.Connecting?
    case Take(_) => s.dispatcher.Draining? && s.queue != []
    case Listen => s.dispatcher.Draining? && s.queue == []
    case Timeout => s.dispatcher.Listening?
    case Unreadable => s.dispatcher.Listening?
    case Arrive(ch, _) => s.dispatcher.Listening? && ch in s.subscribed
    case Deliver => s.dispatcher.Holding? && s.opening.None?
    case StreamEnds => s.dispatcher.Listening?
    case Receive(r, skipped) =>
      && r < |s.receivers| && s.receivers[r].channel in s.logs
      && s.receivers[r].cursor + skipped < |s.logs[s.receivers[r].channel]|
  }

  function After(s: State, step: Step): (t: State)
    requires Enabled(s, step)
  {
    match step
    case Join(ch) =>
      var n := |s.logs[ch]|;
      s.(receivers := s.receivers + [Receiver(ch, n, n, [])])
    case Open(ch) =>
      s.(logs := s.logs[ch := []], receivers := s.receivers + [Receiver(ch, 0, 0, [])], opening := Some(ch))
    case Enqueue =>
      var ch := s.opening.value;
      s.(queue := s.queue + [ch], enqueued := s.enqueued + [ch], opening := None)
    case Connect => s.(dispatcher := Draining, subscribed := {})
    case Take(succeeds) =>
      s.(queue := s.queue[1..], subscribed := if succeeds then s.subscribed + {s.queue[0]} else s.subscribed)
    case Listen => s.(dispatcher := Listening)
    case Timeout => s.(dispatcher := Draining)
    case Unreadable => s.(dispatcher := Draining)
    case Arrive(ch, p) => s.(dispatcher := Holding(ch, p))
    case Deliver =>
      var ch := s.dispatcher.channel;
      s.(dispatcher := Draining,
         logs := if ch in s.logs then s.logs[ch := s.logs[ch] + [s.dispatcher.payload]] else s.logs)
    case StreamEnds => s.(dispatcher := Connecting, subscribed := {})
    case Receive(r, skipped) =>
      var x := s.receivers[r];
      var next := x.cursor + skipped;
      s.(receivers := s.receivers[r := x.(cursor := next + 1, got := x.got + [s.logs[x.channel][next]])])
  }

  predicate Legal(s: State, steps: seq<Step>)
    decreases |steps|
  {
    steps == [] || (Enabled(s, steps[0]) && Legal(After(s, steps[0]), steps[1..]))
  }

  function Run(s: State, steps: seq<Step>): (t: State)
    requires Legal(s, steps)
    decreases |steps|
  {
    if steps == [] then s else Run(After(s, steps[0]), steps[1..])
  }

  // ---------------------------------------------------------------------------------------
  // Safety
  // ---------------------------------------------------------------------------------------

  /** `a` can be obtained from `b` by leaving elements out. */
  predicate Subsequence(a: seq<Payload>, b: seq<Payload>)
    decreases |b|
  {
    if a == [] then true
    else if b == [] then false
    else
      var m, n := |a| - 1, |b| - 1;
      (a[m] == b[n] && Subsequence(a[..m], b[..n])) || Subsequence(a, b[..n])
  }

  lemma SubsequenceStep(a: seq<Payload>, b: seq<Payload>, x: Payload)
    requires Subsequence(a, b)
    ensures Subsequence(a, b + [x]) && Subsequence(a + [x], b + [x])
  {
    assert (b + [x])[..|b|] == b && (a + [x])[..|a|] == a;
  }

  lemma {:induction false} SubsequenceGrows(a: seq<Payload>, b: seq<Payload>, c: seq<Payload>)
    requires Subsequence(a, b)
    ensures Subsequence(a, b + c)
    decreases |c|
  {
    hide Subsequence;
    if c == [] {
      assert b + c == b;
    } else {
      var n := |c| - 1;
      SubsequenceGrows(a, b, c[..n]);
      SubsequenceStep(a, b + c[..n], c[n]);
      assert b + c == b + c[..n] + [c[n]];
    }
  }

  /** What a receiver has read is part of what was broadcast on its channel after it attached, in order. */
  predicate ReadsInOrder(s: State, x: Receiver)
  {
    && x.channel in s.logs
    && x.attached <= x.cursor <= |s.logs[x.channel]|
    && Subsequence(x.got, s.logs[x.channel][x.attached..x.cursor])
  }

  /** The Subscribe commands ever enqueued are the map's channels, once each, save the one being opened. */
  predicate EnqueuedOnce(s: State)
  {
    && Distinct(s.enqueued)
    && s.logs.Keys == Elements(s.enqueued) + (if s.opening.Some? then {s.opening.value} else {})
    && (s.opening.Some? ==> s.opening.value !in s.enqueued)
    && |s.queue| <= CAPACITY && |s.queue| <= |s.enqueued|
    && s.queue == s.enqueued[|s.enqueued| - |s.queue|..]
  }

  /** The commands the dispatcher has taken so far. */
  function Taken(s: State): (r: seq<Channel>)
    requires |s.queue| <= |s.enqueued|
  {
    s.enqueued[..|s.enqueued| - |s.queue|]
  }

  ghost predicate Safe(s: State)
  {
    && EnqueuedOnce(s)
    && s.subscribed <= Elements(Taken(s))
    && (s.dispatcher.Holding? ==> s.dispatcher.channel in s.subscribed)
    && forall i :: 0 <= i < |s.receivers| ==> ReadsInOrder(s, s.receivers[i])
  }

  lemma EnqueueOnce(s: State)
    requires Enabled(s, Enqueue) && EnqueuedOnce(s)
    ensures EnqueuedOnce(After(s, Enqueue)) && Taken(After(s, Enqueue)) == Taken(s)
  {
    var t := After(s, Enqueue);
    assert Elements(t.enqueued) == Elements(s.enqueued) + {s.opening.value};
  }

  lemma TakeOnce(s: State, succeeds: bool)
    requires Enabled(s, Take(succeeds)) && EnqueuedOnce(s)
    ensures EnqueuedOnce(After(s, Take(succeeds)))
    ensures Taken(After(s, Take(succeeds))) == Taken(s) + [s.queue[0]]
  {
    var t, n := After(s, Take(succeeds)), |s.enqueued| - |s.queue|;
    assert s.queue[0] == s.enqueued[n];
    assert t.queue == s.enqueued[n..][1..] == t.enqueued[n + 1..];
  }

  /** The other steps leave queue and history alone. */
  lemma OtherStepOnce(s: State, step: Step)
    requires Enabled(s, step) && EnqueuedOnce(s) && !step.Enqueue? && !step.Take?
    ensures EnqueuedOnce(After(s, step))
    ensures Taken(After(s, step)) == Taken(s) && After(s, step).subscribed <= s.subscribed
  {
    hide Distinct, Elements;
    var t := After(s, step);
    assert t.queue == s.queue && t.enqueued == s.enqueued;
    if step.Open? {
      assert t.logs.Keys == s.logs.Keys + {step.channel};
      InElements(step.channel, s.enqueued);
    } else {
      assert t.logs.Keys == s.logs.Keys;
    }
  }

  lemma InElements(ch: Channel, xs: seq<Channel>)
    ensures ch in Elements(xs) <==> ch in xs
  {}

  lemma StepEnqueuedOnce(s: State, step: Step)
    requires Enabled(s, step) && EnqueuedOnce(s) && s.subscribed <= Elements(Taken(s))
    ensures EnqueuedOnce(After(s, step)) && After(s, step).subscribed <= Elements(Taken(After(s, step)))
  {
    hide EnqueuedOnce;
    if step.Enqueue? {
      EnqueueOnce(s);
    } else if step.Take? {
      TakeOnce(s, step.succeeds);
      assert Elements(Taken(After(s, step))) == Elements(Taken(s)) + {s.queue[0]};
    } else {
      OtherStepOnce(s, step);
    }
  }

  /** Logs only grow at the end, so what was read stays a part of what was broadcast. */
  lemma StepKeepsReader(s: State, step: Step, x: Receiver)
    requires Enabled(s, step) && ReadsInOrder(s, x)
    ensures ReadsInOrder(After(s, step), x)
  {
    var t := After(s, step);
    assert t.logs[x.channel][x.attached..x.cursor] == s.logs[x.channel][x.attached..x.cursor];
  }

  lemma ReadOn(s: State, x: Receiver, skipped: nat)
    requires ReadsInOrder(s, x) && x.cursor + skipped < |s.logs[x.channel]|
    ensures var next := x.cursor + skipped;
            ReadsInOrder(s, x.(cursor := next + 1, got := x.got + [s.logs[x.channel][next]]))
  {
    hide Subsequence;
    var log, next := s.logs[x.channel], x.cursor + skipped;
    SubsequenceGrows(x.got, log[x.attached..x.cursor], log[x.cursor..next]);
    assert log[x.attached..x.cursor] + log[x.cursor..next] == log[x.attached..next];
    SubsequenceStep(x.got, log[x.attached..next], log[next]);
    assert log[x.attached..next] + [log[next]] == log[x.attached..next + 1];
  }

  lemma StepSafe(s: State, step: Step)
    requires Safe(s) && Enabled(s, step)
    ensures Safe(After(s, step))
  {
    hide EnqueuedOnce, ReadsInOrder;
    var t := After(s, step);
    StepEnqueuedOnce(s, step);
    forall i | 0 <= i < |t.receivers|
      ensures ReadsInOrder(t, t.receivers[i])
    {
      if step.Receive? && i == step.r {
        ReadOn(s, s.receivers[i], step.skipped);
        StepKeepsReader(s, step, t.receivers[i]);
      } else if i < |s.receivers| {
        StepKeepsReader(s, step, s.receivers[i]);
      } else {
        NewReader(t, t.receivers[i]);
      }
    }
  }

  lemma NewReader(s: State, x: Receiver)
    requires x.channel in s.logs && x.attached == x.cursor == |s.logs[x.channel]| && x.got == []
    ensures ReadsInOrder(s, x)
  {}

  /**
   Over every interleaving: with the map lock free, the Subscribe commands ever enqueued are exactly
   the map's channels, once each; and every receiver has read an in-order part of what was
   broadcast on its channel since it attached.
   */
  lemma {:induction false} FanOutSafe(s: State, steps: seq<Step>)
    requires Safe(s) && Legal(s, steps)
    ensures var t := Run(s, steps);
            && Safe(t)
            && (t.opening.None? ==> t.logs.Keys == Elements(t.enqueued) && Distinct(t.enqueued))
    decreases |steps|
  {
    if steps != [] {
      StepSafe(s, steps[0]);
      FanOutSafe(After(s, steps[0]), steps[1..]);
    }
  }

  lemma InitSafe()
    ensures Safe(INIT)
  {
    assert Elements<Channel>([]) == {};
  }

  /** So it is in every run from the start, where the channels of the map are those asked for. */
  lemma FanOutFromStart(steps: seq<Step>)
    requires Legal(INIT, steps)
    ensures var t := Run(INIT, steps);
            && Safe(t) && t.logs.Keys == Asked(steps)
            && (t.opening.None? ==> Elements(t.enqueued) == Asked(steps) && Distinct(t.enqueued))
            && forall i :: 0 <= i < |t.receivers| ==> ReadsInOrder(t, t.receivers[i])
  {
    hide Run, Legal;
    InitSafe();
    FanOutSafe(INIT, steps);
    AskedAreMapped(INIT, steps);
  }

  // ---------------------------------------------------------------------------------------
  // Nothing is lost or duplicated on the way to the broadcast
  // ---------------------------------------------------------------------------------------

  /** The message the dispatcher has read from the stream and not yet broadcast, if it is for this channel. */
  function InHand(s: State, ch: Channel): (r: seq<Payload>)
  {
    if s.dispatcher.Holding? && s.dispatcher.channel == ch then [s.dispatcher.payload] else []
  }

  /** The payloads that arrive for one channel, in order: a function of the steps alone. */
  function Arrivals(steps: seq<Step>, ch: Channel): (r: seq<Payload>)
  {
    if steps == [] then []
    else (if steps[0].Arrive? && steps[0].channel == ch then [steps[0].payload] else []) + Arrivals(steps[1..], ch)
  }

  /** Every message that arrives for a channel in the map is broadcast on it once, in order of arrival. */
  lemma {:induction false} BroadcastExactly(s: State, steps: seq<Step>, ch: Channel)
    requires Legal(s, steps) && ch in s.logs
    ensures var t := Run(s, steps);
            ch in t.logs && t.logs[ch] + InHand(t, ch) == s.logs[ch] + InHand(s, ch) + Arrivals(steps, ch)
    decreases |steps|
  {
    if steps != [] {
      var step, t := steps[0], After(s, steps[0]);
      var one := if step.Arrive? && step.channel == ch then [step.payload] else [];
      BroadcastExactly(t, steps[1..], ch);
      assert t.logs[ch] + InHand(t, ch) == s.logs[ch] + InHand(s, ch) + one;
      Associative(s.logs[ch] + InHand(s, ch), one, Arrivals(steps[1..], ch));
    } else {
      assert s.logs[ch] + InHand(s, ch) + [] == s.logs[ch] + InHand(s, ch);
    }
  }

  /** Receiver `r` never falls behind the broadcast buffer. */
  predicate NeverLags(steps: seq<Step>, r: nat)
  {
    forall i :: 0 <= i < |steps| && steps[i].Receive? && steps[i].r == r ==> steps[i].skipped == 0
  }

  /** The receiver has read all there was, from where it attached to where it stands. */
  predicate ReadAll(s: State, r: nat)
  {
    && r < |s.receivers| && s.receivers[r].channel in s.logs
    && var x := s.receivers[r];
       x.attached <= x.cursor <= |s.logs[x.channel]| && x.got == s.logs[x.channel][x.attached..x.cursor]
  }

  lemma StepReadAll(s: State, step: Step, r: nat)
    requires Enabled(s, step) && ReadAll(s, r) && (step.Receive? && step.r == r ==> step.skipped == 0)
    ensures ReadAll(After(s, step), r)
  {
    var x, t := s.receivers[r], After(s, step);
    var log := s.logs[x.channel];
    assert t.logs[x.channel][x.attached..x.cursor] == log[x.attached..x.cursor];
    if step.Receive? && step.r == r {
      assert log[x.attached..x.cursor] + [log[x.cursor]] == log[x.attached..x.cursor + 1];
    }
  }

  /** A receiver that never lags misses nothing. */
  lemma {:induction false} NoLagNoLoss(s: State, steps: seq<Step>, r: nat)
    requires Legal(s, steps) && ReadAll(s, r) && NeverLags(steps, r)
    ensures ReadAll(Run(s, steps), r)
    decreases |steps|
  {
    hide ReadAll;
    if steps != [] {
      StepReadAll(s, steps[0], r);
      NoLagNoLoss(After(s, steps[0]), steps[1..], r);
    }
  }

  /** Receiver `r` is the same receiver ever after. */
  lemma {:induction false} ReceiverKept(s: State, steps: seq<Step>, r: nat)
    requires Legal(s, steps) && r < |s.receivers|
    ensures var t := Run(s, steps);
            && r < |t.receivers| && t.receivers[r].channel == s.receivers[r].channel
            && t.receivers[r].attached == s.receivers[r].attached
    decreases |steps|
  {
    if steps != [] {
      ReceiverKept(After(s, steps[0]), steps[1..], r);
    }
  }

  /**
   From Redis to the receiver: one that has just attached and never lags has read, or has waiting
   for it, exactly what has arrived for its channel, in order; and so it is with the message in the
   dispatcher's hand.
   */
  lemma EndToEnd(s: State, steps: seq<Step>, r: nat)
    requires Legal(s, steps) && NeverLags(steps, r)
    requires r < |s.receivers| && s.receivers[r].channel in s.logs && s.receivers[r].got == []
    requires s.receivers[r].attached == s.receivers[r].cursor == |s.logs[s.receivers[r].channel]|
    ensures var t, ch := Run(s, steps), s.receivers[r].channel;
            && ReadAll(t, r) && t.receivers[r].channel == ch
            && t.receivers[r].got + t.logs[ch][t.receivers[r].cursor..] + InHand(t, ch)
               == InHand(s, ch) + Arrivals(steps, ch)
  {
    hide Run, Legal, Arrivals, NeverLags;
    var t, ch, n := Run(s, steps), s.receivers[r].channel, s.receivers[r].attached;
    assert ReadAll(s, r);
    NoLagNoLoss(s, steps, r);
    BroadcastExactly(s, steps, ch);
    ReceiverKept(s, steps, r);
    var log, x := t.logs[ch], t.receivers[r];
    assert x.got + log[x.cursor..] == log[n..];
    assert log[n..] + InHand(t, ch) == (log + InHand(t, ch))[n..];
    assert (s.logs[ch] + InHand(s, ch) + Arrivals(steps, ch))[n..] == InHand(s, ch) + Arrivals(steps, ch);
  }

  // ---------------------------------------------------------------------------------------
  // What each caller gets, by the steps alone
  // ---------------------------------------------------------------------------------------

  predicate Subscribes(step: Step, ch: Channel) { step == Join(ch) || step == Open(ch) }

  /** How many calls of `subscribe` have got their receiver. */
  function Served(steps: seq<Step>): (n: nat)
  {
    if steps == [] then 0 else (if steps[0].Join? || steps[0].Open? then 1 else 0) + Served(steps[1..])
  }

  lemma {:induction false} ServedReceivers(s: State, steps: seq<Step>)
    requires Legal(s, steps)
    ensures |Run(s, steps).receivers| == |s.receivers| + Served(steps)
    decreases |steps|
  {
    if steps != [] {
      ServedReceivers(After(s, steps[0]), steps[1..]);
    }
  }

  lemma {:induction false} RunSplit(s: State, a: seq<Step>, b: seq<Step>)
    requires Legal(s, a + b)
    ensures Legal(s, a) && Legal(Run(s, a), b) && Run(s, a + b) == Run(Run(s, a), b)
    decreases |a|
  {
    if a == [] {
      assert a + b == b;
    } else {
      AppendTail(a, b);
      RunSplit(After(s, a[0]), a[1..], b);
    }
  }

  /** The new receiver is the last and starts at the end of its channel's log. */
  lemma Attaches(s: State, step: Step, ch: Channel)
    requires Enabled(s, step) && Subscribes(step, ch)
    ensures var t, r := After(s, step), |s.receivers|;
            && |t.receivers| == r + 1 && ch in t.logs && InHand(t, ch) == InHand(s, ch)
            && t.receivers[r] == Receiver(ch, |t.logs[ch]|, |t.logs[ch]|, [])
  {}

  /** Lagging or not, a receiver has read an in-order part of what has arrived since it attached. */
  lemma GotPart(s: State, steps: seq<Step>, r: nat)
    requires Safe(s) && Legal(s, steps) && r < |s.receivers| && s.receivers[r].channel in s.logs
    requires s.receivers[r].attached == |s.logs[s.receivers[r].channel]|
    ensures var t, ch := Run(s, steps), s.receivers[r].channel;
            r < |t.receivers| && Subsequence(t.receivers[r].got, InHand(s, ch) + Arrivals(steps, ch))
  {
    hide Run, Legal, Arrivals, Subsequence;
    var t, ch, n := Run(s, steps), s.receivers[r].channel, s.receivers[r].attached;
    FanOutSafe(s, steps);
    BroadcastExactly(s, steps, ch);
    ReceiverKept(s, steps, r);
    var log, x := t.logs[ch], t.receivers[r];
    assert ReadsInOrder(t, x);
    var more := log[x.cursor..] + InHand(t, ch);
    SubsequenceGrows(x.got, log[n..x.cursor], more);
    assert log[n..x.cursor] + more == (log + InHand(t, ch))[n..];
    assert (s.logs[ch] + InHand(s, ch) + Arrivals(steps, ch))[n..] == InHand(s, ch) + Arrivals(steps, ch);
  }

  /**
   In every run from the start, the caller served at step `i` gets an in-order part of what arrives
   for its channel from then on, the message already in the dispatcher's hand included; and if it
   never lags, it gets all of it but for what is still waiting.
   */
  lemma SubscriberGets(steps: seq<Step>, i: nat, ch: Channel)
    requires Legal(INIT, steps) && i < |steps| && Subscribes(steps[i], ch)
    ensures Legal(INIT, steps[..i])
    ensures var r, s, t, later := Served(steps[..i]), Run(INIT, steps[..i]), Run(INIT, steps), steps[i + 1..];
            && r < |t.receivers| && t.receivers[r].channel == ch && ch in t.logs
            && t.receivers[r].cursor <= |t.logs[ch]|
            && Subsequence(t.receivers[r].got, InHand(s, ch) + Arrivals(later, ch))
            && (NeverLags(later, r) ==>
                  t.receivers[r].got + t.logs[ch][t.receivers[r].cursor..] + InHand(t, ch)
                  == InHand(s, ch) + Arrivals(later, ch))
  {
    hide Run, Legal, Arrivals, Subsequence, NeverLags, Safe, ReadAll;
    var before, step, later := steps[..i], steps[i], steps[i + 1..];
    assert steps == before + ([step] + later);
    RunSplit(INIT, before, [step] + later);
    var s, r := Run(INIT, before), Served(before);
    OneStep(s, step, later);
    ServedReceivers(INIT, before);
    Attaches(s, step, ch);
    var u := After(s, step);
    FanOutFromStart(before);
    StepSafe(s, step);
    GotPart(u, later, r);
    FanOutSafe(u, later);
    ReceiverKept(u, later, r);
    CursorWithin(Run(u, later), r);
    if NeverLags(later, r) {
      EndToEnd(u, later, r);
    }
  }

  lemma OneStep(s: State, step: Step, later: seq<Step>)
    requires Legal(s, [step] + later)
    ensures Enabled(s, step) && Legal(After(s, step), later) && Run(s, [step] + later) == Run(After(s, step), later)
  {
    assert ([step] + later)[1..] == later;
  }

  lemma CursorWithin(s: State, r: nat)
    requires Safe(s) && r < |s.receivers|
    ensures s.receivers[r].channel in s.logs && s.receivers[r].cursor <= |s.logs[s.receivers[r].channel]|
  {
    assert ReadsInOrder(s, s.receivers[r]);
  }

  // ---------------------------------------------------------------------------------------
  // The dispatcher's rounds
  // ---------------------------------------------------------------------------------------

  lemma {:induction false} StaysConnected(s: State, steps: seq<Step>)
    requires Legal(s, steps) && !s.dispatcher.Connecting?
    requires forall i :: 0 <= i < |steps| ==> !steps[i].StreamEnds?
    ensures !Run(s, steps).dispatcher.Connecting?
    decreases |steps|
  {
    if steps != [] {
      StaysConnected(After(s, steps[0]), steps[1..]);
    }
  }

  lemma {:induction false} NotListening(s: State, steps: seq<Step>)
    requires Legal(s, steps) && !s.dispatcher.Listening?
    requires forall i :: 0 <= i < |steps| ==> !steps[i].Listen?
    ensures !Run(s, steps).dispatcher.Listening?
    decreases |steps|
  {
    if steps != [] {
      NotListening(After(s, steps[0]), steps[1..]);
    }
  }

  /** The run up to step `i`, the step, and the run on to step `j`. */
  lemma Between(steps: seq<Step>, i: nat, j: nat) returns (s: State, t: State)
    requires Legal(INIT, steps) && i < j < |steps|
    ensures Enabled(s, steps[i]) && Legal(After(s, steps[i]), steps[i + 1..j])
    ensures t == Run(After(s, steps[i]), steps[i + 1..j]) && Enabled(t, steps[j])
  {
    hide Run, Legal;
    var before, middle, rest := steps[..i], steps[i + 1..j], steps[j + 1..];
    assert steps == before + ([steps[i]] + (middle + ([steps[j]] + rest)));
    RunSplit(INIT, before, [steps[i]] + (middle + ([steps[j]] + rest)));
    s := Run(INIT, before);
    OneStep(s, steps[i], middle + ([steps[j]] + rest));
    RunSplit(After(s, steps[i]), middle, [steps[j]] + rest);
    t := Run(After(s, steps[i]), middle);
    OneStep(t, steps[j], rest);
  }

  /** A connection is given up only when its stream ends. */
  lemma ConnectionKept(steps: seq<Step>, i: nat, j: nat)
    requires Legal(INIT, steps) && i < j < |steps| && steps[i].Connect? && steps[j].Connect?
    ensures exists k :: i < k < j && steps[k].StreamEnds?
  {
    if forall k :: i < k < j ==> !steps[k].StreamEnds? {
      hide Run, Legal;
      var s, t := Between(steps, i, j);
      StaysConnected(After(s, steps[i]), steps[i + 1..j]);
    }
  }

  /** What the dispatcher may meet while it listens. */
  predicate Heard(step: Step) { step.Arrive? || step.Timeout? || step.Unreadable? }

  /** Between any two things it hears it has emptied the queue: it listened anew, which it only does then. */
  lemma DrainedBetween(steps: seq<Step>, i: nat, j: nat)
    requires Legal(INIT, steps) && i < j < |steps| && Heard(steps[i]) && Heard(steps[j])
    ensures exists k :: i < k < j && steps[k].Listen?
  {
    if forall k :: i < k < j ==> !steps[k].Listen? {
      hide Run, Legal;
      var s, t := Between(steps, i, j);
      NotListening(After(s, steps[i]), steps[i + 1..j]);
    }
  }

  // ---------------------------------------------------------------------------------------
  // What Redis is subscribed to
  // ---------------------------------------------------------------------------------------

  /** A connection is made or lost: its subscriptions are gone. */
  predicate Resets(step: Step) { step.Connect? || step.StreamEnds? }

  /** Step `i` takes the command for `ch` off the queue and Redis accepts it; the connection lives on. */
  ghost predicate AcceptedAt(steps: seq<Step>, i: nat, ch: Channel)
    requires Legal(INIT, steps) && i < |steps|
  {
    assert steps == steps[..i] + steps[i..];
    RunSplit(INIT, steps[..i], steps[i..]);
    var queue := Run(INIT, steps[..i]).queue;
    && steps[i] == Take(true) && queue != [] && queue[0] == ch
    && forall j :: i < j < |steps| ==> !Resets(steps[j])
  }

  /** The connection is subscribed to exactly the channels it has accepted since it was made. */
  lemma {:induction false} SubscribedExactly(steps: seq<Step>, ch: Channel)
    requires Legal(INIT, steps)
    ensures ch in Run(INIT, steps).subscribed <==> exists i :: 0 <= i < |steps| && AcceptedAt(steps, i, ch)
    decreases |steps|
  {
    if steps == [] {
      Nowhere();
    } else {
      hide Run, Legal;
      var n := |steps| - 1;
      var front, last := steps[..n], steps[n];
      assert steps == front + [last];
      RunSplit(INIT, front, [last]);
      var s := Run(INIT, front);
      assert [last] == [last] + [];
      OneStep(s, last, []);
      NothingMore(After(s, last));
      SubscribedExactly(front, ch);
      AcceptedLater(steps, ch);
      assert AcceptedAt(steps, n, ch) <==> last == Take(true) && s.queue != [] && s.queue[0] == ch;
    }
  }

  lemma NothingMore(s: State)
    ensures Legal(s, []) && Run(s, []) == s
  {}

  lemma AcceptedLater(steps: seq<Step>, ch: Channel)
    requires Legal(INIT, steps) && steps != [] && Legal(INIT, steps[..|steps| - 1])
    ensures var n := |steps| - 1;
            forall i :: 0 <= i < n ==> (AcceptedAt(steps, i, ch) <==> AcceptedAt(steps[..n], i, ch) && !Resets(steps[n]))
  {
    hide Run, Legal;
    var n := |steps| - 1;
    forall i | 0 <= i < n
      ensures AcceptedAt(steps, i, ch) <==> AcceptedAt(steps[..n], i, ch) && !Resets(steps[n])
    {
      assert steps[..n][..i] == steps[..i];
    }
  }

  lemma NotInQueue(s: State, ch: Channel)
    requires EnqueuedOnce(s) && ch in Taken(s)
    ensures ch !in s.queue
  {
    var n := |Taken(s)|;
    var i :| 0 <= i < n && Taken(s)[i] == ch;
    assert s.enqueued[i] == ch;
    assert forall j :: 0 <= j < |s.queue| ==> s.queue[j] == s.enqueued[n + j];
  }

  /**
   Each channel is asked for at most once, so one that has been taken and is not subscribed, because
   the call failed or the stream ended since, is never subscribed again.
   */
  lemma {:induction false} NeverResubscribed(s: State, steps: seq<Step>, ch: Channel)
    requires Safe(s) && Legal(s, steps) && ch in Taken(s) && ch !in s.subscribed
    ensures ch !in Run(s, steps).subscribed
    decreases |steps|
  {
    hide EnqueuedOnce, ReadsInOrder;
    if steps != [] {
      var step, t := steps[0], After(s, steps[0]);
      StepSafe(s, step);
      if step.Take? {
        TakeOnce(s, step.succeeds);
        NotInQueue(s, ch);
      } else if step.Enqueue? {
        EnqueueOnce(s);
      } else {
        OtherStepOnce(s, step);
      }
      NeverResubscribed(t, steps[1..], ch);
    }
  }

  // ---------------------------------------------------------------------------------------
  // Progress
  // ---------------------------------------------------------------------------------------

  /** A call holds the lock waiting for room, and the dispatcher, who alone makes room, waits for the lock. */
  predicate Stuck(s: State)
  {
    s.opening.Some? && |s.queue| == CAPACITY && s.dispatcher.Holding?
  }

  /** Steps that are neither a new call nor a receiver reading. */
  predicate Internal(step: Step)
  {
    !step.Join? && !step.Open? && !step.Receive?
  }

  /** Something other than a new call or a receiver can always move, except in exactly that situation. */
  lemma ProgressExactly(s: State)
    requires Safe(s)
    ensures (exists step :: Internal(step) && Enabled(s, step)) <==> !Stuck(s)
  {
    if !Stuck(s) {
      var step :=
        match s.dispatcher
        case Connecting => Connect
        case Draining => if s.queue == [] then Listen else Take(true)
        case Listening => Timeout
        case Holding(_, _) => if s.opening.None? then Deliver else Enqueue;
      assert Internal(step) && Enabled(s, step);
    }
  }

  /** And once there, no call ever completes and nothing is ever broadcast again. */
  lemma {:induction false} StuckForever(s: State, steps: seq<Step>)
    requires Stuck(s) && Legal(s, steps)
    ensures Stuck(Run(s, steps)) && Run(s, steps).logs == s.logs && Run(s, steps).enqueued == s.enqueued
    ensures |Run(s, steps).receivers| == |s.receivers|
    decreases |steps|
  {
    if steps != [] {
      StuckForever(After(s, steps[0]), steps[1..]);
    }
  }

  lemma {:induction false} Chain(s: State, steps: seq<Step>, step: Step)
    requires Legal(s, steps) && Enabled(Run(s, steps), step)
    ensures Legal(s, steps + [step]) && Run(s, steps + [step]) == After(Run(s, steps), step)
    decreases |steps|
  {
    if steps == [] {
      assert [step][1..] == [];
      assert steps + [step] == [step];
    } else {
      Chain(After(s, steps[0]), steps[1..], step);
      AppendTail(steps, [step]);
    }
  }

  /** The channels the callers of `subscribe` ask for. */
  function Asked(steps: seq<Step>): (r: set<Channel>)
  {
    if steps == [] then {}
    else (if steps[0].Join? || steps[0].Open? then {steps[0].channel} else {}) + Asked(steps[1..])
  }

  lemma {:induction false} AskedAreMapped(s: State, steps: seq<Step>)
    requires Legal(s, steps)
    ensures Run(s, steps).logs.Keys == s.logs.Keys + Asked(steps)
    decreases |steps|
  {
    if steps != [] {
      var step, t := steps[0], After(s, steps[0]);
      assert t.logs.Keys == s.logs.Keys + if step.Join? || step.Open? then {step.channel} else {};
      AskedAreMapped(t, steps[1..]);
    }
  }

  /** A full queue, one channel being opened, and one that was taken before: all different. */
  lemma StuckNeedsChannels(s: State)
    requires Safe(s) && Stuck(s)
    ensures |s.logs.Keys| >= CAPACITY + 2
  {
    hide ReadsInOrder;
    var ch := s.dispatcher.channel;
    assert ch in Taken(s);
    assert |s.enqueued| >= CAPACITY + 1;
    DistinctSize(s.enqueued);
    assert s.logs.Keys == Elements(s.enqueued) + {s.opening.value};
  }

  /** The channels `1..n` wait in the queue behind channel 0, which is subscribed. */
  ghost predicate Filled(s: State, n: nat)
  {
    && s.dispatcher.Listening? && s.opening.None? && |s.queue| == n - 1
    && 0 in s.subscribed && s.logs.Keys == UpTo(n)
  }

  lemma OneSubscribed() returns (steps: seq<Step>)
    ensures Legal(INIT, steps) && Filled(Run(INIT, steps), 1)
  {
    hide Legal, Run;
    assert Legal(INIT, []) && Run(INIT, []) == INIT by { Nowhere(); }
    Chain(INIT, [], Connect);
    steps := [] + [Connect];
    Chain(INIT, steps, Open(0));
    steps := steps + [Open(0)];
    Chain(INIT, steps, Enqueue);
    steps := steps + [Enqueue];
    Chain(INIT, steps, Take(true));
    steps := steps + [Take(true)];
    Chain(INIT, steps, Listen);
    steps := steps + [Listen];
    assert Run(INIT, steps).logs.Keys == {0} == UpTo(1);
  }

  lemma FillOne(before: seq<Step>, n: nat) returns (steps: seq<Step>)
    requires Legal(INIT, before) && Filled(Run(INIT, before), n) && 1 <= n <= CAPACITY
    ensures Legal(INIT, steps) && Filled(Run(INIT, steps), n + 1)
  {
    hide Legal, Run, UpTo;
    UpToNext(n);
    Chain(INIT, before, Open(n));
    steps := before + [Open(n)];
    Chain(INIT, steps, Enqueue);
    steps := steps + [Enqueue];
    assert Run(INIT, steps).logs.Keys == UpTo(n) + {n};
  }

  /**
   It can be reached: with channel 0 subscribed, the queue fills while the dispatcher listens, one
   more call waits for room, and then a message arrives on channel 0.
   */
  lemma StuckReachable() returns (steps: seq<Step>)
    ensures Legal(INIT, steps) && Stuck(Run(INIT, steps)) && |Asked(steps)| == CAPACITY + 2
  {
    hide Legal, Run, Asked, UpTo;
    steps := OneSubscribed();
    var n := 1;
    while n <= CAPACITY
      invariant 1 <= n <= CAPACITY + 1 && Legal(INIT, steps) && Filled(Run(INIT, steps), n)
    {
      steps := FillOne(steps, n);
      n := n + 1;
    }
    Chain(INIT, steps, Open(n));
    steps := steps + [Open(n)];
    assert Run(INIT, steps).logs.Keys == UpTo(n) + {n};
    Chain(INIT, steps, Arrive(0, 0));
    steps := steps + [Arrive(0, 0)];
    UpToNext(n);
    AskedAreMapped(INIT, steps);
    assert Asked(steps) == Run(INIT, steps).logs.Keys == UpTo(n + 1);
  }

  /** Callers that ask for at most `n` channels in all can bring it about exactly when `n` is at least 102. */
  lemma StuckPossibleExactly(n: nat)
    ensures (exists steps :: Legal(INIT, steps) && |Asked(steps)| <= n && Stuck(Run(INIT, steps))) <==> n >= 102
  {
    hide Legal, Run, Asked;
    if n >= CAPACITY + 2 {
      var steps := StuckReachable();
    }
    forall steps | Legal(INIT, steps) && |Asked(steps)| <= n && Stuck(Run(INIT, steps))
      ensures n >= CAPACITY + 2
    {
      FanOutFromStart(steps);
      StuckNeedsChannels(Run(INIT, steps));
      AskedAreMapped(INIT, steps);
      assert Run(INIT, steps).logs.Keys == Asked(steps);
    }
  }

  lemma Nowhere()
    ensures Legal(INIT, []) && Run(INIT, []) == INIT
  {}
}
