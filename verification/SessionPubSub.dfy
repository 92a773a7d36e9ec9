/** `handle_pubsub_command`, crates/redis-web-runtime/src/compat.rs:389-497. */
module SessionPubSub {
  import opened Bytes
  import opened RespReply

  datatype Op = Subscribe | PSubscribe | Unsubscribe | PUnsubscribe | Unsupported

  /** What a connection is subscribed to. */
  datatype Subs = Subs(channels: set<bytes>, patterns: set<bytes>)

  datatype Error = NoTarget | BackendFailed | UnsupportedOp

  datatype Result = Ok(frames: seq<bytes>) | Err(error: Error)

  function Total(s: Subs): (n: nat) { |s.channels| + |s.patterns| }

  /** The subscriptions once the backend has taken all of `targets`. */
  function Applied(s: Subs, op: Op, targets: seq<bytes>): (r: Subs)
  {
    match op
    case Subscribe => s.(channels := s.channels + Elements(targets))
    case PSubscribe => s.(patterns := s.patterns + Elements(targets))
    case Unsubscribe => s.(channels := s.channels - Elements(targets))
    case PUnsubscribe => s.(patterns := s.patterns - Elements(targets))
    case Unsupported => s
  }

  const SUBSCRIBE: bytes := Ascii("subscribe")
  const PSUBSCRIBE: bytes := Ascii("psubscribe")
  const UNSUBSCRIBE: bytes := Ascii("unsubscribe")
  const PUNSUBSCRIBE: bytes := Ascii("punsubscribe")

  function Verb(op: Op): (r: bytes)
  {
    match op
    case Subscribe => SUBSCRIBE
    case PSubscribe => PSUBSCRIBE
    case Unsubscribe => UNSUBSCRIBE
    case PUnsubscribe => PUNSUBSCRIBE
    case Unsupported => []
  }

  function Notice(op: Op, target: bytes, count: nat): (v: Value)
  {
    Array([BulkString(Verb(op)), BulkString(target), Int(count)])
  }

  /** One notice per target, each with the total just after its own step. */
  function Notices(s: Subs, op: Op, targets: seq<bytes>): (r: seq<Value>)
    ensures |r| == |targets|
  {
    seq(|targets|, i requires 0 <= i < |targets| => Notice(op, targets[i], Total(Applied(s, op, targets[..i + 1]))))
  }

  function Encoded(vs: seq<Value>): (r: seq<bytes>)
    ensures |r| == |vs|
  {
    seq(|vs|, i requires 0 <= i < |vs| => Encode(vs[i]))
  }

  /** How many of the first `n` backend calls succeed before one fails. */
  function Taken(outcomes: nat -> bool, n: nat): (k: nat)
    ensures k <= n
    ensures forall i: nat :: i < k ==> outcomes(i)
    ensures k < n ==> !outcomes(k)
  {
    if n == 0 then 0
    else
      var k := Taken(outcomes, n - 1);
      if k < n - 1 || !outcomes(n - 1) then k else n
  }

  /** The targets list every member of the set once, in some order. */
  predicate Lists(targets: seq<bytes>, members: set<bytes>)
  {
    Elements(targets) == members && Distinct(targets)
  }

  /** What a bare `UNSUBSCRIBE` or `PUNSUBSCRIBE` stands for. */
  function Current(s: Subs, op: Op): (r: set<bytes>)
  {
    if op.Unsubscribe? then s.channels else if op.PUnsubscribe? then s.patterns else {}
  }

  datatype Request = Request(op: Op, args: seq<bytes>, outcomes: nat -> bool)

  /**
   `targets` are the command's own or, if it has none, what it stands for; those before the first
   failing call took effect; and the answer has one notice per target, or says what went wrong.
   */
  predicate Explains(before: Subs, q: Request, targets: seq<bytes>, after: Subs, r: Result)
  {
    var n := Taken(q.outcomes, |targets|);
    && (if q.args != [] then targets == q.args else Lists(targets, Current(before, q.op)))
    && after == Applied(before, q.op, targets[..n])
    && r == (if q.op.Unsupported? then Err(UnsupportedOp)
             else if q.args == [] && (q.op.Subscribe? || q.op.PSubscribe?) then Err(NoTarget)
             else if targets == [] then Ok([Encode(Notice(q.op, [], Total(before)))])
             else if n == |targets| then Ok(Encoded(Notices(before, q.op, targets)))
             else Err(BackendFailed))
  }

  /** The dedicated Redis connection: a call that fails leaves it as it was. */
  class Backend {
    var channels: set<bytes>
    var patterns: set<bytes>

    constructor ()
      ensures channels == {} && patterns == {}
    {
      channels, patterns := {}, {};
    }

    ghost function Now(): (s: Subs)
      reads this
    {
      Subs(channels, patterns)
    }

    method Call(op: Op, target: bytes, succeeds: bool)
      modifies this
      ensures Now() == if succeeds then Applied(old(Now()), op, [target]) else old(Now())
    {
      if succeeds {
        match op {
          case Subscribe => channels := channels + {target};
          case PSubscribe => patterns := patterns + {target};
          case Unsubscribe => channels := channels - {target};
          case PUnsubscribe => patterns := patterns - {target};
          case Unsupported =>
        }
      }
      assert Elements([target]) == {target};
    }
  }

  /** The session's worker: local sets that must mirror the connection's. */
  class Worker {
    const backend: Backend
    var channels: set<bytes>
    var patterns: set<bytes>

    constructor ()
      ensures Mirrors() && fresh(backend) && Now() == Subs({}, {})
    {
      backend := new Backend();
      channels, patterns := {}, {};
    }

    ghost function Now(): (s: Subs)
      reads this
    {
      Subs(channels, patterns)
    }

    ghost predicate Mirrors()
      reads this, backend
    {
      Now() == backend.Now()
    }

    method Note(op: Op, target: bytes)
      modifies this
      ensures Now() == Applied(old(Now()), op, [target])
    {
      match op {
        case Subscribe => channels := channels + {target};
        case PSubscribe => patterns := patterns + {target};
        case Unsubscribe => channels := channels - {target};
        case PUnsubscribe => patterns := patterns - {target};
        case Unsupported =>
      }
      assert Elements([target]) == {target};
    }

    /** The loop every branch runs: call, then record, then answer; stop at the first failure. */
    method Each(op: Op, targets: seq<bytes>, outcomes: nat -> bool) returns (r: Result)
      requires Mirrors()
      modifies this, backend
      ensures Mirrors()
      ensures var n := Taken(outcomes, |targets|);
              && Now() == Applied(old(Now()), op, targets[..n])
              && r == (if n == |targets| then Ok(Encoded(Notices(old(Now()), op, targets))) else Err(BackendFailed))
    {
      hide Encode, Notice, Notices, Encoded, Applied, Taken, Elements;
      var frames := [];
      ghost var start := Now();
      AppliedNone(start, op);
      var i := 0;
      while i < |targets|
        invariant i <= |targets| && Mirrors()
        invariant forall j: nat :: j < i ==> outcomes(j)
        invariant Now() == Applied(start, op, targets[..i])
        invariant frames == Encoded(Notices(start, op, targets[..i]))
      {
        backend.Call(op, targets[i], outcomes(i));
        if !outcomes(i) {
          assert Taken(outcomes, |targets|) == i;
          return Err(BackendFailed);
        }
        Note(op, targets[i]);
        AppliedOneMore(start, op, targets, i);
        NoticesOneMore(start, op, targets, i);
        var count := |channels| + |patterns|;
        frames := frames + [Encode(Notice(op, targets[i], count))];
        i := i + 1;
      }
      assert Taken(outcomes, |targets|) == |targets|;
      assert targets[..i] == targets;
      return Ok(frames);
    }

    /** `iter().cloned().collect()` on a hash set. */
    method Collect(members: set<bytes>) returns (targets: seq<bytes>)
      ensures Lists(targets, members)
    {
      targets := [];
      var rest := members;
      while rest != {}
        invariant rest <= members && Lists(targets, members - rest)
        decreases rest
      {
        var t :| t in rest;
        assert forall i :: 0 <= i < |targets| ==> targets[i] in Elements(targets);
        assert Elements(targets + [t]) == Elements(targets) + {t};
        targets := targets + [t];
        rest := rest - {t};
      }
      assert members - {} == members;
    }

    /**
     Whatever the backend calls do, the local sets equal the connection's subscriptions before and
     after.  The effect is that of the targets taken before the first failure; a command that
     succeeds answers with one notice per target.
     */
    method Handle(op: Op, args: seq<bytes>, outcomes: nat -> bool) returns (r: Result, ghost targets: seq<bytes>)
      requires Mirrors()
      modifies this, backend
      ensures Mirrors()
      ensures Explains(old(Now()), Request(op, args, outcomes), targets, Now(), r)
    {
      hide Encode, Notices, Notice, Encoded, Taken, Elements;
      assert Lists([], {}) by { NoneListed(); }
      targets := args;
      AppliedNone(Now(), op);
      if op.Unsupported? {
        return Err(UnsupportedOp), args;
      }
      if args == [] && (op.Subscribe? || op.PSubscribe?) {
        return Err(NoTarget), [];
      }
      var list := args;
      if args == [] {
        list := Collect(if op.Unsubscribe? then channels else patterns);
      }
      targets := list;
      if list == [] {
        r := Ok([Encode(Notice(op, [], |channels| + |patterns|))]);
      } else {
        r := Each(op, list, outcomes);
      }
    }
  }

  /**
   The worker's command loop, over a whole run: however the backend calls turn out, every result and
   every change is explained by its own command, and the mirror holds at the end.
   */
  method Serve(requests: seq<Request>)
    returns (worker: Worker, results: seq<Result>, ghost history: seq<Subs>, ghost targets: seq<seq<bytes>>)
    ensures worker.Mirrors() && |results| == |targets| == |requests| && |history| == |requests| + 1
    ensures history[0] == Subs({}, {}) && history[|requests|] == worker.Now()
    ensures forall i :: 0 <= i < |requests| ==>
              Explains(history[i], requests[i], targets[i], history[i + 1], results[i])
  {
    hide Explains;
    worker := new Worker();
    results, targets := [], [];
    history := [worker.Now()];
    for i := 0 to |requests|
      invariant worker.Mirrors() && fresh(worker) && fresh(worker.backend)
      invariant |results| == |targets| == i && |history| == i + 1
      invariant history[0] == Subs({}, {}) && history[i] == worker.Now()
      invariant forall j :: 0 <= j < i ==> Explains(history[j], requests[j], targets[j], history[j + 1], results[j])
    {
      var q := requests[i];
      var r, listed := worker.Handle(q.op, q.args, q.outcomes);
      results, targets := results + [r], targets + [listed];
      history := history + [worker.Now()];
    }
  }

  lemma NoneListed()
    ensures Lists([], {})
  {
    assert Elements<bytes>([]) == {};
  }

  lemma AppliedNone(s: Subs, op: Op)
    ensures Applied(s, op, []) == s
  {
    assert Elements<bytes>([]) == {};
  }

  lemma AppliedOneMore(s: Subs, op: Op, targets: seq<bytes>, i: nat)
    requires i < |targets|
    ensures Applied(Applied(s, op, targets[..i]), op, [targets[i]]) == Applied(s, op, targets[..i + 1])
  {
    assert Elements(targets[..i + 1]) == Elements(targets[..i]) + {targets[i]};
    assert Elements([targets[i]]) == {targets[i]};
  }

  lemma NoticesOneMore(s: Subs, op: Op, targets: seq<bytes>, i: nat)
    requires i < |targets|
    ensures var more := Notice(op, targets[i], Total(Applied(s, op, targets[..i + 1])));
            Encoded(Notices(s, op, targets[..i + 1])) == Encoded(Notices(s, op, targets[..i])) + [Encode(more)]
  {
    hide Encode, Notice, Applied;
    var long, short := targets[..i + 1], targets[..i];
    forall j | 0 <= j < i
      ensures Notices(s, op, long)[j] == Notices(s, op, short)[j]
    {
      assert long[..j + 1] == short[..j + 1];
    }
    assert long[..i + 1] == targets[..i + 1];
  }

  // ---------------------------------------------------------------------------------------
  // What the client sees
  // ---------------------------------------------------------------------------------------

  /** A bare unsubscribe counts down by one, from one less than the total to what is left of the other kind. */
  lemma BareCountsDown(s: Subs, op: Op, targets: seq<bytes>, i: nat)
    requires op.Unsubscribe? || op.PUnsubscribe?
    requires Lists(targets, Current(s, op)) && i < |targets|
    ensures Total(Applied(s, op, targets[..i + 1])) == Total(s) - (i + 1)
    ensures Total(Applied(s, op, targets)) == if op.Unsubscribe? then |s.patterns| else |s.channels|
  {
    DistinctSize(targets);
    DistinctSize(targets[..i + 1]);
    var all, gone := Current(s, op), Elements(targets[..i + 1]);
    assert gone <= all && all * gone == gone;
    assert |all - gone| == |all| - |gone|;
    assert all - Elements(targets) == {};
  }

  lemma {:induction false} ConcatEncoded(vs: seq<Value>)
    ensures Concat(Encoded(vs)) == EncodeList(vs)
  {
    hide Encode;
    if vs != [] {
      ConcatEncoded(vs[1..]);
      assert Encoded(vs)[1..] == Encoded(vs[1..]);
    }
  }

  lemma NoticeClean(op: Op, target: bytes, count: nat)
    ensures Clean(Notice(op, target, count))
  {}

  /** Each notice read back: the verb's text, the target, and the count. */
  lemma NoticeReply(op: Op, target: bytes, count: nat)
    ensures var r := ToReply(Notice(op, target, count));
            && r.Items? && |r.values| == 3
            && r.values[1] == Bulk(target) && r.values[2] == Integer(count)
            && (op.Subscribe? ==> r.values[0] == Bulk(Ascii("subscribe")))
            && (op.PSubscribe? ==> r.values[0] == Bulk(Ascii("psubscribe")))
            && (op.Unsubscribe? ==> r.values[0] == Bulk(Ascii("unsubscribe")))
            && (op.PUnsubscribe? ==> r.values[0] == Bulk(Ascii("punsubscribe")))
  {
    var vs := [BulkString(Verb(op)), BulkString(target), Int(count)];
    assert vs[1..] == [BulkString(target), Int(count)] && vs[1..][1..] == [Int(count)] && vs[1..][1..][1..] == [];
    assert ToReplies(vs) == [ToReply(vs[0])] + ToReplies(vs[1..]);
    assert ToReplies(vs[1..]) == [ToReply(vs[1])] + ToReplies(vs[1..][1..]);
    assert ToReplies(vs[1..][1..]) == [ToReply(vs[2])] + ToReplies([]);
  }

  /** Which subscriptions a command leaves, name by name. */
  lemma EffectExact(s: Subs, op: Op, targets: seq<bytes>, name: bytes)
    ensures var r := Applied(s, op, targets);
            && (name in r.channels <==>
                  (name in s.channels && !(op.Unsubscribe? && name in targets)) || (op.Subscribe? && name in targets))
            && (name in r.patterns <==>
                  (name in s.patterns && !(op.PUnsubscribe? && name in targets)) || (op.PSubscribe? && name in targets))
  {}

  lemma {:induction false} RepliesAt(vs: seq<Value>, i: nat)
    requires i < |vs|
    ensures ToReplies(vs)[i] == ToReply(vs[i])
  {
    hide ToReply;
    if i > 0 {
      RepliesAt(vs[1..], i - 1);
    }
  }

  /** The `i`-th thing the client reads: its target, with the total just after its own step. */
  lemma NoticeAt(s: Subs, op: Op, targets: seq<bytes>, i: nat)
    requires i < |targets|
    ensures var r := ToReplies(Notices(s, op, targets))[i];
            && r.Items? && |r.values| == 3 && r.values[1] == Bulk(targets[i])
            && r.values[2] == Integer(Total(Applied(s, op, targets[..i + 1])))
  {
    hide Notice, ToReply, Applied;
    RepliesAt(Notices(s, op, targets), i);
    NoticeReply(op, targets[i], Total(Applied(s, op, targets[..i + 1])));
  }

  /** The concatenated answer reads back as exactly the notices, whatever follows it. */
  lemma NoticesReadable(s: Subs, op: Op, targets: seq<bytes>, tail: bytes)
    ensures var vs := Notices(s, op, targets);
            DecodeList(Concat(Encoded(vs)) + tail, |targets|) == Got(ToReplies(vs), |Concat(Encoded(vs))|)
  {
    hide Encode, EncodeList, DecodeList, ToReplies, Clean, Notice, Applied, Encoded, Concat;
    var vs := Notices(s, op, targets);
    ConcatEncoded(vs);
    forall i | 0 <= i < |vs|
      ensures Clean(vs[i])
    {
      NoticeClean(op, targets[i], Total(Applied(s, op, targets[..i + 1])));
    }
    RepliesRoundTrip(vs, tail);
  }

  /** The text of a supported command's notices. */
  predicate VerbText(op: Op, verb: bytes)
  {
    || (op.Subscribe? && verb == Ascii("subscribe")) || (op.PSubscribe? && verb == Ascii("psubscribe"))
    || (op.Unsubscribe? && verb == Ascii("unsubscribe")) || (op.PUnsubscribe? && verb == Ascii("punsubscribe"))
  }

  lemma NoticeText(op: Op, target: bytes, count: nat)
    requires !op.Unsupported?
    ensures VerbText(op, Verb(op)) && ToReply(Notice(op, target, count)) == Items([Bulk(Verb(op)), Bulk(target), Integer(count)])
  {
    hide ToReply, Notice;
    NoticeReply(op, target, count);
    var r := ToReply(Notice(op, target, count));
    assert r.values == [r.values[0], r.values[1], r.values[2]];
  }

  lemma ManyRead(s: Subs, op: Op, targets: seq<bytes>, tail: bytes) returns (replies: seq<Reply>)
    requires !op.Unsupported?
    ensures var frames := Encoded(Notices(s, op, targets));
            DecodeList(Concat(frames) + tail, |targets|) == Got(replies, |Concat(frames)|)
    ensures |replies| == |targets|
    ensures forall i :: 0 <= i < |targets| ==>
              replies[i] == Items([Bulk(Verb(op)), Bulk(targets[i]), Integer(Total(Applied(s, op, targets[..i + 1])))])
  {
    hide Encode, DecodeList, ToReplies, ToReply, Notice, Concat, Applied, VerbText, Encoded;
    var vs := Notices(s, op, targets);
    NoticesReadable(s, op, targets, tail);
    replies := ToReplies(vs);
    forall i | 0 <= i < |targets|
      ensures replies[i] == Items([Bulk(Verb(op)), Bulk(targets[i]), Integer(Total(Applied(s, op, targets[..i + 1])))])
    {
      RepliesAt(vs, i);
      NoticeText(op, targets[i], Total(Applied(s, op, targets[..i + 1])));
    }
  }

  lemma OneRead(op: Op, count: nat, tail: bytes)
    requires !op.Unsupported?
    ensures var frames := [Encode(Notice(op, [], count))];
            DecodeList(Concat(frames) + tail, 1) == Got([Items([Bulk(Verb(op)), Bulk([]), Integer(count)])], |Concat(frames)|)
  {
    hide Encode, Decode, ToReply, Notice, Clean, VerbText;
    var v := Notice(op, [], count);
    NoticeClean(op, [], count);
    ReplyRoundTrip(v, tail);
    NoticeText(op, [], count);
    var s := Encode(v) + tail;
    assert Concat([Encode(v)]) == Encode(v) by {
      assert [Encode(v)][1..] == [] && Encode(v) + [] == Encode(v);
    }
    assert DecodeList(s[|Encode(v)|..], 0) == Got([], 0);
    assert [ToReply(v)] + [] == [ToReply(v)];
    assert DecodeList(s, 1) == Got([ToReply(v)] + [], |Encode(v)| + 0);
  }

  /**
   What a client learns from a command that succeeds: one notice per target with the total just
   after its own step, or, when there was nothing to unsubscribe, one with an empty name and the
   total as it is.
   */
  lemma ClientReads(before: Subs, q: Request, targets: seq<bytes>, after: Subs, r: Result, verb: bytes, tail: bytes)
    returns (replies: seq<Reply>)
    requires Explains(before, q, targets, after, r) && r.Ok? && VerbText(q.op, verb)
    ensures DecodeList(Concat(r.frames) + tail, |r.frames|) == Got(replies, |Concat(r.frames)|)
    ensures targets == [] ==> replies == [Items([Bulk(verb), Bulk([]), Integer(Total(before))])] && after == before
    ensures targets != [] ==> |replies| == |targets| && forall i :: 0 <= i < |targets| ==>
              replies[i] == Items([Bulk(verb), Bulk(targets[i]), Integer(Total(Applied(before, q.op, targets[..i + 1])))])
  {
    hide Encode, DecodeList, Notice, Concat, VerbText, Taken, Applied, Notices, Encoded;
    VerbsDiffer(q.op, verb);
    AppliedNone(before, q.op);
    if targets == [] {
      OneRead(q.op, Total(before), tail);
      replies := [Items([Bulk(verb), Bulk([]), Integer(Total(before))])];
    } else {
      replies := ManyRead(before, q.op, targets, tail);
    }
  }

  lemma VerbsDiffer(op: Op, verb: bytes)
    requires VerbText(op, verb)
    ensures verb == Verb(op) && !op.Unsupported?
  {}

  /** A command succeeds exactly when it is supported, has what it needs, and every backend call works. */
  lemma SucceedsExactly(before: Subs, q: Request, targets: seq<bytes>, after: Subs, r: Result)
    requires Explains(before, q, targets, after, r)
    ensures r.Ok? <==>
            && !q.op.Unsupported? && (q.args == [] ==> q.op.Unsubscribe? || q.op.PUnsubscribe?)
            && forall i: nat :: i < |targets| ==> q.outcomes(i)
  {
    hide Encode, Notices;
    var n := Taken(q.outcomes, |targets|);
  }
}
