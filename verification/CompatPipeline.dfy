/** `command_raw`, crates/redis-web-runtime/src/compat.rs:574-621: one HTTP body, many commands. */
module CompatPipeline {
  import opened Bytes
  import opened RespCommand
  import opened WebSocketLoops
  import Framing
  import Utf8
  import Acl

  /** Repeated parsing takes these commands off the front of the body and leaves `rest`. */
  ghost predicate Leaves(body: bytes, frames: seq<Args>, rest: bytes)
    decreases |frames|
  {
    if frames == [] then body == rest
    else
      var r := ParseFrame(body);
      r.Done? && r.value == frames[0] && Leaves(body[r.used..], frames[1..], rest)
  }

  /** Repeated parsing turns the whole body into these commands. */
  ghost predicate Splits(body: bytes, frames: seq<Args>) { Leaves(body, frames, []) }

  /** With `n` commands taken, the loop does not go on at `rest`. */
  predicate Stops(rest: bytes, n: nat, limit: nat)
  {
    rest == [] || !ParseFrame(rest).Done? || n == limit
  }

  lemma {:induction false} LeavesOneMore(body: bytes, frames: seq<Args>, rest: bytes)
    requires Leaves(body, frames, rest) && ParseFrame(rest).Done?
    ensures Leaves(body, frames + [ParseFrame(rest).value], rest[ParseFrame(rest).used..])
    decreases |frames|
  {
    hide ParseFrame;
    var r := ParseFrame(rest);
    if frames == [] {
      assert frames + [r.value] == [r.value] && [r.value][1..] == [];
    } else {
      LeavesOneMore(body[ParseFrame(body).used..], frames[1..], rest);
      AppendTail(frames, [r.value]);
    }
  }

  /** Where the loop stops, and with which commands, is determined by the body and the limit. */
  lemma {:induction false} StopUnique(body: bytes, limit: nat, f: seq<Args>, r: bytes, g: seq<Args>, q: bytes)
    requires Leaves(body, f, r) && |f| <= limit && Stops(r, |f|, limit)
    requires Leaves(body, g, q) && |g| <= limit && Stops(q, |g|, limit)
    ensures f == g && r == q
    decreases |f|
  {
    hide ParseFrame;
    EmptyNeedsMore();
    if f != [] && g != [] {
      StopUnique(body[ParseFrame(body).used..], limit - 1, f[1..], r, g[1..], q);
      assert f == [f[0]] + f[1..] && g == [g[0]] + g[1..];
    }
  }

  /** The body parses within the limit exactly when the loop stops at its end. */
  lemma WholeExactly(body: bytes, limit: nat, f: seq<Args>, r: bytes)
    requires Leaves(body, f, r) && |f| <= limit && Stops(r, |f|, limit)
    ensures r == [] <==> exists frames :: Splits(body, frames) && |frames| <= limit
    ensures forall frames :: Splits(body, frames) && |frames| <= limit ==> frames == f
  {
    hide Leaves, ParseFrame;
    forall frames | Splits(body, frames) && |frames| <= limit
      ensures frames == f && r == []
    {
      StopUnique(body, limit, f, r, frames, []);
    }
    if r == [] {
      assert Splits(body, f);
    }
  }

  /** One response per command: the session's, which knows what ran before, or a refusal. */
  ghost predicate Answered(policy: Acl.Policy, client: Acl.Client, session: (seq<Args>, Args) -> bytes, frames: seq<Args>, parts: seq<bytes>)
  {
    var may := (f: Args) => f != [] && Acl.Permitted(policy, client, Utf8.Lossy(f[0]));
    && |parts| == |frames|
    && forall i :: 0 <= i < |frames| ==>
         parts[i] == if may(frames[i]) then session(Filter(frames[..i], may), frames[i])
                     else if frames[i] == [] then EMPTY_COMMAND
                     else FORBIDDEN
  }

  lemma {:induction false} ConcatOneMore(parts: seq<bytes>, part: bytes)
    ensures Concat(parts + [part]) == Concat(parts) + part
  {
    ConcatAppend(parts, [part]);
    assert Concat([part]) == part + Concat([part][1..]) == part;
  }

  /** One command later: less of the body is left, and the run and the responses grow by that command's. */
  lemma Turn(policy: Acl.Policy, client: Acl.Client, session: (seq<Args>, Args) -> bytes,
             body: bytes, done: seq<Args>, parts: seq<bytes>, args: Args, used: nat, buffer: bytes, part: bytes)
    requires Leaves(body, done, buffer) && ParseFrame(buffer) == Done(args, used)
    requires Answered(policy, client, session, done, parts)
    requires var may := (f: Args) => f != [] && Acl.Permitted(policy, client, Utf8.Lossy(f[0]));
             part == if may(args) then session(Filter(done, may), args)
                     else if args == [] then EMPTY_COMMAND
                     else FORBIDDEN
    ensures Leaves(body, done + [args], buffer[used..])
    ensures Answered(policy, client, session, done + [args], parts + [part])
    ensures Concat(parts + [part]) == Concat(parts) + part
  {
    hide ParseFrame, Leaves, Concat, Utf8.Lossy, Acl.Permitted;
    LeavesOneMore(body, done, buffer);
    ConcatOneMore(parts, part);
    forall i | 0 <= i <= |done|
      ensures (done + [args])[..i] == done[..i]
    {}
    assert done[..|done|] == done;
  }

  /** The access check and `execute_command` for one frame. */
  method Respond(policy: Acl.Policy, client: Acl.Client, session: (seq<Args>, Args) -> bytes, history: seq<Args>, args: Args)
    returns (frame: bytes, ran: bool)
    ensures ran <==> args != [] && Acl.Permitted(policy, client, Utf8.Lossy(args[0]))
    ensures frame == if ran then session(history, args)
                     else if args == [] then EMPTY_COMMAND
                     else FORBIDDEN
  {
    var allowed := true;
    if args != [] {
      allowed := Acl.Check(policy, client, Utf8.Lossy(args[0]));
    }
    if !allowed {
      return FORBIDDEN, false;
    }
    if args == [] {
      return EMPTY_COMMAND, false;
    }
    return session(history, args), true;
  }

  const LIMIT_EXCEEDED: bytes := Ascii("-ERR Pipelined command limit exceeded\r\n")
  const INCOMPLETE: bytes := Ascii("-ERR Incomplete RESP command\r\n")
  const INVALID: bytes := Ascii("-ERR Invalid RESP command\r\n")
  const NO_BODY: bytes := Ascii("-ERR Empty command body\r\n")

  lemma ComplaintTexts()
    ensures LIMIT_EXCEEDED == Ascii("-ERR Pipelined command limit exceeded\r\n")
    ensures INCOMPLETE == Ascii("-ERR Incomplete RESP command\r\n")
    ensures INVALID == Ascii("-ERR Invalid RESP command\r\n")
    ensures NO_BODY == Ascii("-ERR Empty command body\r\n")
  {}

  const HTTP_OK: nat := 200
  const BAD_REQUEST: nat := 400

  /**
   Whatever the outcome, the commands `frames` were taken off the body, at most `limit` of them, and
   at `rest` parsing asks for more, fails, or would take one too many; exactly the non-empty ones the
   rules permit ran, in order.  200 exactly when repeated parsing consumes the non-empty body within
   the limit, with one response per command in order; otherwise 400 with the reason.
   */
  method CommandRaw(policy: Acl.Policy, client: Acl.Client, session: (seq<Args>, Args) -> bytes, limit: nat, body: bytes)
    returns (status: nat, payload: bytes, executed: seq<Args>, ghost frames: seq<Args>, ghost parts: seq<bytes>, ghost rest: bytes)
    ensures Leaves(body, frames, rest) && |frames| <= limit && Stops(rest, |frames|, limit)
    ensures executed == Filter(frames, f => f != [] && Acl.Permitted(policy, client, Utf8.Lossy(f[0])))
    ensures |executed| <= limit && Answered(policy, client, session, frames, parts)
    ensures status == (if body != [] && rest == [] then 200 else 400)
    ensures status == 200 <==> body != [] && exists fs :: Splits(body, fs) && |fs| <= limit
    ensures status == 200 ==> payload == Concat(parts)
    ensures body == [] ==> payload == NO_BODY
    ensures rest != [] ==>
              match ParseFrame(rest)
              case More => payload == INCOMPLETE
              case Fail(_) => payload == INVALID
              case Done(_, _) => payload == LIMIT_EXCEEDED
  {
    hide ParseFrame, Leaves, Answered, Concat, Utf8.Lossy, Acl.Permitted;
    ghost var may := (f: Args) => f != [] && Acl.Permitted(policy, client, Utf8.Lossy(f[0]));
    frames, parts, executed := [], [], [];
    Nothing(policy, client, session, body);
    if body == [] {
      WholeExactly(body, limit, [], []);
      return BAD_REQUEST, NO_BODY, [], [], [], [];
    }
    var buffer, out, count := body, [], 0;
    while buffer != []
      invariant count == |frames| <= limit
      invariant Leaves(body, frames, buffer)
      invariant executed == Filter(frames, may)
      invariant Answered(policy, client, session, frames, parts) && out == Concat(parts)
      decreases |buffer|
    {
      var parsed := ParseCommand(buffer);
      rest := buffer;
      FilterSame(frames, may, f => f != [] && Acl.Permitted(policy, client, Utf8.Lossy(f[0])));
      match parsed {
        case Done(args, used) =>
          count := count + 1;
          if count > limit {
            WholeExactly(body, limit, frames, rest);
            return BAD_REQUEST, LIMIT_EXCEEDED, executed, frames, parts, rest;
          }
          var frame, ran := Respond(policy, client, session, executed, args);
          Turn(policy, client, session, body, frames, parts, args, used, buffer, frame);
          FilterOneMore(frames, args, may);
          buffer := buffer[used..];
          frames, parts := frames + [args], parts + [frame];
          out := out + frame;
          if ran {
            executed := executed + [args];
          }
        case More =>
          WholeExactly(body, limit, frames, rest);
          return BAD_REQUEST, INCOMPLETE, executed, frames, parts, rest;
        case Fail(_) =>
          WholeExactly(body, limit, frames, rest);
          return BAD_REQUEST, INVALID, executed, frames, parts, rest;
      }
    }
    WholeExactly(body, limit, frames, []);
    return HTTP_OK, out, executed, frames, parts, [];
  }

  lemma Nothing(policy: Acl.Policy, client: Acl.Client, session: (seq<Args>, Args) -> bytes, body: bytes)
    ensures Leaves(body, [], body) && Answered(policy, client, session, [], []) && Concat([]) == []
  {}

  /** Pipelining the encodings of at most `limit` commands in one body always succeeds on exactly those commands. */
  lemma {:induction false} PipelineRoundTrip(cmds: seq<Args>)
    requires Framing.AllFit(cmds)
    ensures Splits(Framing.Stream(cmds), cmds)
  {
    hide ParseFrame, EncodeFrame;
    if cmds != [] {
      var rest := Framing.Stream(cmds[1..]);
      FrameRoundTrip(cmds[0], rest);
      assert (EncodeFrame(cmds[0]) + rest)[|EncodeFrame(cmds[0])|..] == rest;
      PipelineRoundTrip(cmds[1..]);
    }
  }

  lemma {:induction false} PayloadIsConcat(sent: seq<Sent>, parts: seq<bytes>)
    requires |sent| == |parts| && forall i :: 0 <= i < |parts| ==> sent[i] == Answer(parts[i])
    ensures Payload(sent) == Concat(parts)
    decreases |parts|
  {
    if parts != [] {
      PayloadIsConcat(sent[1..], parts[1..]);
    }
  }

  /** HTTP pipelining and the compat WebSocket give the same octets for the same commands. */
  lemma SameAsSocket(policy: Acl.Policy, client: Acl.Client, session: (seq<Args>, Args) -> bytes,
                     cmds: seq<Args>, parts: seq<bytes>, events: seq<Event>)
    requires Answered(policy, client, session, cmds, parts) && Framing.AllFit(cmds)
    requires Concat(Delivered(events)) == Framing.Stream(cmds) && Framing.SafeCuts(cmds, 0, Delivered(events))
    ensures var sent := NoPongs(Run(CompatLoop(policy, client, session), FRESH, events).sent);
            (forall i :: 0 <= i < |sent| ==> sent[i].Answer?) && Payload(sent) == Concat(parts)
  {
    hide Run, NoPongs, CompatLoop, Payload, Concat, Utf8.Lossy, Acl.Permitted;
    var may := (f: Args) => f != [] && Acl.Permitted(policy, client, Utf8.Lossy(f[0]));
    CompatRunExact(policy, client, session, may, cmds, events);
    var sent := NoPongs(Run(CompatLoop(policy, client, session), FRESH, events).sent);
    forall i | 0 <= i < |cmds|
      ensures sent[i] == Answer(parts[i])
    {
      FilterSame(cmds[..i], may, f => f != [] && Acl.Permitted(policy, client, Utf8.Lossy(f[0])));
    }
    PayloadIsConcat(sent, parts);
  }
}
