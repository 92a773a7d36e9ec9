/**
 The two raw WebSocket loops, crates/redis-web-runtime/src/websocket.rs:127-219 and
 crates/redis-web-runtime/src/compat.rs:713-761.  They share one shape and differ in which frames
 they run, what they answer to the others, and whether a framing error that cannot be sent ends
 the connection; those differences are the fields of `Loop`.
 */
module WebSocketLoops {
  import opened Bytes
  import Utf8
  import opened RespCommand
  import opened RespReply
  import opened Framing
  import Acl

  /**
   `runs` tells which frames reach the backend.  The backend's reply may depend on everything it
   ran before, so it is a function of that history.  Other frames get `refusal`, if any.
   */
  datatype Loop = Loop(
    runs: Args -> bool,
    reply: (seq<Args>, Args) -> bytes,
    refusal: Args -> Option<bytes>,
    lostFaultEnds: bool)

  datatype Event = Binary(data: bytes) | Text(data: bytes) | Ping(payload: bytes) | Pong | Close | Lost

  datatype Sent = Answer(frame: bytes) | FramingError | PongBack(payload: bytes)

  /** `sendsLeft` is how many messages the peer still takes before sending fails; `None` is no limit. */
  datatype Socket = Socket(buffer: bytes, executed: seq<Args>, sent: seq<Sent>, sendsLeft: Option<nat>, open: bool)

  const ERR: bytes := Ascii("-ERR ")

  // ---------------------------------------------------------------------------------------
  // The two instances
  // ---------------------------------------------------------------------------------------

  datatype Command = Command(database: nat, name: bytes, args: seq<bytes>)

  datatype Executed = Ok(value: Value) | Error(message: bytes)

  /** The first argument names the command and the others are its arguments, untouched. */
  function ToCommand(database: nat, args: Args): (c: Command)
    requires args != []
    ensures c.database == database && |c.args| == |args| - 1 && [args[0]] + c.args == args
    ensures Utf8.Valid(args[0]) <==> [c.name] + c.args == args
  {
    Utf8.LossyExactlyValid(args[0]);
    Command(database, Utf8.Lossy(args[0]), args[1..])
  }

  /** The frame for the executor's result: its value, or an error line. */
  function Print(e: Executed): (frame: bytes)
  {
    match e
    case Ok(value) => Encode(value)
    case Error(message) => ERR + message + CRLF
  }

  /** `/.raw`: the executor sees every non-empty command on the default database; empty ones vanish. */
  function RawLoop(database: nat, executor: (seq<Args>, Command) -> Executed): (l: Loop)
  {
    Loop(
      args => args != [],
      (history, args) =>
        if args == [] then []
        else Print(executor(history, ToCommand(database, args))),
      args => None,
      true)
  }

  const FORBIDDEN: bytes := Ascii("-ERR forbidden\r\n")
  const EMPTY_COMMAND: bytes := Ascii("-ERR Empty command\r\n")

  /** Octet by octet: `-ERR forbidden`, `-ERR Empty command`, each with CR and LF. */
  lemma RefusalOctets()
    ensures FORBIDDEN == [45, 69, 82, 82, 32, 102, 111, 114, 98, 105, 100, 100, 101, 110, 13, 10]
    ensures EMPTY_COMMAND == [45, 69, 82, 82, 32, 69, 109, 112, 116, 121, 32, 99, 111, 109, 109, 97, 110, 100, 13, 10]
  {}

  /** `is_command_allowed`. */
  predicate IsCommandAllowed(policy: Acl.Policy, client: Acl.Client, args: Args)
  {
    args == [] || Acl.Permitted(policy, client, Utf8.Lossy(args[0]))
  }

  /** A compat session: the access rules decide, and an empty command is answered without the backend. */
  function CompatLoop(policy: Acl.Policy, client: Acl.Client, session: (seq<Args>, Args) -> bytes): (l: Loop)
  {
    Loop(
      args => args != [] && IsCommandAllowed(policy, client, args),
      session,
      args => Some(if args == [] then EMPTY_COMMAND else FORBIDDEN),
      false)
  }

  // ---------------------------------------------------------------------------------------
  // One event
  // ---------------------------------------------------------------------------------------

  function Closed(s: Socket): (r: Socket) { s.(open := false, buffer := []) }

  function Send(s: Socket, m: Sent): (r: Socket)
  {
    match s.sendsLeft
    case None => s.(sent := s.sent + [m])
    case Some(n) => if n == 0 then Closed(s) else s.(sent := s.sent + [m], sendsLeft := Some(n - 1))
  }

  function Serve(loop: Loop, s: Socket, item: Item): (r: Socket)
  {
    match item
    case Fault => if !loop.lostFaultEnds && s.sendsLeft == Some(0) then s else Send(s, FramingError)
    case Frame(args) =>
      if loop.runs(args) then
        Send(s.(executed := s.executed + [args]), Answer(loop.reply(s.executed, args)))
      else
        match loop.refusal(args)
        case None => s
        case Some(frame) => Send(s, Answer(frame))
  }

  function ServeAll(loop: Loop, s: Socket, items: seq<Item>): (r: Socket)
    decreases |items|
  {
    if items == [] || !s.open then s else ServeAll(loop, Serve(loop, s, items[0]), items[1..])
  }

  /** Drain the buffer and serve what comes out of it. */
  function Pumped(loop: Loop, s: Socket): (r: Socket)
  {
    var d := Drain(s.buffer);
    ServeAll(loop, s.(buffer := d.buffer), d.items)
  }

  /** One turn of the inner loop keeps the outcome: serve the first frame, then pump the rest. */
  lemma PumpStep(loop: Loop, s: Socket)
    requires s.open
    ensures match ParseFrame(s.buffer)
            case Done(args, used) =>
              var next := Serve(loop, s.(buffer := s.buffer[used..]), Frame(args));
              Pumped(loop, s) == if next.open then Pumped(loop, next) else next
            case More => Pumped(loop, s) == s
            case Fail(_) => Pumped(loop, s) == Serve(loop, s.(buffer := []), Fault)
  {
    hide ParseFrame;
    var d := Drain(s.buffer);
    match ParseFrame(s.buffer)
    case Done(args, used) =>
      var rest := Drain(s.buffer[used..]);
      assert d.items[1..] == rest.items;
      var next := Serve(loop, s.(buffer := s.buffer[used..]), Frame(args));
      var served := Serve(loop, s.(buffer := rest.buffer), Frame(args));
      assert served == if next.open then next.(buffer := rest.buffer) else next;
      assert Pumped(loop, s) == ServeAll(loop, served, rest.items);
    case More =>
    case Fail(_) =>
      assert d.items[1..] == [];
  }

  lemma FaultStep(loop: Loop, s: Socket)
    ensures Serve(loop, s, Fault)
         == if loop.lostFaultEnds || s.sendsLeft != Some(0) then Send(s, FramingError) else s
  {}

  function Handle(loop: Loop, s: Socket, e: Event): (r: Socket)
  {
    if !s.open then s
    else
      match e
      case Binary(data) => Pumped(loop, s.(buffer := s.buffer + data))
      case Text(data) => Pumped(loop, s.(buffer := s.buffer + data))
      case Ping(payload) => Send(s, PongBack(payload))
      case Pong => s
      case Close => Closed(s)
      case Lost => Closed(s)
  }

  function Run(loop: Loop, s: Socket, events: seq<Event>): (r: Socket)
    decreases |events|
  {
    if events == [] then s else Run(loop, Handle(loop, s, events[0]), events[1..])
  }

  const FRESH: Socket := Socket([], [], [], None, true)

  /** A connection as the loops keep it: fields extended, drained and cleared in place. */
  class Connection {
    const loop: Loop
    var buffer: bytes
    var executed: seq<Args>
    var sent: seq<Sent>
    var sendsLeft: Option<nat>
    var open: bool

    constructor (loop: Loop, sendsLeft: Option<nat>)
      ensures this.loop == loop && Now() == FRESH.(sendsLeft := sendsLeft)
    {
      this.loop := loop;
      this.sendsLeft := sendsLeft;
      buffer, executed, sent, open := [], [], [], true;
    }

    ghost function Now(): (s: Socket)
      reads this
    {
      Socket(buffer, executed, sent, sendsLeft, open)
    }

    method Transmit(m: Sent)
      modifies this
      ensures Now() == Send(old(Now()), m)
    {
      if sendsLeft == Some(0) {
        open := false;
        buffer := [];
      } else {
        sent := sent + [m];
        if sendsLeft.Some? {
          sendsLeft := Some(sendsLeft.value - 1);
        }
      }
    }

    method ServeFrame(args: Args)
      modifies this
      ensures Now() == Serve(loop, old(Now()), Frame(args))
      ensures open ==> buffer == old(buffer)
    {
      if loop.runs(args) {
        var frame := loop.reply(executed, args);
        executed := executed + [args];
        Transmit(Answer(frame));
      } else if loop.refusal(args).Some? {
        Transmit(Answer(loop.refusal(args).value));
      }
    }

    /** The inner loop: parse, drain, serve; stop on `More`, clear on a format error. */
    method Pump()
      requires open
      modifies this
      ensures Now() == Pumped(loop, old(Now()))
    {
      hide ParseFrame, Serve, Pumped;
      while true
        invariant open && Pumped(loop, Now()) == Pumped(loop, old(Now()))
        decreases |buffer|
      {
        var parsed := ParseCommand(buffer);
        ghost var before := Now();
        PumpStep(loop, before);
        match parsed {
          case Done(args, used) =>
            buffer := buffer[used..];
            ServeFrame(args);
            if !open {
              return;
            }
          case More =>
            return;
          case Fail(e) =>
            buffer := [];
            FaultStep(loop, Now());
            if loop.lostFaultEnds || sendsLeft != Some(0) {
              Transmit(FramingError);
            }
            return;
        }
      }
    }

    /** The outer loop's body, one message at a time. */
    method OnEvent(e: Event)
      requires open
      modifies this
      ensures Now() == Handle(loop, old(Now()), e)
    {
      match e {
        case Binary(data) =>
          buffer := buffer + data;
          Pump();
        case Text(data) =>
          buffer := buffer + data;
          Pump();
        case Ping(payload) => Transmit(PongBack(payload));
        case Pong =>
        case Close => open, buffer := false, [];
        case Lost => open, buffer := false, [];
      }
    }
  }

  // ---------------------------------------------------------------------------------------
  // What a run does, in terms of the frames alone
  // ---------------------------------------------------------------------------------------

  function RanOne(loop: Loop, item: Item): (r: seq<Args>)
  {
    if item.Frame? && loop.runs(item.args) then [item.args] else []
  }

  /** The frames that reach the backend. */
  function Ran(loop: Loop, items: seq<Item>): (r: seq<Args>)
  {
    if items == [] then [] else RanOne(loop, items[0]) + Ran(loop, items[1..])
  }

  /** The answer to one frame or fault, given what the backend ran before; a skipped frame has none. */
  function AnswerOne(loop: Loop, history: seq<Args>, item: Item): (r: seq<Sent>)
  {
    match item
    case Fault => [FramingError]
    case Frame(args) =>
      if loop.runs(args) then [Answer(loop.reply(history, args))]
      else if loop.refusal(args).Some? then [Answer(loop.refusal(args).value)]
      else []
  }

  /** All answers, in order. */
  function Answers(loop: Loop, history: seq<Args>, items: seq<Item>): (r: seq<Sent>)
    decreases |items|
  {
    if items == [] then []
    else AnswerOne(loop, history, items[0]) + Answers(loop, history + RanOne(loop, items[0]), items[1..])
  }

  /** The sent messages without the answers to pings. */
  function NoPongs(sent: seq<Sent>): (r: seq<Sent>)
  {
    if sent == [] then [] else (if sent[0].PongBack? then [] else [sent[0]]) + NoPongs(sent[1..])
  }

  /** The data messages that arrive before the connection ends. */
  function Delivered(events: seq<Event>): (chunks: seq<bytes>)
  {
    if events == [] then []
    else
      match events[0]
      case Binary(data) => [data] + Delivered(events[1..])
      case Text(data) => [data] + Delivered(events[1..])
      case Ping(_) => Delivered(events[1..])
      case Pong => Delivered(events[1..])
      case Close => []
      case Lost => []
  }

  lemma {:induction false} NoPongsAppend(a: seq<Sent>, b: seq<Sent>)
    ensures NoPongs(a + b) == NoPongs(a) + NoPongs(b)
  {
    if a == [] {
      assert a + b == b;
    } else {
      NoPongsAppend(a[1..], b);
      AppendTail(a, b);
      Associative(if a[0].PongBack? then [] else [a[0]], NoPongs(a[1..]), NoPongs(b));
    }
  }

  lemma NoPongsOne(a: seq<Sent>, m: Sent)
    ensures NoPongs(a + [m]) == NoPongs(a) + (if m.PongBack? then [] else [m])
  {
    NoPongsAppend(a, [m]);
    assert [m][1..] == [];
  }

  lemma ServeUnlimited(loop: Loop, s: Socket, item: Item)
    requires s.open && s.sendsLeft == None
    ensures var r := Serve(loop, s, item);
            && r.open && r.sendsLeft == None && r.buffer == s.buffer
            && r.executed == s.executed + RanOne(loop, item)
            && r.sent == s.sent + AnswerOne(loop, s.executed, item)
            && NoPongs(r.sent) == NoPongs(s.sent) + AnswerOne(loop, s.executed, item)
  {
    hide NoPongs;
    var answer := AnswerOne(loop, s.executed, item);
    NoPongsAppend(s.sent, answer);
    NoPongsShort(answer);
  }

  lemma NoPongsShort(answer: seq<Sent>)
    requires |answer| <= 1 && (answer != [] ==> !answer[0].PongBack?)
    ensures NoPongs(answer) == answer
  {}

  lemma {:induction false} ServeAllUnlimited(loop: Loop, s: Socket, items: seq<Item>)
    requires s.open && s.sendsLeft == None
    ensures var r := ServeAll(loop, s, items);
            && r.open && r.sendsLeft == None && r.buffer == s.buffer
            && r.executed == s.executed + Ran(loop, items)
            && NoPongs(r.sent) == NoPongs(s.sent) + Answers(loop, s.executed, items)
    decreases |items|
  {
    hide NoPongs, Serve, RanOne, AnswerOne;
    if items != [] {
      var next := Serve(loop, s, items[0]);
      ServeUnlimited(loop, s, items[0]);
      ServeAllUnlimited(loop, next, items[1..]);
      Associative(s.executed, RanOne(loop, items[0]), Ran(loop, items[1..]));
      Associative(NoPongs(s.sent), AnswerOne(loop, s.executed, items[0]), Answers(loop, next.executed, items[1..]));
    }
  }

  lemma {:induction false} RanAppend(loop: Loop, a: seq<Item>, b: seq<Item>)
    ensures Ran(loop, a + b) == Ran(loop, a) + Ran(loop, b)
  {
    if a == [] {
      assert a + b == b;
    } else {
      RanAppend(loop, a[1..], b);
      AppendTail(a, b);
      Associative(RanOne(loop, a[0]), Ran(loop, a[1..]), Ran(loop, b));
    }
  }

  lemma {:induction false} AnswersAppend(loop: Loop, history: seq<Args>, a: seq<Item>, b: seq<Item>)
    ensures Answers(loop, history, a + b) == Answers(loop, history, a) + Answers(loop, history + Ran(loop, a), b)
    decreases |a|
  {
    if a == [] {
      assert a + b == b && history + [] == history;
    } else {
      hide RanOne, AnswerOne;
      var next := history + RanOne(loop, a[0]);
      AnswersAppend(loop, next, a[1..], b);
      AppendTail(a, b);
      Associative(history, RanOne(loop, a[0]), Ran(loop, a[1..]));
      Associative(AnswerOne(loop, history, a[0]), Answers(loop, next, a[1..]), Answers(loop, next + Ran(loop, a[1..]), b));
    }
  }

  /** Since `start` the socket has done exactly what the framing state calls for. */
  ghost predicate Tracks(loop: Loop, start: Socket, s: Socket, f: State)
  {
    && s.sendsLeft == None
    && s.buffer == (if s.open then f.buffer else [])
    && s.executed == start.executed + Ran(loop, f.items)
    && NoPongs(s.sent) == NoPongs(start.sent) + Answers(loop, start.executed, f.items)
  }

  /** Without send failures, a run is determined by framing its data messages. */
  lemma {:induction false} RunTracksFraming(loop: Loop, start: Socket, s: Socket, f: State, events: seq<Event>)
    requires s.open && Tracks(loop, start, s, f)
    ensures Tracks(loop, start, Run(loop, s, events), FeedAll(f, Delivered(events)))
    decreases |events|
  {
    hide Drain, ServeAll, Answers, Ran, NoPongs;
    if events != [] {
      var e, next := events[0], Handle(loop, s, events[0]);
      var rest := Delivered(events[1..]);
      if e.Binary? || e.Text? {
        var d := Drain(s.buffer + e.data);
        ServeAllUnlimited(loop, s.(buffer := d.buffer), d.items);
        RanAppend(loop, f.items, d.items);
        AnswersAppend(loop, start.executed, f.items, d.items);
        Associative(start.executed, Ran(loop, f.items), Ran(loop, d.items));
        Associative(NoPongs(start.sent), Answers(loop, start.executed, f.items), Answers(loop, s.executed, d.items));
        assert Delivered(events)[0] == e.data && Delivered(events)[1..] == rest;
        RunTracksFraming(loop, start, next, Feed(f, e.data), events[1..]);
      } else if e.Close? || e.Lost? {
        RunClosed(loop, next, events[1..]);
      } else {
        if e.Ping? {
          NoPongsOne(s.sent, PongBack(e.payload));
        }
        RunTracksFraming(loop, start, next, f, events[1..]);
      }
    }
  }

  lemma {:induction false} RunClosed(loop: Loop, s: Socket, events: seq<Event>)
    requires !s.open
    ensures Run(loop, s, events) == s
    decreases |events|
  {
    if events != [] {
      RunClosed(loop, s, events[1..]);
    }
  }

  // ---------------------------------------------------------------------------------------
  // Main results
  // ---------------------------------------------------------------------------------------

  lemma {:induction false} FaultAnswered(loop: Loop, history: seq<Args>, items: seq<Item>)
    ensures FramingError in Answers(loop, history, items) <==> Fault in items
    decreases |items|
  {
    if items != [] {
      FaultAnswered(loop, history + RanOne(loop, items[0]), items[1..]);
      assert items == [items[0]] + items[1..];
    }
  }

  lemma {:induction false} FaultSent(sent: seq<Sent>)
    ensures FramingError in NoPongs(sent) <==> FramingError in sent
  {
    if sent != [] {
      FaultSent(sent[1..]);
      assert sent == [sent[0]] + sent[1..];
    }
  }

  /** Open, with nothing buffered and a peer that takes all it is sent. */
  predicate AtRest(s: Socket) { s.open && s.sendsLeft == None && s.buffer == [] }

  /**
   For every command list and every run whose data messages concatenate to its encoding, pings and
   all: the loop runs exactly the commands it should, in order, answers each and ends with an empty
   buffer and no framing error, if and only if no message boundary is harmful.
   */
  lemma SocketFrom(loop: Loop, start: Socket, cmds: seq<Args>, events: seq<Event>)
    requires AtRest(start) && AllFit(cmds) && Concat(Delivered(events)) == Stream(cmds)
    ensures var r, n := Run(loop, start, events), |NoPongs(start.sent)|;
            && n <= |NoPongs(r.sent)|
            && (FramingError in NoPongs(r.sent)[n..] <==> !SafeCuts(cmds, 0, Delivered(events)))
            && (SafeCuts(cmds, 0, Delivered(events)) ==>
                  && r.executed == start.executed + Ran(loop, Frames(cmds))
                  && NoPongs(r.sent) == NoPongs(start.sent) + Answers(loop, start.executed, Frames(cmds))
                  && r.buffer == [])
  {
    hide Run, FeedAll, Answers, Ran, SafeCuts, NoPongs;
    var r, f := Run(loop, start, events), FeedAll(State([], []), Delivered(events));
    assert Tracks(loop, start, start, State([], [])) by {
      NothingYet(loop, start.executed);
      assert start.executed + [] == start.executed && NoPongs(start.sent) + [] == NoPongs(start.sent);
    }
    RunTracksFraming(loop, start, start, State([], []), events);
    ChunkingExact(cmds, Delivered(events));
    FaultAnswered(loop, start.executed, f.items);
    var before, more := NoPongs(start.sent), Answers(loop, start.executed, f.items);
    assert (before + more)[|before|..] == more;
  }

  /** The same from a fresh connection. */
  lemma SocketExact(loop: Loop, cmds: seq<Args>, events: seq<Event>)
    requires AllFit(cmds) && Concat(Delivered(events)) == Stream(cmds)
    ensures var r := Run(loop, FRESH, events);
            && (FramingError in r.sent <==> !SafeCuts(cmds, 0, Delivered(events)))
            && (SafeCuts(cmds, 0, Delivered(events)) ==>
                  && r.executed == Ran(loop, Frames(cmds))
                  && NoPongs(r.sent) == Answers(loop, [], Frames(cmds))
                  && r.buffer == [])
  {
    hide Run, Answers, Ran, SafeCuts;
    SocketFrom(loop, FRESH, cmds, events);
    FaultSent(Run(loop, FRESH, events).sent);
    assert NoPongs(FRESH.sent) == [];
  }

  lemma NothingYet(loop: Loop, history: seq<Args>)
    ensures Ran(loop, []) == [] && Answers(loop, history, []) == []
  {}

  /** A message with a framing error in it costs what was buffered and is answered once; the connection is at rest again. */
  lemma FaultRecovers(loop: Loop, s: Socket, data: bytes)
    requires s.open && s.sendsLeft == None && Fault in Drain(s.buffer + data).items
    ensures var r := Handle(loop, s, Binary(data));
            && AtRest(r) && r.sent != [] && r.sent[|r.sent| - 1] == FramingError
            && Handle(loop, s, Text(data)) == r
  {
    hide Drain, Answers, Ran, NoPongs;
    var d := Drain(s.buffer + data);
    FaultClears(s.buffer + data);
    ServeAllUnlimited(loop, s.(buffer := d.buffer), d.items);
    ServeEnds(loop, s.(buffer := d.buffer), d.items);
  }

  lemma {:induction false} ServeEnds(loop: Loop, s: Socket, items: seq<Item>)
    requires s.open && s.sendsLeft == None && items != [] && items[|items| - 1] == Fault
    ensures var r := ServeAll(loop, s, items); r.sent != [] && r.sent[|r.sent| - 1] == FramingError
    decreases |items|
  {
    hide NoPongs;
    var next := Serve(loop, s, items[0]);
    ServeUnlimited(loop, s, items[0]);
    if |items| > 1 {
      ServeEnds(loop, next, items[1..]);
    } else {
      assert items[1..] == [];
    }
  }

  /** Once the peer takes no more, nothing more runs: at most one command beyond the messages it took. */
  ghost predicate Limited(s: Socket, n: nat)
  {
    && s.sendsLeft.Some?
    && (if s.open then |s.executed| + s.sendsLeft.value <= n else |s.executed| <= n + 1)
  }

  lemma {:induction false} ServeAllLimited(loop: Loop, s: Socket, items: seq<Item>, n: nat)
    requires Limited(s, n)
    ensures Limited(ServeAll(loop, s, items), n)
    decreases |items|
  {
    if items != [] && s.open {
      ServeAllLimited(loop, Serve(loop, s, items[0]), items[1..], n);
    }
  }

  lemma {:induction false} LossStopsRun(loop: Loop, s: Socket, events: seq<Event>, n: nat)
    requires Limited(s, n)
    ensures Limited(Run(loop, s, events), n) && |Run(loop, s, events).executed| <= n + 1
    decreases |events|
  {
    hide Drain, ServeAll;
    if events != [] {
      var e := events[0];
      if (e.Binary? || e.Text?) && s.open {
        var d := Drain(s.buffer + e.data);
        ServeAllLimited(loop, s.(buffer := d.buffer), d.items, n);
      }
      LossStopsRun(loop, Handle(loop, s, e), events[1..], n);
    }
  }

  /** The connection that can still send and the one that has lost its peer. */
  ghost predicate Behind(limited: Socket, free: Socket)
  {
    && free.open && free.sendsLeft == None
    && limited.executed <= free.executed && limited.sent <= free.sent
    && (limited.open && limited.sendsLeft != Some(0) ==>
          limited.executed == free.executed && limited.sent == free.sent)
    && (limited.open ==> limited.executed == free.executed && limited.buffer == free.buffer)
  }

  lemma ServeBehind(loop: Loop, a: Socket, b: Socket, item: Item)
    requires Behind(a, b) && a.open
    ensures Behind(Serve(loop, a, item), Serve(loop, b, item))
  {}

  lemma {:induction false} ServeAllBehind(loop: Loop, a: Socket, b: Socket, items: seq<Item>)
    requires Behind(a, b)
    ensures Behind(ServeAll(loop, a, items), ServeAll(loop, b, items))
    decreases |items|
  {
    hide Serve, NoPongs, Ran, Answers;
    if items != [] {
      if a.open {
        ServeBehind(loop, a, b, items[0]);
        ServeAllBehind(loop, Serve(loop, a, items[0]), Serve(loop, b, items[0]), items[1..]);
      } else {
        ServeAllUnlimited(loop, b, items);
        ServeGrows(loop, b, items);
      }
    }
  }

  lemma {:induction false} ServeGrows(loop: Loop, s: Socket, items: seq<Item>)
    requires s.open && s.sendsLeft == None
    ensures s.executed <= ServeAll(loop, s, items).executed && s.sent <= ServeAll(loop, s, items).sent
    decreases |items|
  {
    hide NoPongs, Serve;
    if items != [] {
      ServeUnlimited(loop, s, items[0]);
      ServeGrows(loop, Serve(loop, s, items[0]), items[1..]);
    }
  }

  /**
   Whatever moment the peer stops taking messages, the connection has run a prefix of what it would
   have run, and sent a prefix of what it would have sent.
   */
  lemma {:induction false} DisconnectKeepsPrefix(loop: Loop, a: Socket, b: Socket, events: seq<Event>)
    requires Behind(a, b)
    ensures Run(loop, a, events).executed <= Run(loop, b, events).executed
    ensures Run(loop, a, events).sent <= Run(loop, b, events).sent
    decreases |events|
  {
    hide Drain, ServeAll;
    if events != [] {
      var e, x, y := events[0], Handle(loop, a, events[0]), Handle(loop, b, events[0]);
      if e.Close? || e.Lost? {
        RunClosed(loop, x, events[1..]);
        RunClosed(loop, y, events[1..]);
      } else {
        if e.Binary? || e.Text? {
          var d := Drain(b.buffer + e.data);
          ServeAllUnlimited(loop, b.(buffer := d.buffer), d.items);
          ServeGrows(loop, b.(buffer := d.buffer), d.items);
          if a.open {
            ServeAllBehind(loop, a.(buffer := d.buffer), b.(buffer := d.buffer), d.items);
          }
        }
        DisconnectKeepsPrefix(loop, x, y, events[1..]);
      }
    }
  }

  lemma FreshBehind(n: nat)
    ensures Behind(FRESH.(sendsLeft := Some(n)), FRESH)
  {}

  /** From the start: a peer that takes `n` messages and then is gone has got the first messages of the full run. */
  lemma DisconnectFromStart(loop: Loop, n: nat, events: seq<Event>)
    ensures var (cut, full) := (Run(loop, FRESH.(sendsLeft := Some(n)), events), Run(loop, FRESH, events));
            cut.executed <= full.executed && cut.sent <= full.sent
  {
    FreshBehind(n);
    DisconnectKeepsPrefix(loop, FRESH.(sendsLeft := Some(n)), FRESH, events);
  }

  // ---------------------------------------------------------------------------------------
  // Pings and reply frames
  // ---------------------------------------------------------------------------------------

  /** The payloads of the pongs sent. */
  function Pongs(sent: seq<Sent>): (r: seq<bytes>)
  {
    if sent == [] then [] else (if sent[0].PongBack? then [sent[0].payload] else []) + Pongs(sent[1..])
  }

  /** The payloads of the pings received before the connection ends. */
  function Pings(events: seq<Event>): (r: seq<bytes>)
  {
    if events == [] || events[0].Close? || events[0].Lost? then []
    else (if events[0].Ping? then [events[0].payload] else []) + Pings(events[1..])
  }

  lemma {:induction false} PongsOne(sent: seq<Sent>, m: Sent)
    ensures Pongs(sent + [m]) == Pongs(sent) + (if m.PongBack? then [m.payload] else [])
  {
    if sent == [] {
      assert sent + [m] == [m] && [m][1..] == [];
    } else {
      AppendTail(sent, [m]);
      PongsOne(sent[1..], m);
      Associative(if sent[0].PongBack? then [sent[0].payload] else [], Pongs(sent[1..]), if m.PongBack? then [m.payload] else []);
    }
  }

  lemma {:induction false} ServeAllNoPongs(loop: Loop, s: Socket, items: seq<Item>)
    requires s.open && s.sendsLeft == None
    ensures Pongs(ServeAll(loop, s, items).sent) == Pongs(s.sent)
    decreases |items|
  {
    hide NoPongs, Serve, Pongs;
    if items != [] {
      var next, answer := Serve(loop, s, items[0]), AnswerOne(loop, s.executed, items[0]);
      ServeUnlimited(loop, s, items[0]);
      if answer != [] {
        assert next.sent == s.sent + [answer[0]];
        PongsOne(s.sent, answer[0]);
      } else {
        assert next.sent == s.sent;
      }
      ServeAllNoPongs(loop, next, items[1..]);
    }
  }

  /** Every ping is answered with its own payload, in order, and nothing else sends a pong. */
  lemma {:induction false} PongsExact(loop: Loop, s: Socket, events: seq<Event>)
    requires s.open && s.sendsLeft == None
    ensures Pongs(Run(loop, s, events).sent) == Pongs(s.sent) + Pings(events)
    decreases |events|
  {
    hide ServeAll, Drain, NoPongs, Pongs, Answers, Ran;
    if events != [] {
      var e, next := events[0], Handle(loop, s, events[0]);
      if e.Binary? || e.Text? {
        var d := Drain(s.buffer + e.data);
        ServeAllUnlimited(loop, s.(buffer := d.buffer), d.items);
        ServeAllNoPongs(loop, s.(buffer := d.buffer), d.items);
        PongsExact(loop, next, events[1..]);
      } else if e.Close? || e.Lost? {
        RunClosed(loop, next, events[1..]);
      } else {
        if e.Ping? {
          PongsOne(s.sent, PongBack(e.payload));
          Associative(Pongs(s.sent), [e.payload], Pings(events[1..]));
        }
        PongsExact(loop, next, events[1..]);
      }
    }
  }

  /** A value without line breaks in simple strings, or an error message without one. */
  predicate OneReply(e: Executed)
  {
    match e
    case Ok(value) => Clean(value)
    case Error(message) => !HasCrlf(message)
  }

  function ReplyTo(e: Executed): (r: Reply)
  {
    match e
    case Ok(value) => ToReply(value)
    case Error(message) => ErrorLine(Ascii("ERR ") + message)
  }

  /** A client reads the executor's value or its error line back from the frame, whatever follows. */
  lemma RawReplyReadable(e: Executed, tail: bytes)
    requires OneReply(e)
    ensures Decode(Print(e) + tail) == Got(ReplyTo(e), |Print(e)|)
  {
    hide Encode, ToReply, FirstCrlf, HasCrlf;
    match e
    case Ok(value) => ReplyRoundTrip(value, tail);
    case Error(message) =>
      var text := Ascii("ERR ") + message;
      assert ERR == [SIGN] + Ascii("ERR ");
      ErrPrefixClean(message);
      assert ERR + message + CRLF == Line(SIGN, text);
      LineReads(SIGN, text, tail);
  }

  lemma ErrPrefixClean(message: bytes)
    requires !HasCrlf(message)
    ensures !HasCrlf(Ascii("ERR ") + message)
  {
    var p := Ascii("ERR ");
    var s := p + message;
    assert forall k :: 0 <= k < |p| ==> s[k] != CR;
    assert forall k :: |p| <= k < |s| ==> s[k] == message[k - |p|];
  }

  /** The frames of a list of answers. */
  function Payload(sent: seq<Sent>): (r: bytes)
    requires forall i :: 0 <= i < |sent| ==> sent[i].Answer?
  {
    if sent == [] then [] else sent[0].frame + Payload(sent[1..])
  }

  /** What the executor says to each command in turn, having run the ones before. */
  function Told(database: nat, executor: (seq<Args>, Command) -> Executed, cmds: seq<Args>): (r: seq<Executed>)
    requires forall i :: 0 <= i < |cmds| ==> cmds[i] != []
    ensures |r| == |cmds|
    ensures forall i :: 0 <= i < |cmds| ==>
              r[i] == executor(cmds[..i], Command(database, Utf8.Lossy(cmds[i][0]), cmds[i][1..]))
  {
    seq(|cmds|, i requires 0 <= i < |cmds| => executor(cmds[..i], Command(database, Utf8.Lossy(cmds[i][0]), cmds[i][1..])))
  }

  function RepliesTo(es: seq<Executed>): (r: seq<Reply>)
  {
    if es == [] then [] else [ReplyTo(es[0])] + RepliesTo(es[1..])
  }

  function PrintAll(es: seq<Executed>): (r: bytes)
  {
    if es == [] then [] else Print(es[0]) + PrintAll(es[1..])
  }

  /** Strung together, the frames still read back one by one. */
  lemma {:induction false} FramesReadable(es: seq<Executed>, tail: bytes)
    requires forall e :: e in es ==> OneReply(e)
    ensures DecodeList(PrintAll(es) + tail, |es|) == Got(RepliesTo(es), |PrintAll(es)|)
    decreases |es|
  {
    hide Decode, Print, ReplyTo, OneReply;
    if es != [] {
      var frame, rest := Print(es[0]), PrintAll(es[1..]) + tail;
      RawReplyReadable(es[0], rest);
      FramesReadable(es[1..], tail);
      Associative(frame, PrintAll(es[1..]), tail);
      assert (frame + rest)[|frame|..] == rest;
    }
  }

  lemma {:induction false} RanIsFilter(loop: Loop, cmds: seq<Args>)
    ensures Ran(loop, Frames(cmds)) == Filter(cmds, loop.runs)
  {
    if cmds != [] {
      RanIsFilter(loop, cmds[1..]);
      assert Frames(cmds)[0] == Frame(cmds[0]) && Frames(cmds)[1..] == Frames(cmds[1..]);
    }
  }

  /** Every frame is run or refused in so many words. */
  predicate AllAnswered(loop: Loop, cmds: seq<Args>)
  {
    forall i :: 0 <= i < |cmds| ==> loop.runs(cmds[i]) || loop.refusal(cmds[i]).Some?
  }

  /** The answer to the `i`-th frame, which depends on the frames run before it. */
  function AnswerAt(loop: Loop, history: seq<Args>, cmds: seq<Args>, i: nat): (m: Sent)
    requires i < |cmds| && AllAnswered(loop, cmds)
  {
    Answer(if loop.runs(cmds[i]) then loop.reply(history + Filter(cmds[..i], loop.runs), cmds[i])
           else loop.refusal(cmds[i]).value)
  }

  lemma AnswerAtNext(loop: Loop, history: seq<Args>, cmds: seq<Args>, i: nat)
    requires 0 < i < |cmds| && AllAnswered(loop, cmds)
    ensures var one := if loop.runs(cmds[0]) then [cmds[0]] else [];
            AnswerAt(loop, history, cmds, i) == AnswerAt(loop, history + one, cmds[1..], i - 1)
  {
    var one, rest := if loop.runs(cmds[0]) then [cmds[0]] else [], cmds[1..];
    assert cmds[..i][1..] == rest[..i - 1] && cmds[..i][0] == cmds[0];
    Associative(history, one, Filter(rest[..i - 1], loop.runs));
  }

  lemma AnswerAtFirst(loop: Loop, history: seq<Args>, cmds: seq<Args>)
    requires cmds != [] && AllAnswered(loop, cmds)
    ensures AnswerAt(loop, history, cmds, 0)
         == Answer(if loop.runs(cmds[0]) then loop.reply(history, cmds[0]) else loop.refusal(cmds[0]).value)
  {
    assert cmds[..0] == [] && history + [] == history;
  }

  /** When every frame is answered there is one answer per frame. */
  lemma {:induction false} AnswersOneByOne(loop: Loop, history: seq<Args>, cmds: seq<Args>)
    requires AllAnswered(loop, cmds)
    ensures var answers := Answers(loop, history, Frames(cmds));
            |answers| == |cmds| && forall i :: 0 <= i < |cmds| ==> answers[i] == AnswerAt(loop, history, cmds, i)
    decreases |cmds|
  {
    if cmds != [] {
      hide Answers, AnswerAt, Frames;
      var next := history + if loop.runs(cmds[0]) then [cmds[0]] else [];
      AnswersOneByOne(loop, next, cmds[1..]);
      AnswersStep(loop, history, cmds);
      AnswerAtFirst(loop, history, cmds);
      forall i | 0 < i < |cmds|
        ensures Answers(loop, history, Frames(cmds))[i] == AnswerAt(loop, history, cmds, i)
      {
        AnswerAtNext(loop, history, cmds, i);
      }
    }
  }

  lemma AnswersStep(loop: Loop, history: seq<Args>, cmds: seq<Args>)
    requires cmds != [] && (loop.runs(cmds[0]) || loop.refusal(cmds[0]).Some?)
    ensures var one := if loop.runs(cmds[0]) then [cmds[0]] else [];
            Answers(loop, history, Frames(cmds))
            == [Answer(if loop.runs(cmds[0]) then loop.reply(history, cmds[0]) else loop.refusal(cmds[0]).value)]
               + Answers(loop, history + one, Frames(cmds[1..]))
  {
    assert Frames(cmds)[0] == Frame(cmds[0]) && Frames(cmds)[1..] == Frames(cmds[1..]);
  }

  lemma {:induction false} PayloadOfPrints(answers: seq<Sent>, es: seq<Executed>)
    requires |answers| == |es| && forall i :: 0 <= i < |es| ==> answers[i] == Answer(Print(es[i]))
    ensures Payload(answers) == PrintAll(es)
    decreases |es|
  {
    hide Print;
    if es != [] {
      PayloadOfPrints(answers[1..], es[1..]);
    }
  }

  lemma RawLoopRules(database: nat, executor: (seq<Args>, Command) -> Executed)
    ensures var loop := RawLoop(database, executor);
            && (forall args :: loop.runs(args) <==> args != [])
            && (forall history, args :: args != [] ==>
                  loop.reply(history, args) == Print(executor(history, Command(database, Utf8.Lossy(args[0]), args[1..]))))
            && (forall args :: loop.refusal(args) == None)
  {
    hide Print, Utf8.Lossy;
    forall args: Args | args != []
      ensures ToCommand(database, args) == Command(database, Utf8.Lossy(args[0]), args[1..])
    {}
  }

  /** The answers of `/.raw` are the frames of what the executor says. */
  lemma RawAnswers(database: nat, executor: (seq<Args>, Command) -> Executed, cmds: seq<Args>)
    requires forall i :: 0 <= i < |cmds| ==> cmds[i] != []
    ensures var answers := Answers(RawLoop(database, executor), [], Frames(cmds));
            && |answers| == |cmds|
            && forall i :: 0 <= i < |cmds| ==> answers[i] == Answer(Print(Told(database, executor, cmds)[i]))
  {
    hide Print, Answers, RawLoop, Utf8.Lossy;
    var loop := RawLoop(database, executor);
    RawLoopRules(database, executor);
    AnswersOneByOne(loop, [], cmds);
    forall i | 0 <= i < |cmds|
      ensures [] + Filter(cmds[..i], loop.runs) == cmds[..i]
    {
      FilterAll(cmds[..i], loop.runs);
    }
  }

  /** Frames that are neither run nor refused leave no trace. */
  lemma {:induction false} SkippedVanish(loop: Loop, history: seq<Args>, cmds: seq<Args>)
    requires forall args :: loop.refusal(args).None?
    ensures Answers(loop, history, Frames(cmds)) == Answers(loop, history, Frames(Filter(cmds, loop.runs)))
    decreases |cmds|
  {
    if cmds != [] {
      assert Frames(cmds)[0] == Frame(cmds[0]) && Frames(cmds)[1..] == Frames(cmds[1..]);
      var kept := Filter(cmds[1..], loop.runs);
      if loop.runs(cmds[0]) {
        SkippedVanish(loop, history + [cmds[0]], cmds[1..]);
        assert ([cmds[0]] + kept)[1..] == kept;
        assert Frames([cmds[0]] + kept)[1..] == Frames(kept);
      } else {
        SkippedVanish(loop, history, cmds[1..]);
        assert [] + kept == kept && history + [] == history;
      }
    }
  }

  /** On `/.raw` the non-empty commands run, all of them, and the empty ones get no answer. */
  lemma RawRunsAll(database: nat, executor: (seq<Args>, Command) -> Executed, cmds: seq<Args>, kept: seq<Args>)
    requires kept == Filter(cmds, (c: Args) => c != [])
    ensures var loop := RawLoop(database, executor);
            Ran(loop, Frames(cmds)) == kept && Answers(loop, [], Frames(cmds)) == Answers(loop, [], Frames(kept))
  {
    hide Print, Answers, Ran, RawLoop, Utf8.Lossy;
    var loop := RawLoop(database, executor);
    RawLoopRules(database, executor);
    RanIsFilter(loop, cmds);
    FilterSame(cmds, loop.runs, (c: Args) => c != []);
    SkippedVanish(loop, [], cmds);
  }

  /**
   A whole run of `/.raw`: however the commands were cut at harmless places, the non-empty ones all
   run, in order, each handed to the executor with its own name and arguments on the default
   database, and the client reads the reply to each from the answers strung together.
   */
  lemma RawRunReadable(database: nat, executor: (seq<Args>, Command) -> Executed, cmds: seq<Args>, kept: seq<Args>, events: seq<Event>, tail: bytes)
    requires AllFit(cmds) && Concat(Delivered(events)) == Stream(cmds) && SafeCuts(cmds, 0, Delivered(events))
    requires kept == Filter(cmds, (c: Args) => c != [])
    requires forall e :: e in Told(database, executor, kept) ==> OneReply(e)
    ensures var r, told := Run(RawLoop(database, executor), FRESH, events), Told(database, executor, kept);
            && r.executed == kept && |told| == |kept|
            && (forall i :: 0 <= i < |kept| ==>
                  told[i] == executor(kept[..i], Command(database, Utf8.Lossy(kept[i][0]), kept[i][1..])))
            && (forall i :: 0 <= i < |NoPongs(r.sent)| ==> NoPongs(r.sent)[i].Answer?)
            && DecodeList(Payload(NoPongs(r.sent)) + tail, |kept|) == Got(RepliesTo(told), |Payload(NoPongs(r.sent))|)
  {
    hide Run, Answers, Ran, SafeCuts, NoPongs, DecodeList, Payload, RepliesTo, OneReply, RawLoop, PrintAll, Filter;
    var told := Told(database, executor, kept);
    SocketExact(RawLoop(database, executor), cmds, events);
    RawRunsAll(database, executor, cmds, kept);
    RawAnswers(database, executor, kept);
    PayloadOfPrints(Answers(RawLoop(database, executor), [], Frames(kept)), told);
    FramesReadable(told, tail);
  }

  lemma CompatLoopRules(policy: Acl.Policy, client: Acl.Client, session: (seq<Args>, Args) -> bytes)
    ensures var loop := CompatLoop(policy, client, session);
            && loop.reply == session
            && (forall args :: loop.runs(args) <==> args != [] && Acl.Permitted(policy, client, Utf8.Lossy(args[0])))
            && (forall args :: loop.refusal(args)
                  == Some(if args == [] then EMPTY_COMMAND else FORBIDDEN))
  {}

  /** A whole run in which every command is run or refused. */
  lemma RunOneByOne(loop: Loop, may: Args -> bool, cmds: seq<Args>, events: seq<Event>)
    requires AllFit(cmds) && Concat(Delivered(events)) == Stream(cmds) && SafeCuts(cmds, 0, Delivered(events))
    requires forall args :: loop.runs(args) == may(args)
    requires forall args :: loop.refusal(args).Some?
    ensures var r := Run(loop, FRESH, events);
            && r.executed == Filter(cmds, may)
            && |NoPongs(r.sent)| == |cmds|
            && forall i :: 0 <= i < |cmds| ==>
                 NoPongs(r.sent)[i] == Answer(if may(cmds[i]) then loop.reply(Filter(cmds[..i], may), cmds[i])
                                              else loop.refusal(cmds[i]).value)
  {
    hide Run, Answers, Ran, SafeCuts, NoPongs;
    SocketExact(loop, cmds, events);
    RanIsFilter(loop, cmds);
    FilterSame(cmds, loop.runs, may);
    AnswersOneByOne(loop, [], cmds);
    forall i | 0 <= i < |cmds|
      ensures [] + Filter(cmds[..i], loop.runs) == Filter(cmds[..i], may)
    {
      FilterSame(cmds[..i], loop.runs, may);
    }
  }

  /**
   A whole run of a compat session cut at harmless places: exactly the non-empty commands the rules
   permit reach the backend, in order, and every command gets its own answer.
   */
  lemma CompatRunExact(policy: Acl.Policy, client: Acl.Client, session: (seq<Args>, Args) -> bytes,
                       may: Args -> bool, cmds: seq<Args>, events: seq<Event>)
    requires forall f :: may(f) <==> f != [] && Acl.Permitted(policy, client, Utf8.Lossy(f[0]))
    requires AllFit(cmds) && Concat(Delivered(events)) == Stream(cmds) && SafeCuts(cmds, 0, Delivered(events))
    ensures var r := Run(CompatLoop(policy, client, session), FRESH, events);
            && r.executed == Filter(cmds, may)
            && |NoPongs(r.sent)| == |cmds|
            && forall i :: 0 <= i < |cmds| ==>
                 NoPongs(r.sent)[i] == Answer(if may(cmds[i]) then session(Filter(cmds[..i], may), cmds[i])
                                              else if cmds[i] == [] then EMPTY_COMMAND
                                              else FORBIDDEN)
  {
    hide Run, SafeCuts, NoPongs, CompatLoop, Utf8.Lossy, Acl.Permitted, Filter;
    var loop := CompatLoop(policy, client, session);
    CompatLoopRules(policy, client, session);
    RunOneByOne(loop, may, cmds, events);
  }

  /** A framing error that cannot be sent ends a raw connection, and is passed over in a compat session. */
  lemma LostFault(database: nat, executor: (seq<Args>, Command) -> Executed,
                  policy: Acl.Policy, client: Acl.Client, session: (seq<Args>, Args) -> bytes, s: Socket, data: bytes)
    requires s.open && s.sendsLeft == Some(0) && ParseFrame(s.buffer + data).Fail?
    ensures !Handle(RawLoop(database, executor), s, Binary(data)).open
    ensures var r := Handle(CompatLoop(policy, client, session), s, Binary(data)); r.open && r.buffer == [] && r.sent == s.sent
  {
    hide ParseFrame;
    var arrived := s.(buffer := s.buffer + data);
    PumpStep(RawLoop(database, executor), arrived);
    PumpStep(CompatLoop(policy, client, session), arrived);
  }
}
