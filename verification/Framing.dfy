/**
 The buffer discipline both WebSocket loops share: append a message, drain every complete
 command, keep the remainder, drop everything on a format error.  The main result says exactly
 which ways of cutting a command stream into messages leave the commands intact.
 */
module Framing {
  import opened Bytes
  import opened RespCommand

  /** What the drain loop meets, in order: a command, or input it throws away. */
  datatype Item = Frame(args: Args) | Fault

  datatype State = State(items: seq<Item>, buffer: bytes)

  /** Parse and drop until the parser asks for more or refuses. */
  function Drain(buffer: bytes): (d: State)
    decreases |buffer|
  {
    match ParseFrame(buffer)
    case Done(args, used) =>
      var rest := Drain(buffer[used..]);
      State([Frame(args)] + rest.items, rest.buffer)
    case More => State([], buffer)
    case Fail(_) => State([Fault], [])
  }

  function Feed(s: State, chunk: bytes): (r: State)
  {
    var d := Drain(s.buffer + chunk);
    State(s.items + d.items, d.buffer)
  }

  function FeedAll(s: State, chunks: seq<bytes>): (r: State)
    decreases |chunks|
  {
    if chunks == [] then s else FeedAll(Feed(s, chunks[0]), chunks[1..])
  }

  /** A fault is the last thing the drain loop meets, and it leaves nothing behind. */
  lemma {:induction false} FaultClears(buffer: bytes)
    ensures var d := Drain(buffer);
            && (Fault in d.items ==> d.buffer == [] && d.items[|d.items| - 1] == Fault)
            && forall i :: 0 <= i < |d.items| - 1 ==> d.items[i].Frame?
    decreases |buffer|
  {
    hide ParseFrame;
    if ParseFrame(buffer).Done? {
      var rest := Drain(buffer[ParseFrame(buffer).used..]);
      FaultClears(buffer[ParseFrame(buffer).used..]);
      assert Fault in Drain(buffer).items ==> Fault in rest.items;
    }
  }

  // ---------------------------------------------------------------------------------------
  // Command streams and where they may be cut
  // ---------------------------------------------------------------------------------------

  function Stream(cmds: seq<Args>): (r: bytes)
  {
    if cmds == [] then [] else EncodeFrame(cmds[0]) + Stream(cmds[1..])
  }

  predicate AllFit(cmds: seq<Args>) { forall i :: 0 <= i < |cmds| ==> Fits(cmds[i]) }

  function Frames(cmds: seq<Args>): (r: seq<Item>)
    ensures |r| == |cmds| && Fault !in r
  {
    if cmds == [] then [] else [Frame(cmds[0])] + Frames(cmds[1..])
  }

  /**
   A message boundary at stream position `p` is harmless: it falls between commands, or inside a
   command with arguments but not just after a header tag.
   */
  predicate SafeCut(cmds: seq<Args>, p: nat)
  {
    if cmds == [] || p == 0 then true
    else if p < |EncodeFrame(cmds[0])| then cmds[0] != [] && !AfterTag(cmds[0], p)
    else SafeCut(cmds[1..], p - |EncodeFrame(cmds[0])|)
  }

  /** Every boundary of the messages, the first of which starts at stream position `start`. */
  predicate SafeCuts(cmds: seq<Args>, start: nat, chunks: seq<bytes>)
    decreases |chunks|
  {
    chunks == []
    || (SafeCut(cmds, start + |chunks[0]|) && SafeCuts(cmds, start + |chunks[0]|, chunks[1..]))
  }

  /** Where the loop should stand after `p` octets: the complete commands, and the piece of the next. */
  function StateAt(cmds: seq<Args>, p: nat): (s: State)
  {
    if cmds == [] then State([], [])
    else if p < |EncodeFrame(cmds[0])| then State([], EncodeFrame(cmds[0])[..p])
    else
      var rest := StateAt(cmds[1..], p - |EncodeFrame(cmds[0])|);
      State([Frame(cmds[0])] + rest.items, rest.buffer)
  }

  lemma FrameNonEmpty(args: Args)
    ensures |EncodeFrame(args)| >= 4
  {
    HeaderNonEmpty(STAR, |args|);
  }

  lemma StateAtZero(cmds: seq<Args>)
    ensures StateAt(cmds, 0) == State([], [])
  {
    if cmds != [] {
      FrameNonEmpty(cmds[0]);
    }
  }

  lemma {:induction false} StateAtEnd(cmds: seq<Args>)
    ensures StateAt(cmds, |Stream(cmds)|) == State(Frames(cmds), [])
  {
    if cmds != [] {
      StateAtEnd(cmds[1..]);
    }
  }

  // ---------------------------------------------------------------------------------------
  // Harmless boundaries
  // ---------------------------------------------------------------------------------------

  lemma DrainStep(args: Args, tail: bytes)
    requires Fits(args)
    ensures Drain(EncodeFrame(args) + tail)
         == State([Frame(args)] + Drain(tail).items, Drain(tail).buffer)
  {
    hide ParseFrame, EncodeFrame;
    FrameRoundTrip(args, tail);
    assert (EncodeFrame(args) + tail)[|EncodeFrame(args)|..] == tail;
  }

  lemma DrainMore(buffer: bytes)
    requires ParseFrame(buffer) == More
    ensures Drain(buffer) == State([], buffer)
  {
    hide ParseFrame;
  }

  /** A harmless stop inside the first command drains nothing. */
  lemma StopInFirst(args: Args, q: nat)
    requires Fits(args) && q < |EncodeFrame(args)| && (q == 0 || (args != [] && !AfterTag(args, q)))
    ensures Drain(EncodeFrame(args)[..q]) == State([], EncodeFrame(args)[..q])
  {
    hide ParseFrame, EncodeFrame, AfterTag, Drain;
    var b := EncodeFrame(args)[..q];
    if q == 0 {
      assert b == [];
      EmptyNeedsMore();
    } else {
      FramePrefix(args, q);
    }
    DrainMore(b);
  }

  /** What the loop has in hand when it resumes at `p` and has received up to `q`. */
  function InHand(cmds: seq<Args>, p: nat, q: nat): (b: bytes)
    requires p <= q <= |Stream(cmds)|
  {
    StateAt(cmds, p).buffer + Stream(cmds)[p..q]
  }

  lemma InHandCases(cmds: seq<Args>, p: nat, q: nat)
    requires cmds != [] && p <= q <= |Stream(cmds)|
    ensures var e, rest := EncodeFrame(cmds[0]), cmds[1..];
            && |Stream(cmds)| == |e| + |Stream(rest)|
            && (q < |e| ==> InHand(cmds, p, q) == e[..q])
            && (p < |e| <= q ==> InHand(cmds, p, q) == e + InHand(rest, 0, q - |e|))
            && (|e| <= p ==> InHand(cmds, p, q) == InHand(rest, p - |e|, q - |e|))
  {
    hide EncodeFrame;
    var e, rest := EncodeFrame(cmds[0]), cmds[1..];
    var s := Stream(rest);
    assert Stream(cmds) == e + s;
    if q < |e| {
      SliceWithin(e, s, p, q);
    } else if p < |e| {
      StateAtZero(rest);
      assert InHand(rest, 0, q - |e|) == [] + s[0..q - |e|] == s[..q - |e|];
      SliceAcross(e, s, p, q);
    } else {
      SliceBeyond(e, s, p, q);
    }
  }

  lemma SliceWithin(e: bytes, s: bytes, p: nat, q: nat)
    requires p <= q <= |e|
    ensures e[..p] + (e + s)[p..q] == e[..q]
  {}

  lemma SliceAcross(e: bytes, s: bytes, p: nat, q: nat)
    requires p <= |e| <= q <= |e| + |s|
    ensures e[..p] + (e + s)[p..q] == e + s[..q - |e|]
  {}

  lemma SliceBeyond(e: bytes, s: bytes, p: nat, q: nat)
    requires |e| <= p <= q <= |e| + |s|
    ensures (e + s)[p..q] == s[p - |e|..q - |e|]
  {}

  /** Resuming at `p` and stopping at `q`, both harmless, drains exactly the commands completed between. */
  lemma {:induction false} Resume(cmds: seq<Args>, p: nat, q: nat)
    requires AllFit(cmds) && p <= q <= |Stream(cmds)|
    requires SafeCut(cmds, q)
    ensures var d := Drain(InHand(cmds, p, q));
            State(StateAt(cmds, p).items + d.items, d.buffer) == StateAt(cmds, q)
    decreases |cmds|
  {
    hide ParseFrame, EncodeFrame, AfterTag, Drain, InHand, Stream;
    if cmds == [] {
      assert InHand(cmds, p, q) == [] by { NothingInHand(p, q); }
      EmptyNeedsMore();
      DrainMore([]);
    } else {
      var e, rest := EncodeFrame(cmds[0]), cmds[1..];
      FrameNonEmpty(cmds[0]);
      InHandCases(cmds, p, q);
      if q < |e| {
        StopInFirst(cmds[0], q);
      } else if p < |e| {
        DrainStep(cmds[0], InHand(rest, 0, q - |e|));
        StateAtZero(rest);
        Resume(rest, 0, q - |e|);
      } else {
        Resume(rest, p - |e|, q - |e|);
        Associative([Frame(cmds[0])], StateAt(rest, p - |e|).items, Drain(InHand(cmds, p, q)).items);
      }
    }
  }

  lemma NothingInHand(p: nat, q: nat)
    requires p <= q <= |Stream([])|
    ensures InHand([], p, q) == []
  {}

  /** After any harmlessly cut messages the loop stands where their total length says. */
  lemma {:induction false} SafeRun(cmds: seq<Args>, start: nat, chunks: seq<bytes>)
    requires AllFit(cmds) && start + |Concat(chunks)| <= |Stream(cmds)|
    requires Concat(chunks) == Stream(cmds)[start..start + |Concat(chunks)|]
    requires SafeCuts(cmds, start, chunks)
    ensures FeedAll(StateAt(cmds, start), chunks) == StateAt(cmds, start + |Concat(chunks)|)
    decreases |chunks|
  {
    hide Drain, SafeCut, StateAt, Stream;
    if chunks != [] {
      var next := start + |chunks[0]|;
      var s := Stream(cmds);
      assert chunks[0] == Concat(chunks)[..|chunks[0]|] == s[start..next];
      Resume(cmds, start, next);
      assert Concat(chunks[1..]) == Concat(chunks)[|chunks[0]|..] == s[next..next + |Concat(chunks[1..])|];
      SafeRun(cmds, next, chunks[1..]);
    }
  }

  // ---------------------------------------------------------------------------------------
  // Harmful boundaries
  // ---------------------------------------------------------------------------------------

  /** A harmful stop inside the first command. */
  lemma HarmfulStopInFirst(args: Args, q: nat)
    requires Fits(args) && 0 < q < |EncodeFrame(args)| && (args == [] || AfterTag(args, q))
    ensures var d := Drain(EncodeFrame(args)[..q]);
            Fault in d.items || (d.buffer == [] && EncodeFrame(args)[q] != STAR)
  {
    hide ParseFrame, EncodeFrame, AfterTag;
    var b := EncodeFrame(args)[..q];
    if args == [] {
      EmptyFramePrefix(q);
      if q >= 2 {
        assert b[q..] == [];
        EmptyNeedsMore();
        EmptyFrameBytes();
      }
    } else {
      FramePrefix(args, q);
    }
  }

  /**
   Stopping at a harmful `q` loses input: at once, just after a tag; or, inside `*0 CR LF`, as soon
   as anything more arrives, because what is left of that command no longer starts with a tag.
   */
  lemma {:induction false} HarmfulStop(cmds: seq<Args>, p: nat, q: nat)
    requires AllFit(cmds) && p <= q <= |Stream(cmds)|
    requires SafeCut(cmds, p) && !SafeCut(cmds, q)
    ensures var d := Drain(InHand(cmds, p, q));
            Fault in d.items || (d.buffer == [] && q < |Stream(cmds)| && Stream(cmds)[q] != STAR)
    decreases |cmds|
  {
    hide ParseFrame, EncodeFrame, AfterTag, Drain, InHand;
    var e, rest := EncodeFrame(cmds[0]), cmds[1..];
    FrameNonEmpty(cmds[0]);
    InHandCases(cmds, p, q);
    if q < |e| {
      HarmfulStopInFirst(cmds[0], q);
    } else if p < |e| {
      DrainStep(cmds[0], InHand(rest, 0, q - |e|));
      HarmfulStop(rest, 0, q - |e|);
    } else {
      HarmfulStop(rest, p - |e|, q - |e|);
    }
  }

  lemma EmptyFrameBytes()
    ensures EncodeFrame([]) == [STAR, 48, CR, LF]
  {}

  lemma {:induction false} ItemsGrow(s: State, chunks: seq<bytes>)
    ensures forall i :: i in s.items ==> i in FeedAll(s, chunks).items
    decreases |chunks|
  {
    hide Drain;
    if chunks != [] {
      ItemsGrow(Feed(s, chunks[0]), chunks[1..]);
    }
  }

  lemma {:induction false} StrayInputFaults(s: State, chunks: seq<bytes>)
    requires s.buffer == [] && Concat(chunks) != [] && Concat(chunks)[0] != STAR
    ensures Fault in FeedAll(s, chunks).items
    decreases |chunks|
  {
    hide ParseFrame;
    var next := Feed(s, chunks[0]);
    assert [] + chunks[0] == chunks[0];
    if chunks[0] == [] {
      EmptyNeedsMore();
      StrayInputFaults(next, chunks[1..]);
    } else {
      WrongTagFails(chunks[0]);
      assert Fault in next.items;
      ItemsGrow(next, chunks[1..]);
    }
  }

  lemma {:induction false} HarmfulRun(cmds: seq<Args>, start: nat, chunks: seq<bytes>)
    requires AllFit(cmds) && start <= |Stream(cmds)| && SafeCut(cmds, start)
    requires Concat(chunks) == Stream(cmds)[start..]
    requires !SafeCuts(cmds, start, chunks)
    ensures Fault in FeedAll(StateAt(cmds, start), chunks).items
    decreases |chunks|
  {
    hide Drain, SafeCut, StateAt;
    var next := start + |chunks[0]|;
    var s, now := Stream(cmds), StateAt(cmds, start);
    assert chunks[0] == Concat(chunks)[..|chunks[0]|] == s[start..next];
    assert Concat(chunks[1..]) == Concat(chunks)[|chunks[0]|..] == s[next..];
    if SafeCut(cmds, next) {
      Resume(cmds, start, next);
      HarmfulRun(cmds, next, chunks[1..]);
    } else {
      HarmfulStop(cmds, start, next);
      var after := Feed(now, chunks[0]);
      if Fault in after.items {
        ItemsGrow(after, chunks[1..]);
      } else {
        StrayInputFaults(after, chunks[1..]);
      }
    }
  }

  // ---------------------------------------------------------------------------------------
  // Main results
  // ---------------------------------------------------------------------------------------

  /**
   Cutting the concatenated encodings of any commands into messages leaves the loop with exactly
   those commands, in order, no fault and an empty buffer if and only if every boundary is
   harmless; otherwise a fault is reported.
   */
  lemma ChunkingExact(cmds: seq<Args>, chunks: seq<bytes>)
    requires AllFit(cmds) && Concat(chunks) == Stream(cmds)
    ensures FeedAll(State([], []), chunks) == State(Frames(cmds), []) <==> SafeCuts(cmds, 0, chunks)
    ensures Fault in FeedAll(State([], []), chunks).items <==> !SafeCuts(cmds, 0, chunks)
  {
    hide FeedAll, SafeCuts;
    StateAtZero(cmds);
    StateAtEnd(cmds);
    assert SafeCut(cmds, 0);
    if SafeCuts(cmds, 0, chunks) {
      SafeRun(cmds, 0, chunks);
    } else {
      assert Stream(cmds)[0..] == Stream(cmds);
      HarmfulRun(cmds, 0, chunks);
    }
  }

  /** Delivered in one message, every command stream is framed exactly. */
  lemma OneShot(cmds: seq<Args>)
    requires AllFit(cmds)
    ensures FeedAll(State([], []), [Stream(cmds)]) == State(Frames(cmds), [])
  {
    var chunks := [Stream(cmds)];
    assert Concat(chunks) == Stream(cmds) + Concat([]) == Stream(cmds);
    EndIsSafe(cmds);
    assert SafeCuts(cmds, |Stream(cmds)|, []);
    assert chunks[1..] == [];
    ChunkingExact(cmds, chunks);
  }

  lemma {:induction false} EndIsSafe(cmds: seq<Args>)
    ensures SafeCut(cmds, |Stream(cmds)|)
  {
    if cmds != [] {
      EndIsSafe(cmds[1..]);
    }
  }
}
