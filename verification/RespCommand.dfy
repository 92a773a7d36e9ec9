/**
 The command half of crates/redis-web-core/src/resp.rs: `parse_command` as a cursor loop, the
 function it computes, and the printer it must undo.
 */
module RespCommand {
  import opened Bytes
  import opened Utf8
  import opened Decimal

  datatype RespError = InvalidFormat | Incomplete | Io

  /** `Ok(Some((value, used)))`, `Ok(None)` and `Err(error)`. */
  datatype Outcome<T> = Done(value: T, used: nat) | More | Fail(error: RespError)

  const STAR: byte := 42
  const DOLLAR: byte := 36

  /** A command as the wire carries it: its name and its arguments. */
  type Args = seq<bytes>

  // ---------------------------------------------------------------------------------------
  // What the parser accepts
  // ---------------------------------------------------------------------------------------

  /** `read_line`: through the first LF, or to the end of the input when there is none. */
  function LineLength(s: bytes): (n: nat)
    ensures n <= |s| && (s != [] ==> n >= 1)
  {
    if s == [] then 0 else if s[0] == LF then 1 else 1 + LineLength(s[1..])
  }

  /** The count in a header line, after the leading `tag`. */
  function HeaderValue(line: bytes, tag: byte): (r: Outcome<nat>)
    ensures r != More && (r.Fail? ==> r.error != Incomplete)
    ensures r.Done? ==> line != [] && line[0] == tag
  {
    if !Valid(line) then Fail(Io)
    else if line == [] || line[0] != tag then Fail(InvalidFormat)
    else
      match ParseUnsigned(Trim(Codes(line)[1..]), USIZE_MAX)
      case Some(n) => Done(n, |line|)
      case None => Fail(InvalidFormat)
  }

  /** One bulk string: header line, payload, CRLF. */
  function ParseBulk(s: bytes): (r: Outcome<bytes>)
    ensures r.Done? ==> 4 <= r.used <= |s|
  {
    if s == [] then More
    else
      var n := LineLength(s);
      match HeaderValue(s[..n], DOLLAR)
      case Fail(e) => Fail(e)
      case Done(len, _) =>
        var rest := s[n..];
        if |rest| < len + 2 then More
        else if rest[len..len + 2] != CRLF then Fail(InvalidFormat)
        else
          assert |s[..n]| >= 2 by { OneByteHeader(s[..n], DOLLAR); }
          Done(rest[..len], n + len + 2)
  }

  lemma OneByteHeader(line: bytes, tag: byte)
    requires tag < 128
    ensures HeaderValue([tag], tag) == Fail(InvalidFormat)
    ensures HeaderValue(line, tag).Done? ==> |line| >= 2
  {
    AsciiIsValid([tag]);
    assert Codes([tag])[1..] == [];
    if |line| == 1 && line[0] == tag {
      assert line == [tag];
    }
  }

  function ParseBulks(s: bytes, count: nat): (r: Outcome<Args>)
    ensures r.Done? ==> |r.value| == count && r.used <= |s|
    decreases count
  {
    if count == 0 then Done([], 0)
    else
      match ParseBulk(s)
      case Fail(e) => Fail(e)
      case More => More
      case Done(arg, used) => Advance([arg], used, ParseBulks(s[used..], count - 1))
  }

  lemma BulksNone(s: bytes)
    ensures ParseBulks(s, 0) == Done([], 0)
  {}

  lemma BulksStep(s: bytes, count: nat)
    requires count > 0
    ensures var first := ParseBulk(s);
            ParseBulks(s, count) ==
            if first.Done? then Advance([first.value], first.used, ParseBulks(s[first.used..], count - 1))
            else if first.More? then More else Fail(first.error)
  {
    hide ParseBulk;
  }

  /** The whole frame: array header, then as many bulk strings as it announces. */
  function ParseFrame(s: bytes): (r: Outcome<Args>)
    ensures r.Done? ==> 2 <= r.used <= |s|
  {
    if s == [] then More
    else
      var n := LineLength(s);
      match HeaderValue(s[..n], STAR)
      case Fail(e) => Fail(e)
      case Done(count, _) =>
        OneByteHeader(s[..n], STAR);
        Advance([], n, ParseBulks(s[n..], count))
  }

  lemma EmptyNeedsMore()
    ensures ParseFrame([]) == More
  {}

  lemma FrameStep(s: bytes)
    requires s != []
    ensures var n := LineLength(s);
            var header := HeaderValue(s[..n], STAR);
            ParseFrame(s) ==
            if header.Done? then Advance([], n, ParseBulks(s[n..], header.value)) else Fail(header.error)
  {
    hide HeaderValue, LineLength, ParseBulks;
  }

  /** What is left to parse, seen from `pos` octets and `args` arguments earlier. */
  function Advance(args: Args, pos: nat, r: Outcome<Args>): (whole: Outcome<Args>)
  {
    if r.Done? then Done(args + r.value, pos + r.used) else r
  }

  /** `parse_command`: a cursor, a line buffer that is cleared and refilled, and a growing `args`. */
  method ParseCommand(buffer: bytes) returns (r: Outcome<Args>)
    ensures r == ParseFrame(buffer)
  {
    hide HeaderValue, LineLength, ParseFrame, ParseBulks;
    var pos := LineLength(buffer);
    var line := buffer[..pos];
    if pos == 0 {
      EmptyNeedsMore();
      return More;
    }
    var header := HeaderValue(line, STAR);
    FrameStep(buffer);
    if header.Fail? {
      return Fail(header.error);
    }
    var count := header.value;
    var args: Args := [];
    var i := 0;
    assert ParseFrame(buffer) == Advance(args, pos, ParseBulks(buffer[pos..], count));
    while i < count
      invariant i <= count && pos <= |buffer|
      invariant ParseFrame(buffer) == Advance(args, pos, ParseBulks(buffer[pos..], count - i))
    {
      ghost var start, before := pos, args;
      var rest := buffer[pos..];
      var length := LineLength(rest);
      BulksStep(rest, count - i);
      if length == 0 {
        assert ParseBulk(rest).More?;
        return More;
      }
      line := rest[..length];
      header := HeaderValue(line, DOLLAR);
      if header.Fail? {
        return Fail(header.error);
      }
      var len := header.value;
      pos := pos + length;
      assert buffer[pos..] == rest[length..];
      if |buffer| - pos < len {
        return More;
      }
      var arg := buffer[pos..pos + len];
      pos := pos + len;
      if |buffer| - pos < 2 {
        return More;
      }
      var crlf := buffer[pos..pos + 2];
      assert rest[length..][len..len + 2] == crlf && rest[length..][..len] == arg;
      if crlf != CRLF {
        return Fail(InvalidFormat);
      }
      pos := pos + 2;
      args := args + [arg];
      assert rest[pos - start..] == buffer[pos..];
      assert ParseBulk(rest) == Done(arg, pos - start);
      var tail := ParseBulks(buffer[pos..], count - i - 1);
      assert tail.Done? ==> before + ([arg] + tail.value) == args + tail.value;
      i := i + 1;
    }
    BulksNone(buffer[pos..]);
    assert args + [] == args;
    return Done(args, pos);
  }

  lemma {:induction false} BulksNeverIncomplete(s: bytes, count: nat)
    ensures ParseBulks(s, count) != Fail(Incomplete)
    decreases count
  {
    hide HeaderValue;
    if count > 0 && ParseBulk(s).Done? {
      BulksNeverIncomplete(s[ParseBulk(s).used..], count - 1);
    }
  }

  /** `RespError::Incomplete` is declared but the parser never produces it. */
  lemma NeverIncomplete(s: bytes)
    ensures ParseFrame(s) != Fail(Incomplete)
  {
    hide HeaderValue, ParseBulks;
    var n := LineLength(s);
    if s != [] && HeaderValue(s[..n], STAR).Done? {
      BulksNeverIncomplete(s[n..], HeaderValue(s[..n], STAR).value);
    }
  }

  // ---------------------------------------------------------------------------------------
  // The printer
  // ---------------------------------------------------------------------------------------

  function Header(tag: byte, n: nat): (r: bytes) { [tag] + Digits(n) + CRLF }

  lemma HeaderNonEmpty(tag: byte, n: nat)
    ensures |Header(tag, n)| >= 4
  {}

  function EncodeBulk(arg: bytes): (r: bytes) { Header(DOLLAR, |arg|) + (arg + CRLF) }

  function EncodeBulks(args: Args): (r: bytes)
  {
    if args == [] then [] else EncodeBulk(args[0]) + EncodeBulks(args[1..])
  }

  function EncodeFrame(args: Args): (r: bytes) { Header(STAR, |args|) + EncodeBulks(args) }

  /** Lengths that a `Vec` can have. */
  predicate Fits(args: Args)
  {
    |args| <= USIZE_MAX && forall i :: 0 <= i < |args| ==> |args[i]| <= USIZE_MAX
  }

  // ---------------------------------------------------------------------------------------
  // Header lines
  // ---------------------------------------------------------------------------------------

  lemma {:induction false} LineWithoutLF(s: bytes)
    requires forall i :: 0 <= i < |s| ==> s[i] != LF
    ensures LineLength(s) == |s|
  {
    if s != [] {
      LineWithoutLF(s[1..]);
    }
  }

  lemma {:induction false} LineThroughLF(u: bytes, v: bytes)
    requires forall i :: 0 <= i < |u| ==> u[i] != LF
    ensures LineLength(u + [LF] + v) == |u| + 1
  {
    if u != [] {
      assert (u + [LF] + v)[1..] == u[1..] + [LF] + v;
      LineThroughLF(u[1..], v);
    }
  }

  /** A line that stops short of the end of input stops at a LF and reads nothing beyond it. */
  lemma {:induction false} LineLocal(s: bytes, t: bytes)
    requires s != [] && s[LineLength(s) - 1] == LF
    ensures LineLength(s[..LineLength(s)] + t) == LineLength(s)
  {
    var n := LineLength(s);
    if s[0] != LF {
      LineLocal(s[1..], t);
      assert (s[..n] + t)[1..] == s[1..][..n - 1] + t;
    }
  }

  lemma {:induction false} LineStopsAtLF(s: bytes)
    requires LineLength(s) < |s|
    ensures s[LineLength(s) - 1] == LF
  {
    if s[0] != LF {
      LineStopsAtLF(s[1..]);
    }
  }

  /** A tag, digits and any ASCII white space read as the value of the digits. */
  lemma HeaderOfDigits(tag: byte, ds: bytes, w: bytes)
    requires tag < 128 && ds != [] && AllDigits(ds) && Value(ds) <= USIZE_MAX
    requires forall i :: 0 <= i < |w| ==> w[i] < 128 && IsSpace(w[i] as int)
    ensures HeaderValue([tag] + ds + w, tag) == Done(Value(ds), 1 + |ds| + |w|)
  {
    hide Codes, TrimStart, TrimEnd, ParseUnsigned, Valid, Value, FirstChar;
    var line := [tag] + ds + w;
    AsciiIsValid(line);
    var d, v := Widen(ds), Widen(w);
    WidenLine(tag, ds, w);
    NothingToTrim(d + v);
    TrimEndSpaces(d, v);
    ParseUnsignedDigits(ds, USIZE_MAX);
  }

  lemma WidenLine(tag: byte, ds: bytes, w: bytes)
    requires IsAscii([tag] + ds + w)
    ensures Valid([tag] + ds + w) && Codes([tag] + ds + w)[1..] == Widen(ds) + Widen(w)
  {
    hide Codes, Valid, FirstChar;
    var line := [tag] + ds + w;
    AsciiIsValid(line);
    assert Codes(line) == Widen(line);
    assert Widen(line)[1..] == Widen(ds) + Widen(w);
  }

  /** A printed header is one line, whatever follows, and gives its number back. */
  lemma HeaderRoundTrip(tag: byte, n: nat, rest: bytes)
    requires tag < 128 && tag != LF && n <= USIZE_MAX
    ensures LineLength(Header(tag, n) + rest) == |Header(tag, n)|
    ensures HeaderValue(Header(tag, n), tag) == Done(n, |Header(tag, n)|)
  {
    var u := [tag] + Digits(n) + [CR];
    assert Header(tag, n) + rest == u + [LF] + rest;
    LineThroughLF(u, rest);
    ValueOfDigits(n);
    HeaderOfDigits(tag, Digits(n), CRLF);
  }

  /** A header cut anywhere after its tag is still a line, and its count is positive if `n` is. */
  lemma HeaderCut(tag: byte, n: nat, p: nat)
    requires tag < 128 && tag != LF && n <= USIZE_MAX
    requires 2 <= p < |Header(tag, n)|
    ensures LineLength(Header(tag, n)[..p]) == p
    ensures HeaderValue(Header(tag, n)[..p], tag).Done?
    ensures n >= 1 ==> HeaderValue(Header(tag, n)[..p], tag).value >= 1
  {
    var s := Header(tag, n)[..p];
    var ds := if p <= 1 + |Digits(n)| then Digits(n)[..p - 1] else Digits(n);
    var w: bytes := if p <= 1 + |Digits(n)| then [] else [CR];
    assert s == [tag] + ds + w;
    LineWithoutLF(s);
    ValuePrefix(Digits(n), |ds|);
    ValueOfDigits(n);
    assert Digits(n)[..|ds|] == ds;
    HeaderOfDigits(tag, ds, w);
    if n >= 1 {
      ValuePositive(ds);
    }
  }

  // ---------------------------------------------------------------------------------------
  // Round trip with remainder
  // ---------------------------------------------------------------------------------------

  lemma BulkRoundTrip(arg: bytes, tail: bytes)
    requires |arg| <= USIZE_MAX
    ensures ParseBulk(EncodeBulk(arg) + tail) == Done(arg, |EncodeBulk(arg)|)
  {
    var h := Header(DOLLAR, |arg|);
    var s := EncodeBulk(arg) + tail;
    assert s == h + (arg + CRLF + tail);
    HeaderRoundTrip(DOLLAR, |arg|, arg + CRLF + tail);
    assert s[..|h|] == h && s[|h|..] == arg + CRLF + tail;
    assert (arg + CRLF + tail)[|arg|..|arg| + 2] == CRLF;
    assert (arg + CRLF + tail)[..|arg|] == arg;
  }

  lemma {:induction false} BulksRoundTrip(args: Args, tail: bytes)
    requires forall i :: 0 <= i < |args| ==> |args[i]| <= USIZE_MAX
    ensures ParseBulks(EncodeBulks(args) + tail, |args|) == Done(args, |EncodeBulks(args)|)
    decreases |args|
  {
    hide ParseBulk, EncodeBulk, ParseBulks;
    if args == [] {
      BulksNone(tail);
      assert EncodeBulks(args) + tail == tail;
    } else {
      var s := EncodeBulks(args) + tail;
      var first := EncodeBulk(args[0]);
      assert s == first + (EncodeBulks(args[1..]) + tail);
      BulkRoundTrip(args[0], EncodeBulks(args[1..]) + tail);
      assert s[|first|..] == EncodeBulks(args[1..]) + tail;
      BulksStep(s, |args|);
      assert [args[0]] + args[1..] == args;
      BulksRoundTrip(args[1..], tail);
    }
  }

  /** Parsing a printed command followed by anything returns the command and exactly its length. */
  lemma FrameRoundTrip(args: Args, tail: bytes)
    requires Fits(args)
    ensures ParseFrame(EncodeFrame(args) + tail) == Done(args, |EncodeFrame(args)|)
  {
    hide HeaderValue, LineLength, Header, ParseBulks, EncodeBulks, ParseFrame;
    var h := Header(STAR, |args|);
    var s := EncodeFrame(args) + tail;
    assert s == h + (EncodeBulks(args) + tail);
    HeaderRoundTrip(STAR, |args|, EncodeBulks(args) + tail);
    assert s[..|h|] == h && s[|h|..] == EncodeBulks(args) + tail;
    BulksRoundTrip(args, tail);
    HeaderNonEmpty(STAR, |args|);
    FrameStep(s);
    assert [] + args == args;
  }

  // ---------------------------------------------------------------------------------------
  // Classification of proper prefixes
  // ---------------------------------------------------------------------------------------

  /** `p` octets of the printed bulk strings end just after a `$`. */
  predicate AfterDollar(args: Args, p: nat)
  {
    args != [] && (p == 1 || (p > |EncodeBulk(args[0])| && AfterDollar(args[1..], p - |EncodeBulk(args[0])|)))
  }

  /** `p` octets of the printed command end just after its `*` or one of its `$`. */
  predicate AfterTag(args: Args, p: nat)
  {
    p == 1 || (p > |Header(STAR, |args|)| && AfterDollar(args, p - |Header(STAR, |args|)|))
  }

  lemma BulkPrefix(arg: bytes, p: nat)
    requires |arg| <= USIZE_MAX && p < |EncodeBulk(arg)|
    ensures ParseBulk(EncodeBulk(arg)[..p]) == if p == 1 then Fail(InvalidFormat) else More
  {
    var h := Header(DOLLAR, |arg|);
    var s := EncodeBulk(arg)[..p];
    if p == 1 {
      assert s == [DOLLAR];
      OneByteHeader(s, DOLLAR);
      assert s[..LineLength(s)] == s;
    } else if 2 <= p < |h| {
      assert s == h[..p];
      HeaderCut(DOLLAR, |arg|, p);
      assert s[..p] == s;
    } else if p >= |h| {
      var rest := (arg + CRLF)[..p - |h|];
      assert s == h + rest;
      HeaderRoundTrip(DOLLAR, |arg|, rest);
      assert s[..|h|] == h && s[|h|..] == rest;
    }
  }

  lemma {:induction false} BulksPrefix(args: Args, p: nat)
    requires forall i :: 0 <= i < |args| ==> |args[i]| <= USIZE_MAX
    requires p < |EncodeBulks(args)|
    ensures ParseBulks(EncodeBulks(args)[..p], |args|)
         == if AfterDollar(args, p) then Fail(InvalidFormat) else More
    decreases |args|
  {
    hide ParseBulk, EncodeBulk, ParseBulks;
    var s := EncodeBulks(args)[..p];
    BulksStep(s, |args|);
    var first, others := EncodeBulk(args[0]), EncodeBulks(args[1..]);
    if p < |first| {
      assert s == first[..p];
      BulkPrefix(args[0], p);
    } else {
      assert s == first + others[..p - |first|];
      BulkRoundTrip(args[0], others[..p - |first|]);
      assert s[|first|..] == others[..p - |first|];
      BulksPrefix(args[1..], p - |first|);
    }
  }

  /**
   No proper prefix of a printed non-empty command is accepted: it asks for more, except just
   after a header tag, where it is a format error.
   */
  lemma FramePrefix(args: Args, p: nat)
    requires Fits(args) && args != [] && p < |EncodeFrame(args)|
    ensures ParseFrame(EncodeFrame(args)[..p])
         == if AfterTag(args, p) then Fail(InvalidFormat) else More
  {
    hide HeaderValue, LineLength, ParseBulks, EncodeBulks, ParseFrame, AfterDollar, Digits;
    var h := Header(STAR, |args|);
    var s := EncodeFrame(args)[..p];
    if p == 0 {
      EmptyNeedsMore();
    } else {
      FrameStep(s);
      if p == 1 {
        assert s == [STAR];
        OneByteHeader(s, STAR);
        assert s[..LineLength(s)] == s;
      } else if p < |h| {
        assert s == h[..p];
        HeaderCut(STAR, |args|, p);
        assert s[..p] == s && s[p..] == [];
        BulksFromNothing(HeaderValue(s, STAR).value);
      } else {
        var rest := EncodeBulks(args)[..p - |h|];
        assert s == h + rest;
        HeaderRoundTrip(STAR, |args|, rest);
        assert s[..|h|] == h && s[|h|..] == rest;
        BulksPrefix(args, p - |h|);
        NotAfterDollarAtStart(args);
      }
    }
  }

  lemma NotAfterDollarAtStart(args: Args)
    ensures !AfterDollar(args, 0)
  {}

  lemma BulksFromNothing(count: nat)
    requires count > 0
    ensures ParseBulks([], count) == More
  {}

  /** The empty command is different: every cut after its tag is already accepted, and swallowed whole. */
  lemma EmptyFramePrefix(p: nat)
    requires p < |EncodeFrame([])|
    ensures |EncodeFrame([])| == 4
    ensures ParseFrame(EncodeFrame([])[..p])
         == if p == 0 then More else if p == 1 then Fail(InvalidFormat) else Done([], p)
  {
    var h := Header(STAR, 0);
    var s := h[..p];
    assert EncodeFrame([]) == h && Digits(0) == [ZERO];
    if p == 1 {
      assert s == [STAR];
      OneByteHeader(s, STAR);
      assert s[..LineLength(s)] == s;
    } else if p >= 2 {
      var w: bytes := if p == 2 then [] else [CR];
      assert s == [STAR] + [ZERO] + w;
      LineWithoutLF(s);
      assert s[..p] == s;
      ValueOfDigits(0);
      HeaderOfDigits(STAR, [ZERO], w);
      var none: Args := [];
      assert none + none == none;
      BulksNone(s[p..]);
      FrameStep(s);
    }
  }

  /** Whatever does not start with `*` is refused, however it goes on. */
  lemma WrongTagFails(s: bytes)
    requires s != [] && s[0] != STAR
    ensures ParseFrame(s).Fail?
  {
    assert s[..LineLength(s)][0] == s[0];
  }

  // ---------------------------------------------------------------------------------------
  // Stability and progress
  // ---------------------------------------------------------------------------------------

  lemma BulkStable(s: bytes, t: bytes)
    requires ParseBulk(s).Done?
    ensures ParseBulk(s[..ParseBulk(s).used] + t) == ParseBulk(s)
  {
    hide HeaderValue, LineLength;
    var n, used := LineLength(s), ParseBulk(s).used;
    var s' := s[..used] + t;
    LineStopsAtLF(s);
    assert s' == s[..n] + (s[n..used] + t);
    LineLocal(s, s[n..used] + t);
    assert s'[..n] == s[..n];
    var len := HeaderValue(s[..n], DOLLAR).value;
    assert s'[n..][..len] == s[n..][..len];
    assert s'[n..][len..len + 2] == s[n..][len..len + 2];
  }

  lemma {:induction false} BulksStable(s: bytes, count: nat, t: bytes)
    requires ParseBulks(s, count).Done?
    ensures ParseBulks(s[..ParseBulks(s, count).used] + t, count) == ParseBulks(s, count)
    decreases count
  {
    hide ParseBulk, ParseBulks;
    if count == 0 {
      BulksNone(s);
      BulksNone(s[..0] + t);
    } else {
      BulksStep(s, count);
      var total, used := ParseBulks(s, count).used, ParseBulk(s).used;
      var rest := s[used..];
      var s' := s[..total] + t;
      BulksStable(rest, count - 1, t);
      assert s' == s[..used] + (rest[..total - used] + t);
      BulkStable(s, rest[..total - used] + t);
      assert s'[used..] == rest[..total - used] + t;
      BulksStep(s', count);
    }
  }

  lemma TerminatedFrameStable(s: bytes, t: bytes)
    requires ParseFrame(s).Done? && s[ParseFrame(s).used - 1] == LF
    ensures ParseFrame(s[..ParseFrame(s).used] + t) == ParseFrame(s)
  {
    hide HeaderValue, LineLength, ParseBulks, ParseFrame;
    FrameStep(s);
    var n, used := LineLength(s), ParseFrame(s).used;
    var count, tail := HeaderValue(s[..n], STAR).value, s[n..];
    var more := ParseBulks(tail, count).used;
    assert used == n + more;
    if more == 0 && count > 0 {
      FrameEndsInLF(tail, count);
    }
    if n < |s| {
      LineStopsAtLF(s);
    }
    var s' := s[..used] + t;
    var tail' := tail[..more] + t;
    assert s' == s[..n] + tail';
    LineLocal(s, tail');
    assert s'[..n] == s[..n] && s'[n..] == tail';
    BulksStable(tail, count, t);
    FrameStep(s');
  }

  lemma UnterminatedFrameUnstable(s: bytes)
    requires ParseFrame(s).Done? && s[ParseFrame(s).used - 1] != LF
    ensures ParseFrame(s).value == [] && ParseFrame(s).used == |s|
    ensures ParseFrame(s + [LF]) != ParseFrame(s)
  {
    hide HeaderValue, LineLength, ParseBulks, ParseFrame;
    FrameStep(s);
    var n := LineLength(s);
    var count := HeaderValue(s[..n], STAR).value;
    if count > 0 {
      FrameEndsInLF(s[n..], count);
      assert false;
    }
    BulksNone(s[n..]);
    if n < |s| {
      LineStopsAtLF(s);
    }
    NoLFBefore(s);
    LineThroughLF(s, []);
    assert s + [LF] + [] == s + [LF];
    FrameStep(s + [LF]);
  }

  /**
   An accepted command does not depend on what follows it exactly when its last octet is LF,
   which holds of every command with arguments; only an unterminated `*0` is not final.
   */
  lemma FrameStable(s: bytes)
    requires ParseFrame(s).Done?
    ensures var r := ParseFrame(s);
            && ((forall t: bytes :: ParseFrame(s[..r.used] + t) == r) <==> s[r.used - 1] == LF)
            && (r.value != [] ==> s[r.used - 1] == LF)
  {
    hide ParseFrame;
    var r := ParseFrame(s);
    if s[r.used - 1] == LF {
      forall t: bytes
        ensures ParseFrame(s[..r.used] + t) == r
      {
        TerminatedFrameStable(s, t);
      }
    } else {
      UnterminatedFrameUnstable(s);
      assert s[..r.used] == s;
    }
  }

  lemma {:induction false} NoLFBefore(s: bytes)
    requires LineLength(s) == |s| && s != [] && s[|s| - 1] != LF
    ensures forall i :: 0 <= i < |s| ==> s[i] != LF
  {
    if |s| > 1 {
      NoLFBefore(s[1..]);
      assert forall i :: 1 <= i < |s| ==> s[i] == s[1..][i - 1];
    }
  }

  lemma BulkEndsInLF(s: bytes)
    requires ParseBulk(s).Done?
    ensures s[ParseBulk(s).used - 1] == LF
  {
    hide HeaderValue, LineLength;
    var n := LineLength(s);
    var len := HeaderValue(s[..n], DOLLAR).value;
    assert s[n..][len..len + 2][1] == LF;
  }

  lemma {:induction false} FrameEndsInLF(s: bytes, count: nat)
    requires count > 0 && ParseBulks(s, count).Done?
    ensures ParseBulk(s).Done?
    ensures var used := ParseBulks(s, count).used; used > 0 && s[used - 1] == LF
    decreases count
  {
    hide ParseBulk, ParseBulks;
    BulksStep(s, count);
    BulkEndsInLF(s);
    var used := ParseBulk(s).used;
    if count > 1 {
      FrameEndsInLF(s[used..], count - 1);
    } else {
      BulksNone(s[used..]);
    }
  }

  // ---------------------------------------------------------------------------------------
  // The grammar: exactly what is accepted
  // ---------------------------------------------------------------------------------------

  /** A line of UTF-8: the tag, then a number with optional white space around it. */
  ghost predicate IsHeader(line: bytes, tag: byte, n: nat)
  {
    && line != [] && line[0] == tag && Valid(line)
    && n < 18_446_744_073_709_551_616 && PaddedNumeral(Codes(line)[1..], n)
  }

  /** Ends in LF and has no other. */
  predicate IsLine(line: bytes)
  {
    line != [] && line[|line| - 1] == LF && forall i :: 0 <= i < |line| - 1 ==> line[i] != LF
  }

  lemma HeaderExact(line: bytes, tag: byte, n: nat)
    ensures HeaderValue(line, tag) == Done(n, |line|) <==> IsHeader(line, tag, n)
  {
    hide Trim, PaddedNumeral, ParseUnsigned;
    if Valid(line) && line != [] {
      TrimParseExact(Codes(line)[1..], USIZE_MAX, n);
    }
  }

  lemma {:induction false} LineExact(s: bytes, n: nat)
    requires n <= |s|
    ensures IsLine(s[..n]) <==> n > 0 && LineLength(s) == n && s[n - 1] == LF
  {
    if n > 0 && LineLength(s) == n && s[n - 1] == LF {
      if s[0] != LF {
        LineExact(s[1..], n - 1);
        assert s[1..][..n - 1] == s[..n][1..];
        assert forall i :: 1 <= i < n ==> s[..n][i] == s[1..][..n - 1][i - 1];
      }
    }
    if IsLine(s[..n]) {
      LineThroughLF(s[..n - 1], s[n..]);
      assert s == s[..n - 1] + [LF] + s[n..];
    }
  }

  /** `used` octets of `s` are one bulk string holding `arg`. */
  ghost predicate BulkAt(s: bytes, arg: bytes, used: nat)
  {
    exists n: nat :: n <= used <= |s| && IsLine(s[..n]) && IsHeader(s[..n], DOLLAR, |arg|) && s[n..used] == arg + CRLF
  }

  lemma BulkExact(s: bytes, arg: bytes, used: nat)
    ensures ParseBulk(s) == Done(arg, used) <==> BulkAt(s, arg, used)
  {
    hide HeaderValue, IsHeader, LineLength, IsLine;
    if ParseBulk(s) == Done(arg, used) {
      var n := LineLength(s);
      LineStopsAtLF(s);
      LineExact(s, n);
      HeaderExact(s[..n], DOLLAR, |arg|);
      HeaderUses(s[..n], DOLLAR);
      assert s[n..used] == s[n..][..|arg|] + s[n..][|arg|..|arg| + 2];
    }
    if BulkAt(s, arg, used) {
      var n: nat :| n <= used <= |s| && IsLine(s[..n]) && IsHeader(s[..n], DOLLAR, |arg|) && s[n..used] == arg + CRLF;
      LineExact(s, n);
      HeaderExact(s[..n], DOLLAR, |arg|);
      assert s[n..][..|arg|] == s[n..used][..|arg|];
      assert s[n..][|arg|..|arg| + 2] == s[n..used][|arg|..];
    }
  }

  lemma HeaderUses(line: bytes, tag: byte)
    ensures HeaderValue(line, tag).Done? ==> HeaderValue(line, tag).used == |line|
  {}

  ghost predicate BulksAt(s: bytes, args: Args, used: nat)
    decreases |args|
  {
    if args == [] then used == 0
    else exists k: nat :: k <= used && k <= |s| && BulkAt(s, args[0], k) && BulksAt(s[k..], args[1..], used - k)
  }

  lemma {:induction false} BulksExact(s: bytes, args: Args, used: nat)
    ensures ParseBulks(s, |args|) == Done(args, used) <==> BulksAt(s, args, used)
    decreases |args|
  {
    hide ParseBulk, ParseBulks, BulkAt;
    if args == [] {
      BulksNone(s);
    } else {
      BulksStep(s, |args|);
      assert args == [args[0]] + args[1..];
      if ParseBulks(s, |args|) == Done(args, used) {
        var first := ParseBulk(s);
        var rest := ParseBulks(s[first.used..], |args| - 1);
        assert ([first.value] + rest.value)[0] == args[0] && ([first.value] + rest.value)[1..] == args[1..];
        BulkExact(s, args[0], first.used);
        BulksExact(s[first.used..], args[1..], rest.used);
      }
      if BulksAt(s, args, used) {
        var k: nat :| k <= used && k <= |s| && BulkAt(s, args[0], k) && BulksAt(s[k..], args[1..], used - k);
        BulkExact(s, args[0], k);
        BulksExact(s[k..], args[1..], used - k);
      }
    }
  }

  /** `used` octets of `s` are one command; without arguments the line may also be cut off at the end of input. */
  ghost predicate FrameAt(s: bytes, args: Args, used: nat)
  {
    exists n: nat ::
      && 0 < n <= used && n <= |s|
      && (IsLine(s[..n]) || (n == |s| && LF !in s))
      && IsHeader(s[..n], STAR, |args|) && BulksAt(s[n..], args, used - n)
  }

  /** The parser accepts exactly the grammar: this command, this many octets, and in no other case. */
  lemma FrameExact(s: bytes, args: Args, used: nat)
    ensures ParseFrame(s) == Done(args, used) <==> FrameAt(s, args, used)
  {
    hide HeaderValue, IsHeader, LineLength, IsLine, ParseBulks, BulksAt, ParseFrame;
    if ParseFrame(s) == Done(args, used) {
      if s == [] {
        EmptyNeedsMore();
      }
      FrameStep(s);
      var n := LineLength(s);
      var rest := ParseBulks(s[n..], HeaderValue(s[..n], STAR).value);
      assert [] + rest.value == rest.value == args;
      LineEnds(s);
      LineExact(s, n);
      HeaderUses(s[..n], STAR);
      HeaderExact(s[..n], STAR, |args|);
      BulksExact(s[n..], args, used - n);
      assert 0 < n <= used && n <= |s| && IsHeader(s[..n], STAR, |args|) && BulksAt(s[n..], args, used - n);
      assert IsLine(s[..n]) || (n == |s| && LF !in s);
    }
    if FrameAt(s, args, used) {
      var n: nat :| && 0 < n <= used && n <= |s|
                    && (IsLine(s[..n]) || (n == |s| && LF !in s))
                    && IsHeader(s[..n], STAR, |args|) && BulksAt(s[n..], args, used - n);
      if IsLine(s[..n]) {
        LineExact(s, n);
      } else {
        LineWithoutLF(s);
      }
      HeaderExact(s[..n], STAR, |args|);
      BulksExact(s[n..], args, used - n);
      FrameStep(s);
      assert LineLength(s) == n;
      assert [] + args == args;
    }
  }

  lemma LineEnds(s: bytes)
    requires s != []
    ensures s[LineLength(s) - 1] == LF || (LineLength(s) == |s| && LF !in s)
  {
    if LineLength(s) < |s| {
      LineStopsAtLF(s);
    } else if s[|s| - 1] != LF {
      NoLFBefore(s);
    }
  }

  // ---------------------------------------------------------------------------------------
  // Exactly what is refused, and how
  // ---------------------------------------------------------------------------------------

  /** The first `n` octets are a line, or all there is without a LF. */
  predicate FirstLine(s: bytes, n: nat)
  {
    0 < n <= |s| && (IsLine(s[..n]) || (n == |s| && LF !in s))
  }

  lemma FirstLineExact(s: bytes, n: nat)
    ensures FirstLine(s, n) <==> s != [] && n == LineLength(s)
  {
    hide LineLength, IsLine;
    if s != [] {
      LineEnds(s);
      LineExact(s, LineLength(s));
    }
    if FirstLine(s, n) {
      if IsLine(s[..n]) {
        LineExact(s, n);
      } else {
        LineWithoutLF(s);
      }
    }
  }

  /** The line is not UTF-8, or it is and still no header with this tag. */
  ghost predicate HeaderFault(line: bytes, tag: byte, e: RespError)
  {
    if !Valid(line) then e == Io else e == InvalidFormat && forall n: nat :: !IsHeader(line, tag, n)
  }

  lemma HeaderFaultExact(line: bytes, tag: byte, e: RespError)
    ensures HeaderValue(line, tag) == Fail(e) <==> HeaderFault(line, tag, e)
  {
    forall n: nat
      ensures HeaderValue(line, tag) == Done(n, |line|) <==> IsHeader(line, tag, n)
    {
      HeaderExact(line, tag, n);
    }
    HeaderUses(line, tag);
  }

  /** A bad header line, or two octets after the payload that are not CR and LF. */
  ghost predicate BulkFault(s: bytes, e: RespError)
  {
    exists n: nat :: && FirstLine(s, n)
                && (HeaderFault(s[..n], DOLLAR, e)
                    || (e == InvalidFormat && exists len: nat :: IsHeader(s[..n], DOLLAR, len) && BadEnd(s, n + len)))
  }

  predicate BadEnd(s: bytes, at: nat)
  {
    at + 2 <= |s| && s[at..at + 2] != [13, 10]
  }

  lemma BulkFaultExact(s: bytes, e: RespError)
    ensures ParseBulk(s) == Fail(e) <==> BulkFault(s, e)
  {
    hide HeaderValue, IsHeader, LineLength, HeaderFault, FirstLine;
    forall n: nat
      ensures FirstLine(s, n) <==> s != [] && n == LineLength(s)
    {
      FirstLineExact(s, n);
    }
    if s != [] {
      var n := LineLength(s);
      BulkFaultAfter(s, n, e);
      assert FirstLine(s, n);
    }
  }

  lemma BulkFaultAfter(s: bytes, n: nat, e: RespError)
    requires s != [] && n == LineLength(s)
    ensures ParseBulk(s) == Fail(e) <==>
            || HeaderFault(s[..n], DOLLAR, e)
            || (e == InvalidFormat && exists len: nat :: IsHeader(s[..n], DOLLAR, len) && BadEnd(s, n + len))
  {
    hide HeaderValue, IsHeader, LineLength, HeaderFault;
    var header := HeaderValue(s[..n], DOLLAR);
    HeaderFaultExact(s[..n], DOLLAR, e);
    HeaderUses(s[..n], DOLLAR);
    forall len: nat
      ensures IsHeader(s[..n], DOLLAR, len) <==> header == Done(len, |s[..n]|)
    {
      HeaderExact(s[..n], DOLLAR, len);
    }
    if header.Done? {
      var len := header.value;
      assert IsHeader(s[..n], DOLLAR, len);
      if n + len + 2 <= |s| {
        assert s[n..][len..len + 2] == s[n + len..n + len + 2];
      }
    }
  }

  /** Fewer bulk strings than announced, and then a faulty one. */
  ghost predicate BulksFault(s: bytes, count: nat, e: RespError)
    decreases count
  {
    && count > 0
    && (BulkFault(s, e)
        || exists arg: bytes, k: nat :: k <= |s| && BulkAt(s, arg, k) && BulksFault(s[k..], count - 1, e))
  }

  lemma {:induction false} BulksFaultExact(s: bytes, count: nat, e: RespError)
    ensures ParseBulks(s, count) == Fail(e) <==> BulksFault(s, count, e)
    decreases count
  {
    hide ParseBulk, ParseBulks, BulkAt, BulkFault;
    if count == 0 {
      BulksNone(s);
    } else {
      BulksStep(s, count);
      BulkFaultExact(s, e);
      var first := ParseBulk(s);
      forall arg: bytes, k: nat
        ensures BulkAt(s, arg, k) <==> first == Done(arg, k)
      {
        BulkExact(s, arg, k);
      }
      if first.Done? {
        BulksFaultExact(s[first.used..], count - 1, e);
        assert BulkAt(s, first.value, first.used);
      }
    }
  }

  /** A faulty array header, or a good one and a faulty bulk string among those it announces. */
  ghost predicate FrameFault(s: bytes, e: RespError)
  {
    exists n: nat :: && FirstLine(s, n)
                && (HeaderFault(s[..n], STAR, e)
                    || exists count: nat :: IsHeader(s[..n], STAR, count) && BulksFault(s[n..], count, e))
  }

  /**
   The parser fails with `Io` or `InvalidFormat` exactly where the input says: `Io` for a header line
   that is not UTF-8, `InvalidFormat` for any other bad header line or a payload not followed by CRLF.
   */
  lemma FailExact(s: bytes, e: RespError)
    ensures ParseFrame(s) == Fail(e) <==> FrameFault(s, e)
  {
    hide HeaderValue, IsHeader, LineLength, ParseBulks, ParseFrame, HeaderFault, BulksFault, FirstLine;
    forall n: nat
      ensures FirstLine(s, n) <==> s != [] && n == LineLength(s)
    {
      FirstLineExact(s, n);
    }
    if s == [] {
      EmptyNeedsMore();
    } else {
      var n := LineLength(s);
      assert FirstLine(s, n);
      FrameStep(s);
      var header := HeaderValue(s[..n], STAR);
      HeaderFaultExact(s[..n], STAR, e);
      HeaderUses(s[..n], STAR);
      forall count: nat
        ensures IsHeader(s[..n], STAR, count) <==> header == Done(count, |s[..n]|)
      {
        HeaderExact(s[..n], STAR, count);
      }
      if header.Done? {
        BulksFaultExact(s[n..], header.value, e);
        assert IsHeader(s[..n], STAR, header.value);
      }
    }
  }

  // ---------------------------------------------------------------------------------------
  // When asking for more is in vain
  // ---------------------------------------------------------------------------------------

  /** The payload is complete and followed by a single octet, which is not the CR it must be. */
  predicate BulkHopeless(s: bytes)
  {
    && s != []
    && var n := LineLength(s);
       var header := HeaderValue(s[..n], DOLLAR);
       header.Done? && |s| == n + header.value + 1 && s[n + header.value] != CR
  }

  /** So it is with the bulk string that is cut off. */
  predicate BulksHopeless(s: bytes, count: nat)
    decreases count
  {
    && count > 0
    && match ParseBulk(s)
       case More => BulkHopeless(s)
       case Done(_, used) => BulksHopeless(s[used..], count - 1)
       case Fail(_) => false
  }

  predicate FrameHopeless(s: bytes)
  {
    && s != []
    && var n := LineLength(s);
       var header := HeaderValue(s[..n], STAR);
       header.Done? && BulksHopeless(s[n..], header.value)
  }

  /** A complete line is the same line whatever follows. */
  lemma LineKept(s: bytes, t: bytes)
    requires s != [] && s[LineLength(s) - 1] == LF
    ensures var n := LineLength(s);
            LineLength(s + t) == n && (s + t)[..n] == s[..n] && (s + t)[n..] == s[n..] + t
  {
    hide LineLength;
    var n := LineLength(s);
    LineLocal(s, s[n..] + t);
    CutAndJoin(s, n, t);
  }

  lemma CutAndJoin(s: bytes, n: nat, t: bytes)
    requires n <= |s|
    ensures s + t == s[..n] + (s[n..] + t) && (s + t)[..n] == s[..n] && (s + t)[n..] == s[n..] + t
  {}

  lemma BulkNeverDone(s: bytes, t: bytes)
    requires BulkHopeless(s)
    ensures !ParseBulk(s + t).Done?
  {
    hide HeaderValue, LineLength;
    var n := LineLength(s);
    LineStopsAtLF(s);
    LineKept(s, t);
    var len := HeaderValue(s[..n], DOLLAR).value;
    var rest := s[n..] + t;
    assert rest[len] == s[n + len];
    if |rest| >= len + 2 {
      assert rest[len..len + 2][0] == rest[len];
    }
  }

  /** An accepted bulk string is unaffected by what is appended to the input. */
  lemma BulkKept(s: bytes, t: bytes)
    requires ParseBulk(s).Done?
    ensures ParseBulk(s + t) == ParseBulk(s) && (s + t)[ParseBulk(s).used..] == s[ParseBulk(s).used..] + t
  {
    hide ParseBulk;
    var used := ParseBulk(s).used;
    BulkStable(s, s[used..] + t);
    CutAndJoin(s, used, t);
  }

  lemma {:induction false} BulksNeverDone(s: bytes, count: nat, t: bytes)
    requires BulksHopeless(s, count)
    ensures s != [] && !ParseBulks(s + t, count).Done?
    decreases count
  {
    hide ParseBulk, ParseBulks, BulkHopeless;
    BulksStep(s + t, count);
    if ParseBulk(s).More? {
      assert s != [] by { HopelessNonEmpty(s); }
      BulkNeverDone(s, t);
    } else {
      BulkKept(s, t);
      BulksNeverDone(s[ParseBulk(s).used..], count - 1, t);
    }
  }

  lemma HopelessNonEmpty(s: bytes)
    requires BulkHopeless(s)
    ensures s != []
  {}

  /** White space at the end of a header line changes nothing. */
  lemma {:induction false} CodesThenLF(s: bytes)
    requires Valid(s)
    ensures Valid(s + [LF]) && Codes(s + [LF]) == Codes(s) + [LF as int]
  {
    hide FirstChar;
    if s == [] {
      assert s + [LF] == [LF];
      AsciiIsValid([LF]);
    } else {
      var w := FirstChar(s).width;
      CodesThenLF(s[w..]);
      FirstCharLocal(s, s[w..] + [LF]);
      assert s + [LF] == s[..w] + (s[w..] + [LF]);
      assert (s + [LF])[w..] == s[w..] + [LF];
    }
  }

  lemma PaddedMore(s: seq<nat>, n: nat)
    requires PaddedNumeral(s, n)
    ensures PaddedNumeral(s + [LF as int], n)
  {
    hide Numeral;
    var a: seq<nat>, m: seq<nat>, b: seq<nat> :| s == a + m + b && Spaces(a) && Spaces(b) && Numeral(m, n);
    var c := b + [LF as int];
    assert s + [LF as int] == a + m + c;
    assert Spaces(c);
  }

  lemma HeaderThenLF(line: bytes, tag: byte)
    requires HeaderValue(line, tag).Done?
    ensures HeaderValue(line + [LF], tag) == Done(HeaderValue(line, tag).value, |line| + 1)
  {
    hide HeaderValue, PaddedNumeral, Codes, Valid;
    var n := HeaderValue(line, tag).value;
    HeaderUses(line, tag);
    HeaderExact(line, tag, n);
    CodesThenLF(line);
    HeaderHasCodes(line);
    assert (Codes(line) + [LF as int])[1..] == Codes(line)[1..] + [LF as int];
    PaddedMore(Codes(line)[1..], n);
    HeaderExact(line + [LF], tag, n);
  }

  lemma HeaderHasCodes(line: bytes)
    requires Valid(line) && line != []
    ensures Codes(line) != []
  {}

  /** Some continuation completes a bulk string whose header line is complete. */
  lemma CompletePayload(s: bytes) returns (t: bytes)
    requires s != [] && s[LineLength(s) - 1] == LF && ParseBulk(s).More? && !BulkHopeless(s)
    ensures ParseBulk(s + t).Done? && ParseBulk(s + t).used == |s + t|
  {
    hide HeaderValue, LineLength;
    var n := LineLength(s);
    var len, rest := HeaderValue(s[..n], DOLLAR).value, s[n..];
    t := if |rest| <= len then seq(len - |rest|, _ => ZERO) + CRLF else [LF];
    LineKept(s, t);
    assert |rest + t| == len + 2;
    assert (rest + t)[len..len + 2] == CRLF by {
      if |rest| > len {
        assert s[n + len] == rest[len];
        assert (rest + t)[len] == CR && (rest + t)[len + 1] == LF;
      }
    }
  }

  lemma BulkThenLF(s: bytes)
    requires s != [] && ParseBulk(s).More? && s[LineLength(s) - 1] != LF
    ensures var u := s + [LF];
            LineLength(u) == |u| && ParseBulk(u).More? && !BulkHopeless(u)
  {
    hide HeaderValue, LineLength;
    UnendedLine(s);
    assert s[..|s|] == s;
    HeaderThenLF(s, DOLLAR);
    assert (s + [LF])[..|s| + 1] == s + [LF];
  }

  /** A line that is cut off is all there is, and one LF completes it. */
  lemma UnendedLine(s: bytes)
    requires s != [] && s[LineLength(s) - 1] != LF
    ensures LineLength(s) == |s| && LineLength(s + [LF]) == |s| + 1
  {
    LineEnds(s);
    LineThroughLF(s, []);
    assert s + [LF] + [] == s + [LF];
  }

  lemma CompleteBulk(s: bytes) returns (t: bytes)
    requires ParseBulk(s).More? && !BulkHopeless(s)
    ensures ParseBulk(s + t).Done? && ParseBulk(s + t).used == |s + t|
  {
    hide ParseBulk, BulkHopeless, LineLength;
    if s == [] {
      t := EncodeBulk([]);
      BulkRoundTrip([], []);
      assert [] + t == t && EncodeBulk([]) + [] == t;
    } else if s[LineLength(s) - 1] == LF {
      t := CompletePayload(s);
    } else {
      BulkThenLF(s);
      var more := CompletePayload(s + [LF]);
      t := [LF] + more;
      Associative(s, [LF], more);
    }
  }

  lemma {:induction false} CompleteBulks(s: bytes, count: nat) returns (t: bytes)
    requires ParseBulks(s, count).More? && !BulksHopeless(s, count)
    ensures ParseBulks(s + t, count).Done?
    decreases count
  {
    hide ParseBulk, ParseBulks, BulkHopeless, EncodeBulks;
    if count == 0 {
      BulksNone(s);
    }
    BulksStep(s, count);
    if ParseBulk(s).Done? {
      t := CompleteBulks(s[ParseBulk(s).used..], count - 1);
      BulkKept(s, t);
    } else {
      var first := CompleteBulk(s);
      var others := seq(count - 1, _ => []);
      var rest := EncodeBulks(others);
      t := first + rest;
      Associative(s, first, rest);
      BulkKept(s + first, rest);
      BulksRoundTrip(others, []);
      assert (s + first)[|s + first|..] + rest == rest == rest + [];
    }
    BulksStep(s + t, count);
  }

  lemma CompleteEnded(s: bytes) returns (t: bytes)
    requires s != [] && s[LineLength(s) - 1] == LF && ParseFrame(s).More? && !FrameHopeless(s)
    ensures ParseFrame(s + t).Done?
  {
    hide HeaderValue, LineLength, ParseBulks, ParseFrame, BulksHopeless;
    FrameStep(s);
    var n := LineLength(s);
    t := CompleteBulks(s[n..], HeaderValue(s[..n], STAR).value);
    LineKept(s, t);
    FrameStep(s + t);
  }

  lemma FrameThenLF(s: bytes)
    requires s != [] && ParseFrame(s).More? && s[LineLength(s) - 1] != LF
    ensures var u := s + [LF];
            LineLength(u) == |u| && ParseFrame(u).More? && !FrameHopeless(u)
  {
    hide HeaderValue, LineLength, ParseBulks, ParseFrame;
    UnendedLine(s);
    FrameStep(s);
    assert s[..|s|] == s && s[|s|..] == [];
    HeaderThenLF(s, STAR);
    var u := s + [LF];
    assert u[..|u|] == u && u[|u|..] == [];
    FrameStep(u);
  }

  lemma CompleteFrame(s: bytes) returns (t: bytes)
    requires ParseFrame(s).More? && !FrameHopeless(s)
    ensures ParseFrame(s + t).Done?
  {
    hide ParseFrame, FrameHopeless, LineLength;
    if s == [] {
      t := EncodeFrame([]);
      FrameRoundTrip([], []);
      assert [] + t == t == t + [];
    } else if s[LineLength(s) - 1] == LF {
      t := CompleteEnded(s);
    } else {
      FrameThenLF(s);
      var more := CompleteEnded(s + [LF]);
      t := [LF] + more;
      Associative(s, [LF], more);
    }
  }

  lemma FrameNeverDone(s: bytes, t: bytes)
    requires FrameHopeless(s)
    ensures !ParseFrame(s + t).Done?
  {
    hide HeaderValue, LineLength, ParseBulks, ParseFrame, BulksHopeless;
    var n := LineLength(s);
    var count := HeaderValue(s[..n], STAR).value;
    BulksNeverDone(s[n..], count, t);
    LineStopsAtLF(s);
    LineKept(s, t);
    FrameStep(s + t);
  }

  /**
   When the parser asks for more, some continuation is accepted if and only if the payload being
   read is not already followed by a single octet other than CR.
   */
  lemma MoreExactly(s: bytes)
    requires ParseFrame(s) == More
    ensures (exists t :: ParseFrame(s + t).Done?) <==> !FrameHopeless(s)
  {
    hide ParseFrame, FrameHopeless;
    if FrameHopeless(s) {
      forall t
        ensures !ParseFrame(s + t).Done?
      {
        FrameNeverDone(s, t);
      }
    } else {
      var t := CompleteFrame(s);
    }
  }
}
