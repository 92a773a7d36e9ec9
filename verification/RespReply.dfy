/**
 The reply half of crates/redis-web-core/src/resp.rs, and the gRPC mapping of
 crates/redis-web-runtime/src/grpc.rs: two views of the same value tree.
 */
module RespReply {
  import opened Bytes
  import opened Decimal
  import opened RespCommand

  /** `redis::Value`; every variant the two printers do not handle is `Other`. */
  datatype Value =
    | Nil
    | Int(i: int)
    | BulkString(data: bytes)
    | Array(items: seq<Value>)
    | SimpleString(text: bytes)
    | Okay
    | Other(variant: nat)

  const COLON: byte := 58
  const SIGN: byte := 45
  const OK: bytes := Ascii("OK")
  const UNSUPPORTED: bytes := Ascii("ERR Unsupported RESP3 type")
  const MINUS_ONE: bytes := [SIGN, 49]

  function Signed(i: int): (r: bytes)
  {
    if i < 0 then [SIGN] + Digits(-i) else Digits(i)
  }

  function Line(tag: byte, text: bytes): (r: bytes) { [tag] + text + CRLF }

  /** `value_to_resp`. */
  function Encode(v: Value): (r: bytes)
    decreases v, 0
  {
    match v
    case Nil => Line(DOLLAR, MINUS_ONE)
    case Int(i) => Line(COLON, Signed(i))
    case BulkString(data) => Line(DOLLAR, Digits(|data|)) + (data + CRLF)
    case Array(items) => Line(STAR, Digits(|items|)) + EncodeList(items)
    case SimpleString(text) => Line(PLUS, text)
    case Okay => Line(PLUS, OK)
    case Other(_) => Line(SIGN, UNSUPPORTED)
  }

  function EncodeList(vs: seq<Value>): (r: bytes)
    decreases vs, 1
  {
    if vs == [] then [] else Encode(vs[0]) + EncodeList(vs[1..])
  }

  // ---------------------------------------------------------------------------------------
  // The typed reply
  // ---------------------------------------------------------------------------------------

  /** The `oneof` of gateway.proto, plus the error line that only RESP has. */
  datatype Reply =
    | NilReply
    | Integer(i: int)
    | Bulk(data: bytes)
    | Simple(text: bytes)
    | Items(values: seq<Reply>)
    | ErrorLine(text: bytes)

  /** `redis_value_to_proto`: fails as a whole when any node is unsupported. */
  function ToProto(v: Value): (r: Option<Reply>)
    decreases v, 0
  {
    match v
    case Nil => Some(NilReply)
    case Int(i) => Some(Integer(i))
    case BulkString(data) => Some(Bulk(data))
    case Array(items) =>
      var values := ToProtoList(items);
      if values.Some? then Some(Items(values.value)) else None
    case SimpleString(text) => Some(Simple(text))
    case Okay => Some(Simple(OK))
    case Other(_) => None
  }

  function ToProtoList(vs: seq<Value>): (r: Option<seq<Reply>>)
    decreases vs, 1
  {
    if vs == [] then Some([])
    else
      var first := ToProto(vs[0]);
      if first.None? then None
      else
        var rest := ToProtoList(vs[1..]);
        if rest.None? then None else Some([first.value] + rest.value)
  }

  /** No node at any depth is of an unsupported variant. */
  predicate Supported(v: Value)
    decreases v
  {
    match v
    case Array(items) => forall i :: 0 <= i < |items| ==> Supported(items[i])
    case Other(_) => false
    case _ => true
  }

  /** What the bytes say, unsupported nodes included. */
  function ToReply(v: Value): (r: Reply)
    decreases v, 0
  {
    match v
    case Nil => NilReply
    case Int(i) => Integer(i)
    case BulkString(data) => Bulk(data)
    case Array(items) => Items(ToReplies(items))
    case SimpleString(text) => Simple(text)
    case Okay => Simple(OK)
    case Other(_) => ErrorLine(UNSUPPORTED)
  }

  function ToReplies(vs: seq<Value>): (r: seq<Reply>)
    ensures |r| == |vs|
    decreases vs, 1
  {
    if vs == [] then [] else [ToReply(vs[0])] + ToReplies(vs[1..])
  }

  /** The mapping succeeds exactly on supported trees, and then agrees with the bytes. */
  lemma {:induction false} ProtoExactlySupported(v: Value)
    ensures ToProto(v).Some? <==> Supported(v)
    ensures ToProto(v).Some? ==> ToProto(v).value == ToReply(v)
    decreases v, 0
  {
    if v.Array? {
      ProtoListExactlySupported(v.items);
    }
  }

  lemma {:induction false} ProtoListExactlySupported(vs: seq<Value>)
    ensures ToProtoList(vs).Some? <==> forall i :: 0 <= i < |vs| ==> Supported(vs[i])
    ensures ToProtoList(vs).Some? ==> ToProtoList(vs).value == ToReplies(vs)
    decreases vs, 1
  {
    if vs != [] {
      ProtoExactlySupported(vs[0]);
      ProtoListExactlySupported(vs[1..]);
      assert (forall i :: 0 <= i < |vs| ==> Supported(vs[i]))
        <==> Supported(vs[0]) && forall i :: 0 <= i < |vs[1..]| ==> Supported(vs[1..][i]) by {
        if forall i :: 0 <= i < |vs| ==> Supported(vs[i]) {
          assert forall i :: 0 <= i < |vs[1..]| ==> vs[1..][i] == vs[i + 1];
        }
        if Supported(vs[0]) && forall i :: 0 <= i < |vs[1..]| ==> Supported(vs[1..][i]) {
          assert forall i :: 1 <= i < |vs| ==> vs[i] == vs[1..][i - 1];
        }
      }
    }
  }

  // ---------------------------------------------------------------------------------------
  // A reference reader
  // ---------------------------------------------------------------------------------------

  /** Position of the first CRLF. */
  function FirstCrlf(s: bytes): (r: Option<nat>)
    ensures r.Some? ==> r.value + 2 <= |s| && s[r.value..r.value + 2] == CRLF
  {
    if |s| < 2 then None
    else if s[..2] == CRLF then Some(0)
    else
      var r := FirstCrlf(s[1..]);
      if r.None? then None else Some(r.value + 1)
  }

  function ReadSigned(s: bytes): (r: Option<int>)
  {
    var body := if s != [] && s[0] == SIGN then s[1..] else s;
    if body == [] || !AllDigits(body) then None
    else
      var n: int := Decimal.Value(body);
      Some(if s[0] == SIGN then -n else n)
  }

  datatype Read<T> = Got(value: T, used: nat) | Bad

  /** Reads one reply from the front of `s`, by the RESP2 rules. */
  function Decode(s: bytes): (r: Read<Reply>)
    ensures r.Got? ==> 1 <= r.used <= |s|
    decreases |s|, 0
  {
    if s == [] || FirstCrlf(s[1..]).None? then Bad
    else
      var n := FirstCrlf(s[1..]).value;
      var line, used := s[1..1 + n], n + 3;
      var rest := s[used..];
      if s[0] == PLUS then Got(Simple(line), used)
      else if s[0] == SIGN then Got(ErrorLine(line), used)
      else
        var number := ReadSigned(line);
        if number.None? then Bad
        else if s[0] == COLON then Got(Integer(number.value), used)
        else if s[0] == DOLLAR then
          if number.value == -1 then Got(NilReply, used)
          else if number.value < 0 || |rest| < number.value + 2 then Bad
          else if rest[number.value..number.value + 2] != CRLF then Bad
          else Got(Bulk(rest[..number.value]), used + number.value + 2)
        else if s[0] == STAR && number.value >= 0 then
          var items := DecodeList(rest, number.value);
          if items.Bad? then Bad else Got(Items(items.value), used + items.used)
        else Bad
  }

  function DecodeList(s: bytes, count: nat): (r: Read<seq<Reply>>)
    ensures r.Got? ==> r.used <= |s|
    decreases |s|, count
  {
    if count == 0 then Got([], 0)
    else
      var first := Decode(s);
      if first.Bad? then Bad
      else
        var rest := DecodeList(s[first.used..], count - 1);
        if rest.Bad? then Bad else Got([first.value] + rest.value, first.used + rest.used)
  }

  // ---------------------------------------------------------------------------------------
  // Unique decodability
  // ---------------------------------------------------------------------------------------

  predicate HasCrlf(s: bytes) { exists k {:trigger s[k]} :: 0 <= k < |s| - 1 && s[k] == CR && s[k + 1] == LF }

  /** No simple string holds a line break. */
  predicate Clean(v: Value)
    decreases v
  {
    match v
    case Array(items) => forall i :: 0 <= i < |items| ==> Clean(items[i])
    case SimpleString(text) => !HasCrlf(text)
    case _ => true
  }

  lemma {:induction false} FirstCrlfAfter(text: bytes, tail: bytes)
    requires !HasCrlf(text)
    ensures FirstCrlf(text + CRLF + tail) == Some(|text|)
  {
    var s := text + CRLF + tail;
    if text == [] {
      assert s[..2] == CRLF;
    } else {
      assert s[1..] == text[1..] + CRLF + tail;
      FirstCrlfAfter(text[1..], tail);
      assert s[..2] == [s[0], s[1]];
    }
  }

  lemma LineReads(tag: byte, text: bytes, tail: bytes)
    requires !HasCrlf(text)
    ensures var s := Line(tag, text) + tail;
            && s[0] == tag && FirstCrlf(s[1..]) == Some(|text|)
            && s[1..1 + |text|] == text && s[|text| + 3..] == tail && |Line(tag, text)| == |text| + 3
  {
    var s := Line(tag, text) + tail;
    assert s[1..] == text + CRLF + tail;
    FirstCrlfAfter(text, tail);
  }

  lemma SignedReads(i: int)
    ensures ReadSigned(Signed(i)) == Some(i) && !HasCrlf(Signed(i))
    ensures ReadSigned(MINUS_ONE) == Some(-1) && !HasCrlf(MINUS_ONE)
  {
    ValueOfDigits(if i < 0 then -i else i);
    if i < 0 {
      assert Signed(i)[1..] == Digits(-i);
    }
    ValueOfDigits(1);
    assert MINUS_ONE[1..] == Digits(1);
  }

  lemma LineRoundTrip(v: Value, tail: bytes)
    requires Clean(v) && !v.Array? && !v.BulkString?
    ensures Decode(Encode(v) + tail) == Got(ToReply(v), |Encode(v)|)
  {
    hide FirstCrlf, ReadSigned, HasCrlf, DecodeList;
    match v
    case Nil =>
      SignedReads(-1);
      LineReads(DOLLAR, MINUS_ONE, tail);
    case Int(i) =>
      SignedReads(i);
      LineReads(COLON, Signed(i), tail);
    case SimpleString(text) =>
      LineReads(PLUS, text, tail);
    case Okay =>
      FixedTextsClean();
      LineReads(PLUS, OK, tail);
    case Other(_) =>
      FixedTextsClean();
      LineReads(SIGN, UNSUPPORTED, tail);
  }

  lemma BulkReplyRoundTrip(data: bytes, tail: bytes)
    ensures var v := BulkString(data);
            Decode(Encode(v) + tail) == Got(ToReply(v), |Encode(v)|)
  {
    hide FirstCrlf, ReadSigned, HasCrlf, DecodeList, Digits;
    SignedReads(|data|);
    var head, rest := Line(DOLLAR, Digits(|data|)), data + CRLF + tail;
    LineReads(DOLLAR, Digits(|data|), rest);
    assert Encode(BulkString(data)) + tail == head + rest by {
      Associative(head, data + CRLF, tail);
    }
    assert rest[|data|..|data| + 2] == CRLF && rest[..|data|] == data;
  }

  lemma ArrayReplyRoundTrip(items: seq<Value>, tail: bytes)
    requires DecodeList(EncodeList(items) + tail, |items|) == Got(ToReplies(items), |EncodeList(items)|)
    ensures var v := Array(items);
            Decode(Encode(v) + tail) == Got(ToReply(v), |Encode(v)|)
  {
    hide FirstCrlf, ReadSigned, HasCrlf, DecodeList, EncodeList, ToReplies;
    SignedReads(|items|);
    LineReads(STAR, Digits(|items|), EncodeList(items) + tail);
    assert Encode(Array(items)) + tail == Line(STAR, Digits(|items|)) + (EncodeList(items) + tail);
  }

  /** Reading a printed value followed by anything returns the value and stops exactly at its end. */
  lemma {:induction false} ReplyRoundTrip(v: Value, tail: bytes)
    requires Clean(v)
    ensures Decode(Encode(v) + tail) == Got(ToReply(v), |Encode(v)|)
    decreases v, 0
  {
    hide Decode, Encode, ToReply;
    match v
    case Array(items) =>
      RepliesRoundTrip(items, tail);
      ArrayReplyRoundTrip(items, tail);
    case BulkString(data) => BulkReplyRoundTrip(data, tail);
    case _ => LineRoundTrip(v, tail);
  }

  lemma FixedTextsClean()
    ensures !HasCrlf(OK) && !HasCrlf(UNSUPPORTED)
  {
    assert forall k :: 0 <= k < |UNSUPPORTED| ==> UNSUPPORTED[k] >= 32;
  }

  lemma {:induction false} RepliesRoundTrip(vs: seq<Value>, tail: bytes)
    requires forall i :: 0 <= i < |vs| ==> Clean(vs[i])
    ensures DecodeList(EncodeList(vs) + tail, |vs|) == Got(ToReplies(vs), |EncodeList(vs)|)
    decreases vs, 1
  {
    hide Decode, Encode;
    if vs != [] {
      var s, first := EncodeList(vs) + tail, Encode(vs[0]);
      assert s == first + (EncodeList(vs[1..]) + tail);
      ReplyRoundTrip(vs[0], EncodeList(vs[1..]) + tail);
      assert s[|first|..] == EncodeList(vs[1..]) + tail;
      RepliesRoundTrip(vs[1..], tail);
    }
  }

  /** `Okay` is the simple string "OK", and unsupported variants are all alike. */
  function Normal(v: Value): (r: Value)
    decreases v, 0
  {
    match v
    case Okay => SimpleString(OK)
    case Other(_) => Other(0)
    case Array(items) => Array(NormalList(items))
    case _ => v
  }

  function NormalList(vs: seq<Value>): (r: seq<Value>)
    decreases vs, 1
  {
    if vs == [] then [] else [Normal(vs[0])] + NormalList(vs[1..])
  }

  lemma {:induction false} SameReplySameValue(v: Value, w: Value)
    ensures ToReply(v) == ToReply(w) <==> Normal(v) == Normal(w)
    decreases v, 0
  {
    if v.Array? && w.Array? {
      SameRepliesSameValues(v.items, w.items);
    }
  }

  lemma {:induction false} SameRepliesSameValues(vs: seq<Value>, ws: seq<Value>)
    ensures ToReplies(vs) == ToReplies(ws) <==> NormalList(vs) == NormalList(ws)
    decreases vs, 1
  {
    if vs != [] && ws != [] {
      SameReplySameValue(vs[0], ws[0]);
      SameRepliesSameValues(vs[1..], ws[1..]);
      var a, b := ToReplies(vs), ToReplies(ws);
      assert a == b <==> a[0] == b[0] && a[1..] == b[1..];
      var c, d := NormalList(vs), NormalList(ws);
      assert c == d <==> c[0] == d[0] && c[1..] == d[1..];
    }
  }

  /**
   Two reply streams that start with printed values are equal exactly when the values agree (up to
   `Normal`) and so do the remainders: no reply can be mistaken for another or run into its successor.
   */
  lemma UniquelyDecodable(v: Value, w: Value, s: bytes, t: bytes)
    requires Clean(v) && Clean(w)
    ensures Encode(v) + s == Encode(w) + t <==> Normal(v) == Normal(w) && s == t
  {
    hide Decode, Encode, Normal, ToReply;
    SameReplySameValue(v, w);
    ReplyRoundTrip(v, s);
    ReplyRoundTrip(w, t);
    if Encode(v) + s == Encode(w) + t {
      assert s == (Encode(v) + s)[|Encode(v)|..] == t;
    }
    if Normal(v) == Normal(w) {
      SamePrint(v, w);
    }
  }

  lemma {:induction false} SamePrint(v: Value, w: Value)
    requires Normal(v) == Normal(w)
    ensures Encode(v) == Encode(w)
    decreases v, 0
  {
    if v.Array? && w.Array? {
      SamePrints(v.items, w.items);
    }
  }

  lemma {:induction false} SamePrints(vs: seq<Value>, ws: seq<Value>)
    requires NormalList(vs) == NormalList(ws)
    ensures EncodeList(vs) == EncodeList(ws) && |vs| == |ws|
    decreases vs, 1
  {
    if vs != [] {
      assert NormalList(ws) != [];
      assert Normal(vs[0]) == NormalList(vs)[0] == Normal(ws[0]);
      assert NormalList(vs[1..]) == NormalList(vs)[1..] == NormalList(ws[1..]);
      SamePrint(vs[0], ws[0]);
      SamePrints(vs[1..], ws[1..]);
    }
  }

  /**
   For a simple string the side condition is exact: its end is recognisable among clean replies if
   and only if it holds no CRLF, since the text before a CRLF is itself a complete reply.
   */
  lemma SimpleStringDelimited(text: bytes)
    ensures (forall w: Value, s: bytes, t: bytes ::
               Clean(w) && Encode(SimpleString(text)) + s == Encode(w) + t ==> s == t)
       <==> !HasCrlf(text)
  {
    hide Encode, HasCrlf;
    var v := SimpleString(text);
    if HasCrlf(text) {
      var k := LeastCrlf(text);
      var w, rest := SimpleString(text[..k]), text[k + 2..] + CRLF;
      BreaksAtCrlf(text, k);
      assert Encode(v) + [] == Encode(v);
      assert rest != [] && Clean(w) && Encode(v) + [] == Encode(w) + rest;
    } else {
      forall w: Value, s: bytes, t: bytes | Clean(w) && Encode(v) + s == Encode(w) + t
        ensures s == t
      {
        UniquelyDecodable(v, w, s, t);
      }
    }
  }

  lemma {:induction false} LeastCrlf(text: bytes) returns (k: nat)
    requires HasCrlf(text)
    ensures k < |text| - 1 && text[k] == CR && text[k + 1] == LF && !HasCrlf(text[..k])
  {
    k :| k < |text| - 1 && text[k] == CR && text[k + 1] == LF;
    if HasCrlf(text[..k]) {
      var j := LeastCrlf(text[..k]);
      assert text[..k][..j] == text[..j];
      k := j;
    }
  }

  lemma BreaksAtCrlf(text: bytes, k: nat)
    requires k < |text| - 1 && text[k] == CR && text[k + 1] == LF
    ensures Encode(SimpleString(text)) == Encode(SimpleString(text[..k])) + (text[k + 2..] + CRLF)
  {
    assert text == text[..k] + CRLF + text[k + 2..];
  }

  /** The octets of every kind of value, tag by tag. */
  lemma EncodeOctets(i: int, data: bytes, items: seq<Value>)
    ensures Encode(Int(i)) == [58] + (if i < 0 then [45] + Digits(-i) else Digits(i)) + [13, 10]
    ensures Encode(BulkString(data)) == ([36] + Digits(|data|) + [13, 10]) + (data + [13, 10])
    ensures Encode(Array(items)) == ([42] + Digits(|items|) + [13, 10]) + EncodeList(items)
    ensures Encode(SimpleString(data)) == [43] + data + [13, 10]
  {
    hide Digits, EncodeList;
  }

  lemma FixedOctets(variant: nat)
    ensures Encode(Nil) == [36, 45, 49, 13, 10]
    ensures Encode(Okay) == [43, 79, 75, 13, 10]
    ensures Encode(Other(variant)) == [45] + Ascii("ERR Unsupported RESP3 type") + [13, 10]
  {
    assert OK == [79, 75];
  }

  // ---------------------------------------------------------------------------------------
  // Commands are values too
  // ---------------------------------------------------------------------------------------

  function Bulks(args: Args): (r: seq<Value>)
  {
    if args == [] then [] else [BulkString(args[0])] + Bulks(args[1..])
  }

  /** The command printer is `value_to_resp` on an array of bulk strings. */
  lemma {:induction false} CommandIsValue(args: Args)
    ensures |Bulks(args)| == |args| && EncodeList(Bulks(args)) == EncodeBulks(args)
    ensures Encode(Array(Bulks(args))) == EncodeFrame(args)
  {
    if args != [] {
      CommandIsValue(args[1..]);
      assert Bulks(args)[1..] == Bulks(args[1..]);
      assert Encode(BulkString(args[0])) == EncodeBulk(args[0]);
    }
  }
}
