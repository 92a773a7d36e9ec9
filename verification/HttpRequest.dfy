/** The URL command parser, crates/redis-web-core/src/request.rs:32-149. */
module HttpRequest {
  import opened Bytes
  import opened Decimal
  import Utf8

  const SLASH: byte := 47
  const DOT: byte := 46
  const PERCENT: byte := 37

  // ---------------------------------------------------------------------------------------
  // Suffixes
  // ---------------------------------------------------------------------------------------

  datatype OutputFormat = Json | Raw | Text

  const JSON_EXT: bytes := Ascii("json")
  const RAW_EXT: bytes := Ascii("raw")
  const TXT_EXT: bytes := Ascii("txt")
  const HTML_EXT: bytes := Ascii("html")
  const XHTML_EXT: bytes := Ascii("xhtml")
  const XML_EXT: bytes := Ascii("xml")
  const PNG_EXT: bytes := Ascii("png")
  const JPG_EXT: bytes := Ascii("jpg")
  const JPEG_EXT: bytes := Ascii("jpeg")

  /** The media types a suffix selects. */
  const APPLICATION_JSON: bytes := Ascii("application/json")
  const TEXT_PLAIN: bytes := Ascii("text/plain")
  const TEXT_HTML: bytes := Ascii("text/html")
  const APPLICATION_XHTML: bytes := Ascii("application/xhtml+xml")
  const TEXT_XML: bytes := Ascii("text/xml")
  const IMAGE_PNG: bytes := Ascii("image/png")
  const IMAGE_JPEG: bytes := Ascii("image/jpeg")

  /** `OutputFormat::from_extension` together with `content_type_for_extension`: both know the same suffixes. */
  function Suffix(ext: bytes): (r: Option<(OutputFormat, bytes)>)
  {
    if ext == JSON_EXT then Some((Json, APPLICATION_JSON))
    else if ext == RAW_EXT then Some((Raw, TEXT_PLAIN))
    else if ext == TXT_EXT then Some((Text, TEXT_PLAIN))
    else if ext == HTML_EXT then Some((Text, TEXT_HTML))
    else if ext == XHTML_EXT then Some((Text, APPLICATION_XHTML))
    else if ext == XML_EXT then Some((Text, TEXT_XML))
    else if ext == PNG_EXT then Some((Text, IMAGE_PNG))
    else if ext == JPG_EXT || ext == JPEG_EXT then Some((Text, IMAGE_JPEG))
    else None
  }

  /** A suffix as it may be written, in any ASCII case. */
  predicate KnownSuffix(ext: bytes) { Suffix(LowerAll(ext)).Some? }

  lemma KnownSuffixPlain(ext: bytes)
    requires KnownSuffix(ext)
    ensures DOT !in ext && SLASH !in ext
  {
    assert forall i :: 0 <= i < |ext| ==> LowerAll(ext)[i] >= 97;
    assert forall i :: 0 <= i < |ext| ==> ext[i] != DOT && ext[i] != SLASH;
  }

  // ---------------------------------------------------------------------------------------
  // Percent-encoding, section 2.1 of RFC 3986
  // ---------------------------------------------------------------------------------------

  function HexValue(b: byte): (r: Option<nat>)
    ensures r.Some? ==> r.value < 16
  {
    if 48 <= b <= 57 then Some(b as int - 48)
    else if 65 <= b <= 70 then Some(b as int - 55)
    else if 97 <= b <= 102 then Some(b as int - 87)
    else None
  }

  function HexDigit(n: nat, lower: bool): (r: byte)
    requires n < 16
    ensures HexValue(r) == Some(n)
    ensures r != PERCENT && r != SLASH
  {
    if n < 10 then (48 + n) as byte else if lower then (87 + n) as byte else (55 + n) as byte
  }

  predicate Escaped(s: bytes)
  {
    |s| > 2 && s[0] == PERCENT && HexValue(s[1]).Some? && HexValue(s[2]).Some?
  }

  /** Well-formed escapes become octets; everything else, stray percent signs included, stays. */
  function PercentDecode(s: bytes): (r: bytes)
  {
    if s == [] then []
    else if Escaped(s) then
      [(HexValue(s[1]).value * 16 + HexValue(s[2]).value) as byte] + PercentDecode(s[3..])
    else [s[0]] + PercentDecode(s[1..])
  }

  /** The decoding loop: an index that moves by one or three, and a growing output. */
  method DecodeSegment(input: bytes) returns (output: bytes)
    ensures output == Utf8.Lossy(PercentDecode(input))
  {
    hide Utf8.Lossy;
    var index, out := 0, [];
    while index < |input|
      invariant index <= |input|
      invariant out + PercentDecode(input[index..]) == PercentDecode(input)
    {
      ghost var rest := input[index..];
      if input[index] == PERCENT && index + 2 < |input| {
        var hi, lo := HexValue(input[index + 1]), HexValue(input[index + 2]);
        if hi.Some? && lo.Some? {
          var b := (hi.value * 16 + lo.value) as byte;
          assert Escaped(rest) && rest[3..] == input[index + 3..];
          Associative(out, [b], PercentDecode(rest[3..]));
          out := out + [b];
          index := index + 3;
          continue;
        }
      }
      assert !Escaped(rest) && rest[1..] == input[index + 1..];
      Associative(out, [input[index]], PercentDecode(rest[1..]));
      out := out + [input[index]];
      index := index + 1;
    }
    assert out + [] == out;
    output := Utf8.Lossy(out);
  }

  /** Text without a well-formed escape is left alone, stray percent signs included. */
  lemma {:induction false} NothingToDecode(s: bytes)
    requires forall i :: 0 <= i < |s| ==> !Escaped(s[i..])
    ensures PercentDecode(s) == s
  {
    if s != [] {
      assert s[0..] == s;
      assert forall i :: 0 <= i < |s[1..]| ==> s[1..][i..] == s[i + 1..];
      NothingToDecode(s[1..]);
    }
  }

  /** A client's encoder: octets in `keep` go as they are, all others as `%XY`, in either hex case. */
  datatype Encoder = Encoder(keep: byte -> bool, lower: bool)

  function PercentEncode(s: bytes, enc: Encoder): (r: bytes)
  {
    if s == [] then [] else EncodeOne(s[0], enc) + PercentEncode(s[1..], enc)
  }

  function EncodeOne(b: byte, enc: Encoder): (r: bytes)
  {
    if enc.keep(b) then [b]
    else [PERCENT, HexDigit(b as int / 16, enc.lower), HexDigit(b as int % 16, enc.lower)]
  }

  /** The encoder never leaves a percent sign or a slash as it is. */
  predicate Careful(enc: Encoder) { !enc.keep(PERCENT) && !enc.keep(SLASH) }

  lemma {:induction false} DecodeUndoesEncode(s: bytes, enc: Encoder)
    requires Careful(enc)
    ensures PercentDecode(PercentEncode(s, enc)) == s
    ensures SLASH !in PercentEncode(s, enc)
  {
    if s != [] {
      var rest, one := PercentEncode(s[1..], enc), EncodeOne(s[0], enc);
      var e := one + rest;
      DecodeUndoesEncode(s[1..], enc);
      assert e[|one|..] == rest;
      if !enc.keep(s[0]) {
        assert Escaped(e);
      } else {
        assert !Escaped(e);
      }
      assert s == [s[0]] + s[1..];
    }
  }

  // ---------------------------------------------------------------------------------------
  // Segments
  // ---------------------------------------------------------------------------------------

  /** `split('/')`. */
  function Split(s: bytes): (r: seq<bytes>)
    ensures |r| >= 1
  {
    if s == [] then [[]]
    else
      var r := Split(s[1..]);
      if s[0] == SLASH then [[]] + r else [[s[0]] + r[0]] + r[1..]
  }

  function Join(segments: seq<bytes>): (r: bytes)
    requires segments != []
  {
    if |segments| == 1 then segments[0] else segments[0] + [SLASH] + Join(segments[1..])
  }

  lemma {:induction false} SplitFirst(first: bytes, rest: bytes)
    requires SLASH !in first
    ensures Split(first + [SLASH] + rest) == [first] + Split(rest)
    ensures Split(first) == [first]
  {
    if first == [] {
      assert first + [SLASH] + rest == [SLASH] + rest;
      assert ([SLASH] + rest)[1..] == rest;
    } else {
      var s := first + [SLASH] + rest;
      assert s[1..] == first[1..] + [SLASH] + rest && s[0] == first[0];
      SplitFirst(first[1..], rest);
      assert first == [first[0]] + first[1..];
      assert ([first[1..]] + Split(rest))[1..] == Split(rest);
    }
  }

  lemma {:induction false} SplitUndoesJoin(segments: seq<bytes>)
    requires segments != [] && forall i :: 0 <= i < |segments| ==> SLASH !in segments[i]
    ensures Split(Join(segments)) == segments
  {
    if |segments| == 1 {
      SplitFirst(segments[0], []);
    } else {
      SplitUndoesJoin(segments[1..]);
      SplitFirst(segments[0], Join(segments[1..]));
    }
  }

  /** `rfind('.')`. */
  function LastDot(s: bytes): (r: Option<nat>)
    ensures r.Some? ==> r.value < |s| && s[r.value] == DOT && DOT !in s[r.value + 1..]
    ensures r.None? ==> DOT !in s
  {
    if s == [] then None
    else if s[|s| - 1] == DOT then Some(|s| - 1)
    else
      var r := LastDot(s[..|s| - 1]);
      if r.Some? then
        assert s[r.value + 1..] == s[..|s| - 1][r.value + 1..] + [s[|s| - 1]];
        r
      else r
  }

  /** The last segment loses a known suffix, which is remembered in lower case. */
  function Strip(segment: bytes): (r: (bytes, Option<bytes>))
  {
    var dot := LastDot(segment);
    if dot.Some? && KnownSuffix(segment[dot.value + 1..]) then
      (segment[..dot.value], Some(LowerAll(segment[dot.value + 1..])))
    else (segment, None)
  }

  /** Some dot is followed by a known suffix and nothing else. */
  predicate EndsInSuffix(segment: bytes)
  {
    exists i :: 0 <= i < |segment| && segment[i] == DOT && KnownSuffix(segment[i + 1..])
  }

  lemma StripExact(segment: bytes)
    ensures Strip(segment).1.Some? <==> EndsInSuffix(segment)
    ensures Strip(segment).1.Some? ==> Suffix(Strip(segment).1.value).Some?
    ensures Strip(segment).1.None? ==> Strip(segment).0 == segment
  {
    hide Suffix, LastDot, KnownSuffix;
    var dot := LastDot(segment);
    if EndsInSuffix(segment) {
      var i :| 0 <= i < |segment| && segment[i] == DOT && KnownSuffix(segment[i + 1..]);
      var front, ext := segment[..i], segment[i + 1..];
      assert segment == front + [DOT] + ext;
      StripSuffixed(front, ext);
      KnownMeansListed(ext);
    } else if dot.Some? {
      assert !KnownSuffix(segment[dot.value + 1..]);
    }
  }

  lemma KnownMeansListed(ext: bytes)
    requires KnownSuffix(ext)
    ensures Suffix(LowerAll(ext)).Some?
  {
    hide Suffix;
  }

  lemma {:induction false} LastDotOf(front: bytes, ext: bytes)
    requires DOT !in ext
    ensures LastDot(front + [DOT] + ext) == Some(|front|)
    decreases |ext|
  {
    var s := front + [DOT] + ext;
    if ext == [] {
      assert s[|s| - 1] == DOT;
    } else {
      assert s[..|s| - 1] == front + [DOT] + ext[..|ext| - 1];
      LastDotOf(front, ext[..|ext| - 1]);
    }
  }

  lemma StripSuffixed(segment: bytes, ext: bytes)
    requires KnownSuffix(ext)
    ensures Strip(segment + [DOT] + ext) == (segment, Some(LowerAll(ext)))
  {
    hide KnownSuffix, LastDot;
    var s := segment + [DOT] + ext;
    KnownSuffixPlain(ext);
    LastDotOf(segment, ext);
    assert s[|segment| + 1..] == ext && s[..|segment|] == segment;
  }

  // ---------------------------------------------------------------------------------------
  // The parser
  // ---------------------------------------------------------------------------------------

  datatype Error = InvalidDatabaseIndex | MissingCommandAfterDatabasePrefix

  /** What comes with the path: the server's default database, the body, the query and a setting. */
  datatype Input = Input(defaultDatabase: nat, body: Option<bytes>, params: map<bytes, bytes>, etagEnabled: bool)

  datatype Request = Request(
    database: nat,
    name: bytes,
    args: seq<bytes>,
    format: OutputFormat,
    jsonpCallback: Option<bytes>,
    typeOverride: Option<bytes>,
    contentType: Option<bytes>,
    etagEnabled: bool)

  const JSONP: bytes := Ascii("jsonp")
  const CALLBACK: bytes := Ascii("callback")
  const TYPE: bytes := Ascii("type")

  /** A query parameter that is there and not empty. */
  function Given(params: map<bytes, bytes>, key: bytes): (r: Option<bytes>)
  {
    if key in params && params[key] != [] then Some(params[key]) else None
  }

  /** `select_jsonp_callback`. */
  function SelectCallback(params: map<bytes, bytes>): (r: Option<bytes>)
  {
    if Given(params, JSONP).Some? then Given(params, JSONP) else Given(params, CALLBACK)
  }

  /** The finished request: the suffix picks format and media type, the query the rest. */
  function Compose(database: nat, name: bytes, args: seq<bytes>, ext: Option<bytes>, input: Input): (r: Request)
  {
    var chosen := if ext.Some? then Suffix(ext.value) else None;
    var format := if chosen.Some? then chosen.value.0 else Json;
    Request(database, name, WithBody(args, input.body), format,
      if format == Json then SelectCallback(input.params) else None,
      Given(input.params, TYPE),
      if chosen.Some? then Some(chosen.value.1) else None,
      input.etagEnabled)
  }

  datatype Result = Ok(request: Request) | Err(error: Error)

  predicate IsDecimal(segment: bytes) { segment != [] && AllDigits(segment) }

  function DecodeAll(segments: seq<bytes>): (r: seq<bytes>)
    ensures |r| == |segments|
    ensures forall i :: 0 <= i < |segments| ==> r[i] == Utf8.Lossy(PercentDecode(segments[i]))
  {
    seq(|segments|, i requires 0 <= i < |segments| => Utf8.Lossy(PercentDecode(segments[i])))
  }

  function WithBody(args: seq<bytes>, body: Option<bytes>): (r: seq<bytes>)
  {
    if body.Some? && body.value != [] then args + [body.value] else args
  }

  /** Command and arguments from the segments after the database prefix. */
  function Interpret(database: nat, segments: seq<bytes>, input: Input): (r: Request)
    requires segments != []
  {
    var n := |segments| - 1;
    var (last, ext) := Strip(segments[n]);
    var decoded := DecodeAll(segments[..n] + [last]);
    Compose(database, decoded[0], decoded[1..], ext, input)
  }

  function Parse(path: bytes, input: Input): (r: Result)
  {
    ParseParts(Split(path), input)
  }

  function ParseParts(parts: seq<bytes>, input: Input): (r: Result)
    requires parts != []
  {
    if IsDecimal(parts[0]) then
      if Value(parts[0]) > 255 then Err(InvalidDatabaseIndex)
      else if |parts| < 2 || parts[1] == [] then Err(MissingCommandAfterDatabasePrefix)
      else Ok(Interpret(Value(parts[0]), parts[1..], input))
    else Ok(Interpret(input.defaultDatabase, parts, input))
  }

  /** The end of the parser: body, format, callback and media types. */
  method Assemble(database: nat, name: bytes, args: seq<bytes>, extension: Option<bytes>, input: Input) returns (r: Request)
    ensures r == Compose(database, name, args, extension, input)
  {
    var all := args;
    if input.body.Some? && input.body.value != [] {
      all := all + [input.body.value];
    }
    var format, contentType := Json, None;
    if extension.Some? {
      var chosen := Suffix(extension.value);
      if chosen.Some? {
        format, contentType := chosen.value.0, Some(chosen.value.1);
      }
    }
    var callback := None;
    if format == Json {
      callback := SelectCallback(input.params);
    }
    r := Request(database, name, all, format, callback, Given(input.params, TYPE), contentType, input.etagEnabled);
  }

  method DecodeArgs(rawArgs: seq<bytes>) returns (args: seq<bytes>)
    ensures args == DecodeAll(rawArgs)
  {
    hide Utf8.Lossy, PercentDecode;
    args := [];
    var i := 0;
    while i < |rawArgs|
      invariant i <= |rawArgs| && args == DecodeAll(rawArgs[..i])
    {
      var arg := DecodeSegment(rawArgs[i]);
      args := args + [arg];
      assert rawArgs[..i + 1] == rawArgs[..i] + [rawArgs[i]];
      i := i + 1;
    }
    assert rawArgs[..i] == rawArgs;
  }

  /** `parse_http_request`: the raw name and arguments are truncated in place, then decoded one by one. */
  method ParseHttpRequest(path: bytes, input: Input) returns (r: Result)
    ensures r == Parse(path, input)
  {
    hide Utf8.Lossy, PercentDecode, Split, Strip, Suffix, LastDot, Value, Compose;
    var parts := Split(path);
    var database, start := input.defaultDatabase, 0;
    if IsDecimal(parts[0]) {
      if Value(parts[0]) > 255 {
        return Err(InvalidDatabaseIndex);
      }
      database := Value(parts[0]);
      if |parts| < 2 || parts[1] == [] {
        return Err(MissingCommandAfterDatabasePrefix);
      }
      start := 1;
    }
    var rawName, rawArgs := parts[start], parts[start + 1..];
    var extension: Option<bytes> := None;
    if rawArgs != [] {
      var n := |rawArgs| - 1;
      var (stripped, ext) := Strip(rawArgs[n]);
      extension := ext;
      rawArgs := rawArgs[..n] + [stripped];
    } else {
      var (stripped, ext) := Strip(rawName);
      extension := ext;
      rawName := stripped;
    }
    ghost var segments := parts[start..];
    ghost var last := |segments| - 1;
    assert segments[last] == if |segments| == 1 then parts[start] else parts[start + 1..][last - 1];
    ghost var trimmed := segments[..last] + [Strip(segments[last]).0];
    assert trimmed == [rawName] + rawArgs;
    assert extension == Strip(segments[last]).1;
    var name := DecodeSegment(rawName);
    var args := DecodeArgs(rawArgs);
    assert DecodeAll(trimmed)[0] == name && DecodeAll(trimmed)[1..] == args;
    assert parts[0..] == parts;
    var request := Assemble(database, name, args, extension, input);
    r := Ok(request);
  }

  // ---------------------------------------------------------------------------------------
  // Round trip
  // ---------------------------------------------------------------------------------------

  /** What a client wants to send. */
  datatype Wish = Wish(database: Option<nat>, name: bytes, args: seq<bytes>, suffix: Option<bytes>)

  function EncodeAll(parts: seq<bytes>, enc: Encoder): (r: seq<bytes>)
    ensures |r| == |parts|
    ensures forall i :: 0 <= i < |parts| ==> r[i] == PercentEncode(parts[i], enc)
  {
    seq(|parts|, i requires 0 <= i < |parts| => PercentEncode(parts[i], enc))
  }

  /** Name and arguments, each encoded, the suffix on the last. */
  function CommandSegments(w: Wish, enc: Encoder): (r: seq<bytes>)
    ensures |r| == 1 + |w.args|
  {
    var encoded := EncodeAll([w.name] + w.args, enc);
    var n := |w.args|;
    if w.suffix.Some? then encoded[..n] + [encoded[n] + [DOT] + w.suffix.value] else encoded
  }

  function Segments(w: Wish, enc: Encoder): (r: seq<bytes>)
    ensures r != []
  {
    (if w.database.Some? then [Digits(w.database.value)] else []) + CommandSegments(w, enc)
  }

  /** The request the parser should understand; text that is not UTF-8 is replaced, as always. */
  function Expected(w: Wish, input: Input): (r: Request)
  {
    Compose(
      if w.database.Some? then w.database.value else input.defaultDatabase,
      Utf8.Lossy(w.name),
      seq(|w.args|, i requires 0 <= i < |w.args| => Utf8.Lossy(w.args[i])),
      if w.suffix.Some? then Some(LowerAll(w.suffix.value)) else None,
      input)
  }

  /**
   The first segment cannot be taken for a database, a database is followed by something, and the
   last segment does not look as if it had a suffix when it has none.
   */
  predicate Unmistakable(w: Wish, enc: Encoder)
  {
    var s := CommandSegments(w, enc);
    && (if w.database.Some? then s[0] != [] else !IsDecimal(s[0]))
    && (w.suffix.None? ==> !EndsInSuffix(s[|w.args|]))
  }

  lemma SegmentsHaveNoSlash(w: Wish, enc: Encoder)
    requires Careful(enc) && (w.suffix.Some? ==> KnownSuffix(w.suffix.value))
    ensures forall i :: 0 <= i < |Segments(w, enc)| ==> SLASH !in Segments(w, enc)[i]
  {
    hide PercentEncode, KnownSuffix;
    var parts := [w.name] + w.args;
    forall i | 0 <= i < |parts|
      ensures SLASH !in PercentEncode(parts[i], enc)
    {
      DecodeUndoesEncode(parts[i], enc);
    }
    if w.suffix.Some? {
      KnownSuffixPlain(w.suffix.value);
    }
    if w.database.Some? {
      assert forall i :: 0 <= i < |Digits(w.database.value)| ==> Digits(w.database.value)[i] >= 48;
    }
    var s := CommandSegments(w, enc);
    forall i | 0 <= i < |s|
      ensures SLASH !in s[i]
    {}
  }

  lemma InterpretSegments(w: Wish, enc: Encoder, input: Input)
    requires Careful(enc) && (w.suffix.Some? ==> KnownSuffix(w.suffix.value))
    ensures var database := if w.database.Some? then w.database.value else input.defaultDatabase;
            Interpret(database, CommandSegments(w, enc), input) == Expected(w, input)
            <==> (w.suffix.None? ==> !EndsInSuffix(CommandSegments(w, enc)[|w.args|]))
  {
    hide PercentEncode, PercentDecode, KnownSuffix, Strip, LastDot, Suffix, Utf8.Lossy, EndsInSuffix, WithBody, SelectCallback, Given;
    var parts, s, n := [w.name] + w.args, CommandSegments(w, enc), |w.args|;
    var encoded := EncodeAll(parts, enc);
    forall i | 0 <= i < |parts|
      ensures PercentDecode(encoded[i]) == parts[i]
    {
      DecodeUndoesEncode(parts[i], enc);
    }
    StripExact(s[n]);
    if w.suffix.Some? {
      StripSuffixed(encoded[n], w.suffix.value);
    }
    if w.suffix.Some? || !EndsInSuffix(s[n]) {
      assert s[..n] + [Strip(s[n]).0] == encoded;
      var wanted := seq(|w.args|, i requires 0 <= i < |w.args| => Utf8.Lossy(w.args[i]));
      assert DecodeAll(encoded)[1..] == wanted by {
        forall i | 0 <= i < |w.args|
          ensures DecodeAll(encoded)[i + 1] == wanted[i]
        {
          assert parts[i + 1] == w.args[i];
        }
      }
    }
  }

  /**
   Parsing the path built from any command, arguments, optional database and known suffix gives
   that request back, with a non-empty body as the last argument and what the query asks for, if
   and only if the segments are unmistakable.
   */
  lemma UrlRoundTrip(w: Wish, enc: Encoder, input: Input)
    requires Careful(enc)
    requires w.database.Some? ==> w.database.value <= 255
    requires w.suffix.Some? ==> KnownSuffix(w.suffix.value)
    ensures Parse(Join(Segments(w, enc)), input) == Ok(Expected(w, input)) <==> Unmistakable(w, enc)
  {
    hide KnownSuffix, Split, Join, EndsInSuffix, Interpret, Expected, CommandSegments, Value, Digits;
    var segments, s := Segments(w, enc), CommandSegments(w, enc);
    SegmentsHaveNoSlash(w, enc);
    SplitUndoesJoin(segments);
    InterpretSegments(w, enc, input);
    if w.database.Some? {
      assert segments[0] == Digits(w.database.value) && segments[1] == s[0] && segments[1..] == s;
      ValueOfDigits(w.database.value);
    } else {
      assert segments == s;
      if IsDecimal(s[0]) && |s| >= 2 {
        TakenForDatabase(w, s, Value(s[0]), input);
      }
    }
  }

  /** A command taken for a database leaves one argument too few. */
  lemma TakenForDatabase(w: Wish, s: seq<bytes>, database: nat, input: Input)
    requires |s| == 1 + |w.args| >= 2
    ensures Interpret(database, s[1..], input) != Expected(w, input)
  {
    hide PercentDecode, KnownSuffix, Strip, Suffix, Utf8.Lossy;
    assert |Interpret(database, s[1..], input).args| < |Expected(w, input).args|;
  }

  /** The encoder that leaves nothing as it is. */
  function EscapeAll(lower: bool): (enc: Encoder) { Encoder(b => false, lower) }

  lemma {:induction false} EscapedPlain(s: bytes, lower: bool)
    ensures DOT !in PercentEncode(s, EscapeAll(lower))
    ensures s == [] <==> PercentEncode(s, EscapeAll(lower)) == []
    ensures s != [] ==> PercentEncode(s, EscapeAll(lower))[0] == PERCENT
  {
    if s != [] {
      EscapedPlain(s[1..], lower);
    }
  }

  /**
   Escaping every octet, the round trip fails only where it must: with a database and then an
   empty segment, which the parser takes for a missing command.
   */
  lemma EscapedRoundTrip(w: Wish, lower: bool, input: Input)
    requires w.database.Some? ==> w.database.value <= 255
    requires w.suffix.Some? ==> KnownSuffix(w.suffix.value)
    ensures Parse(Join(Segments(w, EscapeAll(lower))), input) == Ok(Expected(w, input))
       <==> (w.name == [] && w.database.Some? ==> w.args == [] && w.suffix.Some?)
  {
    hide KnownSuffix, Split, Join, Expected, Parse, PercentEncode;
    var enc := EscapeAll(lower);
    UrlRoundTrip(w, enc, input);
    var parts, s, n := [w.name] + w.args, CommandSegments(w, enc), |w.args|;
    EscapedPlain(w.name, lower);
    EscapedPlain(parts[n], lower);
    var first := PercentEncode(w.name, enc);
    assert s[0] == if n == 0 && w.suffix.Some? then first + [DOT] + w.suffix.value else first;
    assert !IsDecimal(s[0]) by {
      assert s[0] != [] ==> s[0][0] == PERCENT || s[0][0] == DOT;
      assert s[0] != [] && AllDigits(s[0]) ==> IsDigit(s[0][0]);
    }
    if w.suffix.None? {
      assert s[n] == PercentEncode(parts[n], enc);
      assert !EndsInSuffix(s[n]);
    }
  }

  // ---------------------------------------------------------------------------------------
  // What a request says, spelled out
  // ---------------------------------------------------------------------------------------

  /** The nine suffixes, in lower case, with the format and the media type each selects. */
  predicate Selects(ext: bytes, format: OutputFormat, mime: bytes)
  {
    || (ext == Ascii("json") && format == Json && mime == Ascii("application/json"))
    || (ext == Ascii("raw") && format == Raw && mime == Ascii("text/plain"))
    || (ext == Ascii("txt") && format == Text && mime == Ascii("text/plain"))
    || (ext == Ascii("html") && format == Text && mime == Ascii("text/html"))
    || (ext == Ascii("xhtml") && format == Text && mime == Ascii("application/xhtml+xml"))
    || (ext == Ascii("xml") && format == Text && mime == Ascii("text/xml"))
    || (ext == Ascii("png") && format == Text && mime == Ascii("image/png"))
    || (ext == Ascii("jpg") && format == Text && mime == Ascii("image/jpeg"))
    || (ext == Ascii("jpeg") && format == Text && mime == Ascii("image/jpeg"))
  }

  lemma SuffixExactly(ext: bytes, format: OutputFormat, mime: bytes)
    ensures Suffix(ext) == Some((format, mime)) <==> Selects(ext, format, mime)
  {
    assert |JSON_EXT| == 4 && |RAW_EXT| == 3 && |TXT_EXT| == 3 && |HTML_EXT| == 4 && |XHTML_EXT| == 5;
    assert |XML_EXT| == 3 && |PNG_EXT| == 3 && |JPG_EXT| == 3 && |JPEG_EXT| == 4;
    assert JSON_EXT[0] == 106 && RAW_EXT[0] == 114 && TXT_EXT[0] == 116 && HTML_EXT[0] == 104;
    assert XML_EXT[0] == 120 && PNG_EXT[0] == 112 && JPG_EXT[0] == 106 && JPEG_EXT[0] == 106 && JPEG_EXT[1] == 112;
    assert JSON_EXT[1] == 115;
  }

  /** Segments as the path shows them. */
  lemma {:induction false} FirstSegment(path: bytes)
    ensures SLASH !in Split(path)[0]
    ensures |Split(path)| == 1 ==> path == Split(path)[0]
    ensures |Split(path)| > 1 ==> exists rest :: path == Split(path)[0] + [SLASH] + rest && Split(path)[1..] == Split(rest)
  {
    if path != [] {
      FirstSegment(path[1..]);
      var r := Split(path[1..]);
      if path[0] == SLASH {
        assert path == [] + [SLASH] + path[1..];
        assert Split(path)[1..] == Split(path[1..]);
      } else if |r| > 1 {
        var rest :| path[1..] == r[0] + [SLASH] + rest && r[1..] == Split(rest);
        assert path == Split(path)[0] + [SLASH] + rest;
      }
    }
  }

  /** A database prefix: digits, then the end of the path or a slash. */
  ghost predicate Prefixed(path: bytes, ds: bytes)
  {
    && ds != [] && (forall i :: 0 <= i < |ds| ==> 48 <= ds[i] <= 57)
    && (path == ds || exists rest :: path == ds + Ascii("/") + rest)
  }

  lemma SlashText()
    ensures Ascii("/") == [SLASH]
  {}

  lemma PrefixedExactly(path: bytes, ds: bytes)
    ensures Prefixed(path, ds) <==> IsDecimal(ds) && Split(path)[0] == ds
  {
    SlashText();
    FirstSegment(path);
    if Prefixed(path, ds) {
      assert SLASH !in ds by { assert forall i :: 0 <= i < |ds| ==> ds[i] != SLASH; }
      if path == ds {
        SplitFirst(ds, []);
      } else {
        var rest :| path == ds + Ascii("/") + rest;
        SplitFirst(ds, rest);
      }
    }
    if IsDecimal(ds) && Split(path)[0] == ds && |Split(path)| > 1 {
      var rest :| path == Split(path)[0] + [SLASH] + rest && Split(path)[1..] == Split(rest);
      assert path == ds + Ascii("/") + rest;
    }
  }

  /** After the prefix nothing follows, or nothing up to the next slash. */
  ghost predicate NothingAfter(path: bytes, ds: bytes)
  {
    path == ds || path == ds + Ascii("/") || exists rest :: path == ds + Ascii("//") + rest
  }

  lemma NothingAfterExactly(path: bytes, ds: bytes)
    requires Prefixed(path, ds)
    ensures NothingAfter(path, ds) <==> |Split(path)| < 2 || Split(path)[1] == []
  {
    SlashText();
    PrefixedExactly(path, ds);
    assert SLASH !in ds by { assert forall i :: 0 <= i < |ds| ==> ds[i] != SLASH; }
    if path == ds {
      SplitFirst(ds, []);
    } else {
      var rest :| path == ds + Ascii("/") + rest;
      SplitFirst(ds, rest);
      assert path == ds + [SLASH] + rest;
      NothingAfterSlash(path, ds, rest);
      EmptyFirst(rest);
    }
  }

  lemma NothingAfterSlash(path: bytes, ds: bytes, rest: bytes)
    requires path == ds + [SLASH] + rest
    ensures NothingAfter(path, ds) <==> rest == [] || rest[0] == SLASH
  {
    assert Ascii("/") == [SLASH] && Ascii("//") == [SLASH, SLASH];
    assert |path| > |ds| && path[|ds| + 1..] == rest;
    if rest != [] && rest[0] == SLASH {
      assert path == ds + Ascii("//") + rest[1..];
    }
    if NothingAfter(path, ds) && path != ds + Ascii("/") {
      var more :| path == ds + Ascii("//") + more;
      assert path[|ds| + 1] == SLASH;
    }
  }

  lemma EmptyFirst(rest: bytes)
    ensures Split(rest)[0] == [] <==> rest == [] || rest[0] == SLASH
  {}

  /**
   The two errors: a prefix worth more than 255, and a smaller one with nothing after it.  Every
   other path is a request.
   */
  lemma ErrorsExactly(path: bytes, input: Input)
    ensures Parse(path, input) == Err(InvalidDatabaseIndex) <==> exists ds :: Prefixed(path, ds) && Value(ds) > 255
    ensures Parse(path, input) == Err(MissingCommandAfterDatabasePrefix)
       <==> exists ds :: Prefixed(path, ds) && Value(ds) <= 255 && NothingAfter(path, ds)
  {
    hide Split, Prefixed, NothingAfter, Value, Interpret, IsDecimal;
    var first := Split(path)[0];
    forall ds
      ensures Prefixed(path, ds) <==> IsDecimal(ds) && first == ds
    {
      PrefixedExactly(path, ds);
    }
    if IsDecimal(first) {
      NothingAfterExactly(path, first);
    }
  }

  /** A prefix of any length, leading zeros included, selects its value and is otherwise not seen. */
  lemma PrefixSelects(ds: bytes, path: bytes, input: Input)
    requires IsDecimal(ds) && Value(ds) <= 255
    requires path != [] && path[0] != SLASH && !IsDecimal(Split(path)[0])
    ensures Parse(ds + Ascii("/") + path, input) == Parse(path, input.(defaultDatabase := Value(ds)))
  {
    hide Value, Interpret;
    SlashText();
    assert SLASH !in ds by { assert forall i :: 0 <= i < |ds| ==> ds[i] != SLASH; }
    SplitFirst(ds, path);
    EmptyFirst(path);
    SameInterpretation(Value(ds), Split(path), input);
  }

  lemma SameInterpretation(database: nat, segments: seq<bytes>, input: Input)
    requires segments != []
    ensures Interpret(database, segments, input) == Interpret(database, segments, input.(defaultDatabase := database))
  {}

  /** On every path: a non-empty body is one more argument, the last, and changes nothing else. */
  lemma BodyLast(path: bytes, input: Input)
    ensures var (r, bare) := (Parse(path, input), Parse(path, input.(body := None)));
            && r.Ok? == bare.Ok? && (r.Err? ==> r == bare)
            && (r.Ok? ==>
                  && r.request.(args := bare.request.args) == bare.request
                  && r.request.args == bare.request.args
                     + (if input.body.Some? && input.body.value != [] then [input.body.value] else []))
  {
    hide Strip, Split, Value, Suffix, DecodeAll, SelectCallback, Given;
    var parts := Split(path);
    if IsDecimal(parts[0]) && Value(parts[0]) <= 255 && |parts| >= 2 && parts[1] != [] {
      BodyOfInterpretation(Value(parts[0]), parts[1..], input);
    }
    BodyOfInterpretation(input.defaultDatabase, parts, input);
  }

  lemma BodyOfInterpretation(database: nat, segments: seq<bytes>, input: Input)
    requires segments != []
    ensures var (r, bare) := (Interpret(database, segments, input), Interpret(database, segments, input.(body := None)));
            && r.(args := bare.args) == bare
            && r.args == bare.args + (if input.body.Some? && input.body.value != [] then [input.body.value] else [])
  {
    hide Strip, Suffix, DecodeAll, SelectCallback, Given;
  }

  /** On every path: JSONP by `jsonp` or else `callback`, only for JSON; `type`; and the setting. */
  lemma QueryFields(path: bytes, input: Input)
    requires Parse(path, input).Ok?
    ensures var r, params := Parse(path, input).request, input.params;
            var jsonp, callback, mime := Ascii("jsonp"), Ascii("callback"), Ascii("type");
            && r.etagEnabled == input.etagEnabled
            && r.typeOverride == (if mime in params && params[mime] != [] then Some(params[mime]) else None)
            && r.jsonpCallback ==
               (if r.format != Json then None
                else if jsonp in params && params[jsonp] != [] then Some(params[jsonp])
                else if callback in params && params[callback] != [] then Some(params[callback])
                else None)
  {
    hide Strip, Split, Value, Suffix, DecodeAll, WithBody;
  }

  /** The request that arrives for a wish whose segments are unmistakable, field by field. */
  lemma RequestArrives(w: Wish, enc: Encoder, input: Input)
    requires Careful(enc) && Unmistakable(w, enc)
    requires w.database.Some? ==> w.database.value <= 255
    requires w.suffix.Some? ==> KnownSuffix(w.suffix.value)
    ensures var p := Parse(Join(Segments(w, enc)), input);
            && p.Ok?
            && p.request.database == (if w.database.Some? then w.database.value else input.defaultDatabase)
            && p.request.name == Utf8.Lossy(w.name)
            && p.request.args == seq(|w.args|, i requires 0 <= i < |w.args| => Utf8.Lossy(w.args[i]))
                                 + (if input.body.Some? && input.body.value != [] then [input.body.value] else [])
            && (w.suffix.None? ==> p.request.format == Json && p.request.contentType == None)
            && (w.suffix.Some? ==>
                  && p.request.contentType.Some?
                  && Selects(LowerAll(w.suffix.value), p.request.format, p.request.contentType.value))
  {
    hide KnownSuffix, Split, Join, EndsInSuffix, Parse, Segments, Unmistakable, SelectCallback, Given, Utf8.Lossy, Suffix, Selects;
    UrlRoundTrip(w, enc, input);
    if w.suffix.Some? {
      KnownMeansListed(w.suffix.value);
      var chosen := Suffix(LowerAll(w.suffix.value)).value;
      SuffixExactly(LowerAll(w.suffix.value), chosen.0, chosen.1);
    }
  }

  /** The hexadecimal digits in either case, and no other octets. */
  lemma HexExactly(b: byte, n: nat)
    ensures HexValue(b) == Some(n) <==>
            n < 16 && (b == Ascii("0123456789abcdef")[n] || b == Ascii("0123456789ABCDEF")[n])
  {
    var lower, upper := Ascii("0123456789abcdef"), Ascii("0123456789ABCDEF");
    assert forall i :: 0 <= i < 10 ==> lower[i] as int == 48 + i && upper[i] as int == 48 + i;
    assert forall i :: 10 <= i < 16 ==> lower[i] as int == 87 + i && upper[i] as int == 55 + i;
  }

  predicate ValidText(w: Wish)
  {
    Utf8.Valid(w.name) && forall i :: 0 <= i < |w.args| ==> Utf8.Valid(w.args[i])
  }

  /** With well-formed UTF-8 the request is the wish itself; otherwise some text has been replaced. */
  lemma ExpectedVerbatim(w: Wish, input: Input)
    ensures var r := Expected(w, input);
            (r.name == w.name && r.args == WithBody(w.args, input.body)) <==> ValidText(w)
  {
    hide KnownSuffix, Suffix, Utf8.Lossy, Utf8.Valid;
    var r := Expected(w, input);
    Utf8.LossyExactlyValid(w.name);
    forall i | 0 <= i < |w.args|
      ensures r.args[i] == w.args[i] <==> Utf8.Valid(w.args[i])
    {
      Utf8.LossyExactlyValid(w.args[i]);
    }
    if ValidText(w) {
      assert r.args == WithBody(w.args, input.body);
    } else if r.name == w.name {
      var i :| 0 <= i < |w.args| && !Utf8.Valid(w.args[i]);
      assert WithBody(w.args, input.body)[i] == w.args[i] != r.args[i];
    }
  }
}
