/**
 UTF-8 as Rust's standard library reads it: the decoder step behind `str::from_utf8` and
 `String::from_utf8_lossy`, the code points of a valid text, and `str::trim`.
 */
module Utf8 {
  import opened Bytes

  /** One decoder step: a scalar value of `width` octets, or an ill-formed run of `width` octets. */
  datatype Step = Char(code: nat, width: nat) | Bad(width: nat)

  /** `safe_get`: zero beyond the end, which is never a continuation octet. */
  function At(s: bytes, i: nat): (b: int)
    ensures 0 <= b < 256
    ensures i < |s| ==> b == s[i] as int
    ensures i >= |s| ==> b == 0
  {
    if i < |s| then s[i] as int else 0
  }

  predicate Continuation(b: int) { 0x80 <= b <= 0xBF }

  /** Which second octets may follow the first octet of a three- or four-octet form. */
  predicate SecondAllowed(first: int, second: int)
    ensures SecondAllowed(first, second) ==> Continuation(second)
  {
    if first == 0xE0 then 0xA0 <= second <= 0xBF
    else if first == 0xED then 0x80 <= second <= 0x9F
    else if first == 0xF0 then 0x90 <= second <= 0xBF
    else if first == 0xF4 then 0x80 <= second <= 0x8F
    else Continuation(second)
  }

  /** Six more bits from a continuation octet. */
  function Horner(high: nat, b: int): (r: nat)
    requires Continuation(b)
    ensures r / 64 == high && 0x80 + r % 64 == b
  {
    high * 64 + (b - 0x80)
  }

  function FirstChar(s: bytes): (r: Step)
    requires s != []
    ensures 1 <= r.width <= |s|
    ensures s[0] < 128 ==> r == Char(s[0] as int, 1)
  {
    var a, b, c, d := At(s, 0), At(s, 1), At(s, 2), At(s, 3);
    if a < 128 then Char(a, 1)
    else if 0xC2 <= a <= 0xDF then
      if Continuation(b) then Char(Horner(a - 0xC0, b), 2) else Bad(1)
    else if 0xE0 <= a <= 0xEF then
      if !SecondAllowed(a, b) then Bad(1)
      else if !Continuation(c) then Bad(2)
      else Char(Horner(Horner(a - 0xE0, b), c), 3)
    else if 0xF0 <= a <= 0xF4 then
      if !SecondAllowed(a, b) then Bad(1)
      else if !Continuation(c) then Bad(2)
      else if !Continuation(d) then Bad(3)
      else Char(Horner(Horner(Horner(a - 0xF0, b), c), d), 4)
    else Bad(1)
  }

  /** A well-formed step reads only its own octets. */
  lemma FirstCharLocal(s: bytes, t: bytes)
    requires s != [] && FirstChar(s).Char?
    ensures var w := FirstChar(s).width; FirstChar(s[..w] + t) == FirstChar(s)
  {
    var w := FirstChar(s).width;
    var u := s[..w] + t;
    assert forall i :: 0 <= i < w ==> At(u, i) == At(s, i);
  }

  /** Some scalar value's encoding begins with these octets. */
  ghost predicate Begins(s: bytes)
  {
    exists t: bytes :: s + t != [] && FirstChar(s + t).Char? && FirstChar(s + t).width >= |s|
  }

  /** An ill-formed run is as long as a beginning can be, and one octet when there is no beginning at all. */
  lemma MaximalRun(s: bytes)
    requires s != [] && FirstChar(s).Bad?
    ensures var w := FirstChar(s).width;
            && (w > 1 ==> Begins(s[..w]))
            && forall v :: w < v <= |s| ==> !Begins(s[..v])
  {
    var w := FirstChar(s).width;
    if w > 1 {
      var t: bytes := if w == 2 && s[0] < 0xF0 then [0x80] else if w == 2 then [0x80, 0x80] else [0x80];
      var u := s[..w] + t;
      assert forall i :: 0 <= i < w ==> At(u, i) == At(s, i);
      assert forall i :: w <= i < |u| ==> At(u, i) == 0x80;
    }
    forall v | w < v <= |s|
      ensures !Begins(s[..v])
    {
      forall t: bytes
        ensures !(FirstChar(s[..v] + t).Char? && FirstChar(s[..v] + t).width >= v)
      {
        var u := s[..v] + t;
        assert forall i :: 0 <= i <= w ==> At(u, i) == At(s, i);
      }
    }
  }

  predicate Valid(s: bytes)
  {
    s == [] || (FirstChar(s).Char? && Valid(s[FirstChar(s).width..]))
  }

  const REPLACEMENT: bytes := [0xEF, 0xBF, 0xBD]

  /** `String::from_utf8_lossy`: every maximal ill-formed run becomes U+FFFD. */
  function Lossy(s: bytes): (r: bytes)
  {
    if s == [] then []
    else
      var step := FirstChar(s);
      (if step.Char? then s[..step.width] else REPLACEMENT) + Lossy(s[step.width..])
  }

  /** The scalar values of a valid text. */
  function Codes(s: bytes): (r: seq<nat>)
    requires Valid(s)
  {
    if s == [] then [] else [FirstChar(s).code] + Codes(s[FirstChar(s).width..])
  }

  lemma {:induction false} LossyIsValid(s: bytes)
    ensures Valid(Lossy(s))
  {
    if s != [] {
      var step := FirstChar(s);
      var rest := Lossy(s[step.width..]);
      LossyIsValid(s[step.width..]);
      var head := if step.Char? then s[..step.width] else REPLACEMENT;
      if step.Char? {
        FirstCharLocal(s, rest);
      } else {
        assert FirstChar(REPLACEMENT + rest) == Char(0xFFFD, 3);
      }
      assert (head + rest)[|head|..] == rest;
    }
  }

  lemma {:induction false} LossyKeepsValid(s: bytes)
    requires Valid(s)
    ensures Lossy(s) == s
  {
    if s != [] {
      LossyKeepsValid(s[FirstChar(s).width..]);
    }
  }

  /** The lossy conversion is the identity exactly on well-formed text. */
  lemma LossyExactlyValid(s: bytes)
    ensures Lossy(s) == s <==> Valid(s)
  {
    LossyIsValid(s);
    if Valid(s) {
      LossyKeepsValid(s);
    }
  }

  // ---------------------------------------------------------------------------------------
  // Against the definition of the encoding, section 3 of RFC 3629
  // ---------------------------------------------------------------------------------------

  predicate IsScalar(c: nat) { c < 0xD800 || 0xE000 <= c <= 0x10FFFF }

  /** The continuation octet with the low six bits. */
  function Tail(c: nat): (b: byte)
    ensures Continuation(b as int) && Horner(c / 64, b as int) == c
  {
    (0x80 + c % 64) as byte
  }

  function EncodeScalar(c: nat): (r: bytes)
    requires IsScalar(c)
    ensures 1 <= |r| <= 4
  {
    if c < 0x80 then [c as byte]
    else if c < 0x800 then [(0xC0 + c / 64) as byte, Tail(c)]
    else if c < 0x10000 then [(0xE0 + c / 64 / 64) as byte, Tail(c / 64), Tail(c)]
    else [(0xF0 + c / 64 / 64 / 64) as byte, Tail(c / 64 / 64), Tail(c / 64), Tail(c)]
  }

  /** The decoder reads back every encoded scalar value, whatever follows. */
  lemma DecodesScalar(c: nat, t: bytes)
    requires IsScalar(c)
    ensures FirstChar(EncodeScalar(c) + t) == Char(c, |EncodeScalar(c)|)
  {
    hide Horner, Tail;
    var e := EncodeScalar(c);
    var s := e + t;
    assert s[0] == e[0];
    if c < 0x80 {
    } else if c < 0x800 {
      assert At(s, 1) == e[1] as int;
    } else if c < 0x10000 {
      assert At(s, 1) == e[1] as int && At(s, 2) == e[2] as int;
      ThreeAllowed(c);
    } else {
      assert At(s, 1) == e[1] as int && At(s, 2) == e[2] as int && At(s, 3) == e[3] as int;
      FourAllowed(c);
    }
  }

  lemma ThreeAllowed(c: nat)
    requires IsScalar(c) && 0x800 <= c < 0x10000
    ensures SecondAllowed(0xE0 + c / 64 / 64, Tail(c / 64) as int)
  {}

  lemma FourAllowed(c: nat)
    requires IsScalar(c) && 0x10000 <= c
    ensures SecondAllowed(0xF0 + c / 64 / 64 / 64, Tail(c / 64 / 64) as int)
  {}

  /** And it accepts nothing else: no overlong form, no surrogate, nothing past U+10FFFF. */
  lemma EncodesChar(s: bytes)
    requires s != [] && FirstChar(s).Char?
    ensures IsScalar(FirstChar(s).code) && s[..FirstChar(s).width] == EncodeScalar(FirstChar(s).code)
  {
    hide Horner, Tail;
    var step := FirstChar(s);
    var a, b, c, d := At(s, 0), At(s, 1), At(s, 2), At(s, 3);
    if step.width == 2 {
      TailOf(a - 0xC0, b);
      assert s[..2] == [s[0], s[1]];
    } else if step.width == 3 {
      ThreeScalar(a, b, c);
      TailOf(a - 0xE0, b);
      TailOf(Horner(a - 0xE0, b), c);
      assert s[..3] == [s[0], s[1], s[2]];
    } else if step.width == 4 {
      FourScalar(a, b, c, d);
      TailOf(a - 0xF0, b);
      TailOf(Horner(a - 0xF0, b), c);
      TailOf(Horner(Horner(a - 0xF0, b), c), d);
      assert s[..4] == [s[0], s[1], s[2], s[3]];
    }
  }

  lemma TailOf(high: nat, b: int)
    requires Continuation(b)
    ensures Tail(Horner(high, b)) as int == b
    ensures high * 64 <= Horner(high, b) < high * 64 + 64
  {}

  lemma ThreeScalar(a: int, b: int, c: int)
    requires 0xE0 <= a <= 0xEF && SecondAllowed(a, b) && Continuation(b) && Continuation(c)
    ensures var code := Horner(Horner(a - 0xE0, b), c); IsScalar(code) && 0x800 <= code < 0x10000
  {}

  lemma FourScalar(a: int, b: int, c: int, d: int)
    requires 0xF0 <= a <= 0xF4 && SecondAllowed(a, b) && Continuation(b) && Continuation(c) && Continuation(d)
    ensures var code := Horner(Horner(Horner(a - 0xF0, b), c), d); IsScalar(code) && 0x10000 <= code
  {}

  function EncodeText(cs: seq<nat>): (r: bytes)
    requires forall i :: 0 <= i < |cs| ==> IsScalar(cs[i])
  {
    if cs == [] then [] else EncodeScalar(cs[0]) + EncodeText(cs[1..])
  }

  /** Valid texts are exactly the encodings of scalar values, and `Codes` gives those back. */
  lemma {:induction false} CodesInverse(s: bytes)
    requires Valid(s)
    ensures (forall i :: 0 <= i < |Codes(s)| ==> IsScalar(Codes(s)[i])) && EncodeText(Codes(s)) == s
  {
    hide FirstChar, EncodeScalar;
    if s != [] {
      var w := FirstChar(s).width;
      EncodesChar(s);
      CodesInverse(s[w..]);
      assert Codes(s)[1..] == Codes(s[w..]);
    }
  }

  lemma {:induction false} EncodedIsValid(cs: seq<nat>)
    requires forall i :: 0 <= i < |cs| ==> IsScalar(cs[i])
    ensures Valid(EncodeText(cs)) && Codes(EncodeText(cs)) == cs
  {
    hide FirstChar, EncodeScalar;
    if cs != [] {
      var one, rest := EncodeScalar(cs[0]), EncodeText(cs[1..]);
      DecodesScalar(cs[0], rest);
      EncodedIsValid(cs[1..]);
      assert (one + rest)[|one|..] == rest;
      assert cs == [cs[0]] + cs[1..];
    }
  }

  predicate IsAscii(s: bytes) { forall i :: 0 <= i < |s| ==> s[i] < 128 }

  lemma {:induction false} AsciiIsValid(s: bytes)
    requires IsAscii(s)
    ensures Valid(s)
    ensures |Codes(s)| == |s|
    ensures forall i :: 0 <= i < |s| ==> Codes(s)[i] == s[i] as int
  {
    if s != [] {
      AsciiIsValid(s[1..]);
    }
  }

  /** `char::is_whitespace`: the White_Space property. */
  predicate IsSpace(c: nat)
  {
    9 <= c <= 13 || c == 32 || c == 0x85 || c == 0xA0 || c == 0x1680 || 0x2000 <= c <= 0x200A
    || c == 0x2028 || c == 0x2029 || c == 0x202F || c == 0x205F || c == 0x3000
  }

  /** The twenty-five code points with the White_Space property. */
  lemma WhiteSpace(c: nat)
    ensures IsSpace(c) <==> c in {
      9, 10, 11, 12, 13, 32, 133, 160, 5760, 8192, 8193, 8194, 8195, 8196, 8197, 8198, 8199, 8200,
      8201, 8202, 8232, 8233, 8239, 8287, 12288}
  {}

  function TrimStart(s: seq<nat>): (r: seq<nat>)
  {
    if s != [] && IsSpace(s[0]) then TrimStart(s[1..]) else s
  }

  function TrimEnd(s: seq<nat>): (r: seq<nat>)
  {
    if s != [] && IsSpace(s[|s| - 1]) then TrimEnd(s[..|s| - 1]) else s
  }

  /** `str::trim`. */
  function Trim(s: seq<nat>): (r: seq<nat>) { TrimEnd(TrimStart(s)) }
}
