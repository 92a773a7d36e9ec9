/** Decimal text: what `format!("{}", n)` prints and what `str::parse` accepts for unsigned integers. */
module Decimal {
  import opened Bytes
  import opened Utf8

  const USIZE_MAX: nat := 0xFFFF_FFFF_FFFF_FFFF
  const PLUS: byte := 43
  const ZERO: byte := 48

  predicate IsDigit(b: byte) { 48 <= b <= 57 }

  predicate AllDigits(s: bytes) { forall i :: 0 <= i < |s| ==> IsDigit(s[i]) }

  /** The printed form of `n`: no sign, no leading zero. */
  function Digits(n: nat): (r: bytes)
    ensures r != [] && AllDigits(r)
    ensures r[0] == ZERO <==> n == 0
  {
    if n < 10 then [(48 + n) as byte] else Digits(n / 10) + [(48 + n % 10) as byte]
  }

  /** Positional value, most significant digit first. */
  function Value(s: bytes): (n: nat)
    requires AllDigits(s)
  {
    if s == [] then 0 else Value(s[..|s| - 1]) * 10 + (s[|s| - 1] as int - 48)
  }

  lemma {:induction false} ValueOfDigits(n: nat)
    ensures Value(Digits(n)) == n
  {
    if n < 10 {
      assert Digits(n)[..0] == [];
    } else {
      ValueOfDigits(n / 10);
      assert Digits(n)[..|Digits(n)| - 1] == Digits(n / 10);
    }
  }

  /** The digits are the ten ASCII ones, each worth what it says, the most significant first. */
  lemma DigitTexts(n: nat, d: nat)
    requires n > 0 && d < 10
    ensures Digits(d) == [Ascii("0123456789")[d]]
    ensures Digits(n * 10 + d) == Digits(n) + Digits(d)
  {
    assert (n * 10 + d) / 10 == n && (n * 10 + d) % 10 == d;
  }

  /** A numeral that does not start with zero is positive. */
  lemma {:induction false} ValuePositive(s: bytes)
    requires AllDigits(s) && s != [] && s[0] != ZERO
    ensures Value(s) >= 1
  {
    if |s| > 1 {
      ValuePositive(s[..|s| - 1]);
    }
  }

  /** Cutting digits off the end never makes a numeral larger. */
  lemma {:induction false} ValuePrefix(s: bytes, k: nat)
    requires AllDigits(s) && k <= |s|
    ensures Value(s[..k]) <= Value(s)
  {
    if k == |s| {
      assert s[..k] == s;
    } else {
      ValuePrefix(s[..|s| - 1], k);
      assert s[..|s| - 1][..k] == s[..k];
    }
  }

  /** ASCII octets as scalar values. */
  function Widen(s: bytes): (r: seq<nat>)
    ensures |r| == |s| && forall i :: 0 <= i < |s| ==> r[i] == s[i] as int
  {
    seq(|s|, i requires 0 <= i < |s| => s[i] as int)
  }

  predicate DigitCodes(s: seq<nat>) { forall i :: 0 <= i < |s| ==> 48 <= s[i] <= 57 }

  function Narrow(s: seq<nat>): (r: bytes)
    requires DigitCodes(s)
    ensures AllDigits(r) && Widen(r) == s
  {
    seq(|s|, i requires 0 <= i < |s| => s[i] as byte)
  }

  /** `str::parse` for an unsigned type with the given maximum, on the scalar values of the text. */
  function ParseUnsigned(s: seq<nat>, max: nat): (r: Option<nat>)
  {
    var body := if |s| > 1 && s[0] == PLUS as int then s[1..] else s;
    if body == [] || !DigitCodes(body) then None
    else if Value(Narrow(body)) <= max then Some(Value(Narrow(body))) else None
  }

  lemma WidenInjective(a: bytes, b: bytes)
    requires Widen(a) == Widen(b)
    ensures a == b
  {
    assert forall i :: 0 <= i < |a| ==> a[i] as int == Widen(a)[i] && b[i] as int == Widen(b)[i];
  }

  lemma ParseUnsignedDigits(ds: bytes, max: nat)
    requires AllDigits(ds) && ds != []
    ensures ParseUnsigned(Widen(ds), max) == if Value(ds) <= max then Some(Value(ds)) else None
    ensures ParseUnsigned([PLUS as int] + Widen(ds), max) == ParseUnsigned(Widen(ds), max)
  {
    hide Value;
    assert Widen(ds)[0] == ds[0] as int && IsDigit(ds[0]);
    assert DigitCodes(Widen(ds));
    WidenInjective(ds, Narrow(Widen(ds)));
    assert ([PLUS as int] + Widen(ds))[1..] == Widen(ds);
  }

  /** Spaces after a numeral disappear in `trim`. */
  lemma {:induction false} TrimEndSpaces(d: seq<nat>, w: seq<nat>)
    requires d != [] && !IsSpace(d[|d| - 1])
    requires forall i :: 0 <= i < |w| ==> IsSpace(w[i])
    ensures TrimEnd(d + w) == d
  {
    if w == [] {
      assert d + w == d;
    } else {
      assert (d + w)[..|d + w| - 1] == d + w[..|w| - 1];
      TrimEndSpaces(d, w[..|w| - 1]);
    }
  }

  lemma NothingToTrim(s: seq<nat>)
    requires s == [] || !IsSpace(s[0])
    ensures TrimStart(s) == s
  {}

  // ---------------------------------------------------------------------------------------
  // What `trim` and `parse` accept, stated without them
  // ---------------------------------------------------------------------------------------

  predicate Spaces(s: seq<nat>) { forall i :: 0 <= i < |s| ==> IsSpace(s[i]) }

  /** Digits with at most a plus sign in front, worth `n`. */
  ghost predicate Numeral(s: seq<nat>, n: nat)
  {
    exists ds: bytes :: ds != [] && AllDigits(ds) && Value(ds) == n && (s == Widen(ds) || s == [PLUS as int] + Widen(ds))
  }

  /** White space, a numeral, white space. */
  ghost predicate PaddedNumeral(s: seq<nat>, n: nat)
  {
    exists a: seq<nat>, m: seq<nat>, b: seq<nat> :: s == a + m + b && Spaces(a) && Spaces(b) && Numeral(m, n)
  }

  lemma ParseExact(s: seq<nat>, max: nat, n: nat)
    ensures ParseUnsigned(s, max) == Some(n) <==> n <= max && Numeral(s, n)
  {
    hide Value;
    if ParseUnsigned(s, max) == Some(n) {
      var body := if |s| > 1 && s[0] == PLUS as int then s[1..] else s;
      var ds := Narrow(body);
      assert s == body || s == [PLUS as int] + body;
      assert ds != [] && AllDigits(ds) && Value(ds) == n && (s == Widen(ds) || s == [PLUS as int] + Widen(ds));
    }
    if n <= max && Numeral(s, n) {
      var ds: bytes :| ds != [] && AllDigits(ds) && Value(ds) == n && (s == Widen(ds) || s == [PLUS as int] + Widen(ds));
      ParseUnsignedDigits(ds, max);
    }
  }

  lemma {:induction false} TrimStartParts(s: seq<nat>) returns (a: seq<nat>)
    ensures s == a + TrimStart(s) && Spaces(a)
  {
    a := [];
    if s != [] && IsSpace(s[0]) {
      var rest := TrimStartParts(s[1..]);
      a := [s[0]] + rest;
    }
  }

  lemma {:induction false} TrimEndParts(s: seq<nat>) returns (b: seq<nat>)
    ensures s == TrimEnd(s) + b && Spaces(b)
  {
    b := [];
    if s != [] && IsSpace(s[|s| - 1]) {
      var n := |s| - 1;
      var rest := TrimEndParts(s[..n]);
      b := rest + [s[n]];
      assert s == s[..n] + [s[n]];
    }
  }

  lemma {:induction false} TrimStartSpaces(a: seq<nat>, m: seq<nat>)
    requires Spaces(a) && m != [] && !IsSpace(m[0])
    ensures TrimStart(a + m) == m
  {
    if a == [] {
      assert a + m == m;
    } else {
      AppendTail(a, m);
      TrimStartSpaces(a[1..], m);
    }
  }

  lemma NumeralEnds(m: seq<nat>, n: nat)
    requires Numeral(m, n)
    ensures m != [] && !IsSpace(m[0]) && !IsSpace(m[|m| - 1])
  {
    var ds: bytes :| ds != [] && AllDigits(ds) && Value(ds) == n && (m == Widen(ds) || m == [PLUS as int] + Widen(ds));
    assert IsDigit(ds[0]) && IsDigit(ds[|ds| - 1]);
  }

  /** `trim().parse()` succeeds with `n` exactly on a padded numeral worth `n` that is not too large. */
  lemma TrimParseExact(s: seq<nat>, max: nat, n: nat)
    ensures ParseUnsigned(Trim(s), max) == Some(n) <==> n <= max && PaddedNumeral(s, n)
  {
    hide TrimStart, TrimEnd, ParseUnsigned, Numeral;
    ParseExact(Trim(s), max, n);
    if Numeral(Trim(s), n) {
      var a := TrimStartParts(s);
      var b := TrimEndParts(TrimStart(s));
      assert s == a + Trim(s) + b;
    }
    if PaddedNumeral(s, n) {
      var a: seq<nat>, m: seq<nat>, b: seq<nat> :| s == a + m + b && Spaces(a) && Spaces(b) && Numeral(m, n);
      NumeralEnds(m, n);
      assert s == a + (m + b);
      TrimStartSpaces(a, m + b);
      TrimEndSpaces(m, b);
    }
  }
}
