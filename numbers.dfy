/**
 * Number syntax used by the core: what `json.Unmarshal` accepts into a float64
 * (the number grammar of section 6 of RFC 8259, with the insignificant whitespace
 * of section 2 around it), and `strconv.Atoi`. Values are exact rationals.
 */
module Numbers {
  import opened Common

  predicate IsDigit(c: char) { '0' <= c <= '9' }

  predicate AllDigits(s: string) { forall i :: 0 <= i < |s| ==> IsDigit(s[i]) }

  /** Value of a string of decimal digits, most significant digit first. */
  function DigitsValue(s: string): nat
    requires AllDigits(s)
  {
    if s == [] then 0 else DigitsValue(s[..|s| - 1]) * 10 + (s[|s| - 1] as int - '0' as int)
  }

  /** Length of the run of digits at the start of `s`. */
  function LeadingDigits(s: string): (k: nat)
    ensures k <= |s| && AllDigits(s[..k])
    ensures k < |s| ==> !IsDigit(s[k])
  {
    if s != [] && IsDigit(s[0]) then
      var k := 1 + LeadingDigits(s[1..]);
      assert forall i :: 1 <= i < k ==> s[..k][i] == s[1..][..k - 1][i - 1];
      k
    else 0
  }

  function Pow10(n: nat): (r: nat)
    ensures r >= 1
  {
    if n == 0 then 1 else 10 * Pow10(n - 1)
  }

  /** Insignificant whitespace of section 2 of RFC 8259. */
  predicate IsJsonSpace(c: char) { c == ' ' || c == '\t' || c == '\n' || c == '\r' }

  function TrimSpaceLeft(s: string): (r: string)
    ensures |r| <= |s| && r == s[|s| - |r|..]
  {
    if s != [] && IsJsonSpace(s[0]) then TrimSpaceLeft(s[1..]) else s
  }

  function TrimSpaceRight(s: string): (r: string)
    ensures |r| <= |s| && r == s[..|r|]
  {
    if s != [] && IsJsonSpace(s[|s| - 1]) then TrimSpaceRight(s[..|s| - 1]) else s
  }

  /** Multiplying by ten to the power `e`, for a negative `e` too. */
  function Scale(e: int): real
  {
    if e >= 0 then Pow10(e) as real else 1.0 / Pow10(-e) as real
  }

  /** The optional fraction `.digits`: its digits and the rest of the text; None when '.' has no digit after it. */
  function ParseFraction(s: string): (r: Option<(string, string)>)
    ensures r.Some? ==> AllDigits(r.value.0)
  {
    if s != [] && s[0] == '.' then
      var t := s[1..];
      var k := LeadingDigits(t);
      if k == 0 then None else Some((t[..k], t[k..]))
    else Some(("", s))
  }

  /** The optional exponent `e[+-]digits` (either case of 'e'): its value and the rest of the text. */
  function ParseExponent(s: string): Option<(int, string)>
  {
    if s != [] && (s[0] == 'e' || s[0] == 'E') then
      var t := s[1..];
      var negative := t != [] && t[0] == '-';
      var u := if t != [] && (t[0] == '+' || t[0] == '-') then t[1..] else t;
      var k := LeadingDigits(u);
      if k == 0 then None
      else
        var magnitude := DigitsValue(u[..k]) as int;
        Some((if negative then -magnitude else magnitude, u[k..]))
    else Some((0, s))
  }

  /** `jsonNumberToFloat`: the value of a JSON number surrounded by optional whitespace; None otherwise. */
  function ParseJsonNumber(s: string): Option<real>
  {
    ParseNumberText(TrimSpaceRight(TrimSpaceLeft(s)))
  }

  /** A JSON number with nothing around it: `-? (0 | [1-9][0-9]*) (. [0-9]+)? ([eE] [+-]? [0-9]+)?`. */
  function ParseNumberText(t: string): Option<real>
  {
    if t != [] && t[0] == '-' then
      match ParseUnsigned(t[1..])
      case None => None
      case Some(m) => Some(-m)
    else ParseUnsigned(t)
  }

  /** A JSON number without its sign: the integer part, with no leading zero, then the fraction and exponent. */
  function ParseUnsigned(u: string): Option<real>
  {
    var k := LeadingDigits(u);
    if k == 0 || (k > 1 && u[0] == '0') then None
    else ParseAfterDigits(u[..k], u[k..])
  }

  /** The optional fraction and exponent after the integer digits `whole`; nothing may follow them. */
  function ParseAfterDigits(whole: string, rest: string): Option<real>
    requires AllDigits(whole)
  {
    match ParseFraction(rest)
    case None => None
    case Some((frac, afterFrac)) =>
      match ParseExponent(afterFrac)
      case None => None
      case Some((e, tail)) => if tail != [] then None else Some(Magnitude(whole, frac, e))
  }

  /** The value of the digits `whole`, the fraction digits `frac` and the exponent `e`. */
  function Magnitude(whole: string, frac: string, e: int): real
    requires AllDigits(whole) && AllDigits(frac)
  {
    (DigitsValue(whole) as real + DigitsValue(frac) as real / Pow10(|frac|) as real) * Scale(e)
  }

  /** Without an exponent the value is the integer part plus the fraction over its power of ten. */
  lemma MagnitudeNoExponent(whole: string, frac: string)
    requires AllDigits(whole) && AllDigits(frac)
    ensures Magnitude(whole, frac, 0) == DigitsValue(whole) as real + DigitsValue(frac) as real / Pow10(|frac|) as real
    ensures frac == [] ==> Magnitude(whole, frac, 0) == DigitsValue(whole) as real
  {
    assert Scale(0) == 1.0 by { assert Pow10(0) == 1; }
    var x := DigitsValue(whole) as real + DigitsValue(frac) as real / Pow10(|frac|) as real;
    assert Magnitude(whole, frac, 0) == x * 1.0;
    if frac == [] {
      assert DigitsValue(frac) == 0;
    }
  }

  /** `strconv.Atoi` within the int range: an optional sign and at least one digit, nothing else. */
  function Atoi(s: string): Option<int>
  {
    var negative := s != [] && s[0] == '-';
    var u := if s != [] && (s[0] == '+' || s[0] == '-') then s[1..] else s;
    if u == [] || !AllDigits(u) then None
    else Some(if negative then -(DigitsValue(u) as int) else DigitsValue(u) as int)
  }

  /** Decimal rendering of a natural number, without leading zeros. */
  function NatToDecimal(n: nat): (s: string)
    ensures s != [] && AllDigits(s) && DigitsValue(s) == n
    ensures (s[0] == '0') == (n == 0)
    ensures n == 0 ==> |s| == 1
  {
    if n < 10 then [('0' as int + n) as char]
    else
      var s := NatToDecimal(n / 10) + [('0' as int + n % 10) as char];
      assert s[..|s| - 1] == NatToDecimal(n / 10);
      s
  }

  /** Decimal rendering of an integer, with '-' before a negative one. */
  function IntToDecimal(i: int): string
  {
    if i < 0 then "-" + NatToDecimal(-i) else NatToDecimal(i)
  }

  /** Every integer written in decimal is a JSON number with that value. */
  lemma ParseJsonNumberOfDecimal(i: int)
    ensures ParseJsonNumber(IntToDecimal(i)) == Some(i as real)
  {
    var s := IntToDecimal(i);
    assert TrimSpaceRight(TrimSpaceLeft(s)) == s by {
      assert !IsJsonSpace(s[0]) && !IsJsonSpace(s[|s| - 1]);
    }
    NumberTextOfDecimal(i);
  }

  /** The grammar alone accepts a decimal integer and gives its value. */
  lemma NumberTextOfDecimal(i: int)
    ensures ParseNumberText(IntToDecimal(i)) == Some(i as real)
  {
    if i < 0 {
      NegativeDecimalText(-i);
    } else {
      NaturalDecimalText(i);
    }
  }

  /** The grammar reads the decimal form of a natural number as that number. */
  lemma NaturalDecimalText(n: nat)
    ensures ParseNumberText(NatToDecimal(n)) == Some(n as real)
  {
    UnsignedDecimal(n);
    NotNegated(NatToDecimal(n));
  }

  /** ... and the same behind '-' as its negation. */
  lemma NegativeDecimalText(n: nat)
    ensures ParseNumberText("-" + NatToDecimal(n)) == Some(-(n as real))
  {
    UnsignedDecimal(n);
    Negated(NatToDecimal(n), n as real);
  }

  /** Without its sign, the decimal form of a natural number is read as that number. */
  lemma UnsignedDecimal(n: nat)
    ensures ParseUnsigned(NatToDecimal(n)) == Some(n as real)
  {
    var d := NatToDecimal(n);
    LeadingDigitsOf(d, []);
    assert d + [] == d && d[..|d|] == d && d[|d|..] == [];
    assert ParseExponent([]) == Some((0, []));
    MagnitudeNoExponent(d, []);
  }

  /** The run of digits at the start of `d + rest` is `d` when `rest` does not start with a digit. */
  lemma {:induction false} LeadingDigitsOf(d: string, rest: string)
    requires AllDigits(d) && (rest != [] ==> !IsDigit(rest[0]))
    ensures LeadingDigits(d + rest) == |d|
    decreases |d|
  {
    if d == [] {
      assert d + rest == rest;
    } else {
      assert (d + rest)[0] == d[0] && (d + rest)[1..] == d[1..] + rest;
      LeadingDigitsOf(d[1..], rest);
    }
  }

  /** The value written `n.ds`: n plus the digits ds over the matching power of ten. */
  function FractionValue(n: nat, ds: string): real
    requires AllDigits(ds)
  {
    n as real + DigitsValue(ds) as real / Pow10(|ds|) as real
  }

  /** A decimal fraction `n.ds` is a JSON number worth `n.ds`. */
  lemma ParseJsonNumberOfFraction(n: nat, ds: string)
    requires ds != [] && AllDigits(ds)
    ensures ParseJsonNumber(NatToDecimal(n) + "." + ds) == Some(FractionValue(n, ds))
  {
    var d := NatToDecimal(n);
    var u := d + "." + ds;
    UnsignedFraction(n, ds);
    FractionEnds(d, ds);
    PositiveFraction(u, FractionValue(n, ds));
  }

  /** A negative decimal fraction `-n.ds` is a JSON number worth minus `n.ds`. */
  lemma ParseJsonNumberOfNegativeFraction(n: nat, ds: string)
    requires ds != [] && AllDigits(ds)
    ensures ParseJsonNumber("-" + (NatToDecimal(n) + "." + ds)) == Some(-FractionValue(n, ds))
  {
    NegativeFractionTrimmed(n, ds);
    NegativeFractionText(n, ds);
  }

  /** `-n.ds` has no whitespace around it. */
  lemma NegativeFractionTrimmed(n: nat, ds: string)
    requires ds != [] && AllDigits(ds)
    ensures var s := "-" + (NatToDecimal(n) + "." + ds); TrimSpaceRight(TrimSpaceLeft(s)) == s
  {
    var d := NatToDecimal(n);
    var u := d + "." + ds;
    FractionEnds(d, ds);
    assert ("-" + u)[|"-" + u| - 1] == u[|u| - 1];
    NoSpaceAround("-" + u);
  }

  /** The grammar reads `-n.ds` as minus `n.ds`. */
  lemma NegativeFractionText(n: nat, ds: string)
    requires ds != [] && AllDigits(ds)
    ensures ParseNumberText("-" + (NatToDecimal(n) + "." + ds)) == Some(-FractionValue(n, ds))
  {
    UnsignedFraction(n, ds);
    Negated(NatToDecimal(n) + "." + ds, FractionValue(n, ds));
  }

  /** A '-' in front negates the unsigned reading of the rest. */
  lemma Negated(u: string, m: real)
    requires ParseUnsigned(u) == Some(m)
    ensures ParseNumberText("-" + u) == Some(-m)
  {
    assert ("-" + u)[1..] == u;
  }

  /** The grammar's reading of `n.ds` without a sign. */
  lemma UnsignedFraction(n: nat, ds: string)
    requires ds != [] && AllDigits(ds)
    ensures ParseUnsigned(NatToDecimal(n) + "." + ds) == Some(FractionValue(n, ds))
  {
    var d := NatToDecimal(n);
    FractionText(d, ds);
    MagnitudeNoExponent(d, ds);
  }

  /** `d.ds` starts with the first digit of `d` and ends with the last of `ds`. */
  lemma FractionEnds(d: string, ds: string)
    requires d != [] && AllDigits(d) && ds != [] && AllDigits(ds)
    ensures var u := d + "." + ds; IsDigit(u[0]) && IsDigit(u[|u| - 1])
  {
    var u := d + "." + ds;
    assert u[0] == d[0] && u[|u| - 1] == ds[|ds| - 1];
  }

  /** A number text read by the grammar, starting with a digit and ending with one, is read so by `ParseJsonNumber`. */
  lemma PositiveFraction(u: string, v: real)
    requires u != [] && IsDigit(u[0]) && IsDigit(u[|u| - 1])
    requires ParseUnsigned(u) == Some(v)
    ensures ParseJsonNumber(u) == Some(v)
  {
    NoSpaceAround(u);
    NotNegated(u);
  }

  /** Text that neither starts nor ends with whitespace is left alone by the trimming. */
  lemma NoSpaceAround(s: string)
    requires s != [] && !IsJsonSpace(s[0]) && !IsJsonSpace(s[|s| - 1])
    ensures TrimSpaceRight(TrimSpaceLeft(s)) == s
  {
  }

  /** The grammar reads `d.ds` as the integer part `d` with the fraction `ds`, and nothing else. */
  lemma FractionText(d: string, ds: string)
    requires d != [] && AllDigits(d) && (|d| > 1 ==> d[0] != '0')
    requires ds != [] && AllDigits(ds)
    ensures ParseUnsigned(d + "." + ds) == Some(Magnitude(d, ds, 0))
    ensures ParseNumberText(d + "." + ds) == Some(Magnitude(d, ds, 0))
  {
    var u := d + ("." + ds);
    assert d + "." + ds == u;
    assert IsDigit(d[0]) && u[0] == d[0];
    NotNegated(u);
    UnsignedDigits(d, "." + ds);
    AfterDigitsFraction(d, ds);
  }

  /** A complete fraction part with no exponent after the integer digits gives their value. */
  lemma AfterDigitsFraction(whole: string, ds: string)
    requires AllDigits(whole) && ds != [] && AllDigits(ds)
    ensures ParseAfterDigits(whole, "." + ds) == Some(Magnitude(whole, ds, 0))
  {
    FractionPart(ds);
    assert ParseExponent([]) == Some((0, []));
  }

  /** An integer part without a superfluous leading zero, followed by a non-digit, is read whole. */
  lemma UnsignedDigits(d: string, rest: string)
    requires d != [] && AllDigits(d) && (|d| > 1 ==> d[0] != '0')
    requires rest != [] && !IsDigit(rest[0])
    ensures ParseUnsigned(d + rest) == ParseAfterDigits(d, rest)
  {
    var u := d + rest;
    LeadingDigitsOf(d, rest);
    assert u[..|d|] == d && u[|d|..] == rest && u[0] == d[0];
  }

  /** Text that does not start with '-' is read as an unsigned number. */
  lemma NotNegated(t: string)
    requires t == [] || t[0] != '-'
    ensures ParseNumberText(t) == ParseUnsigned(t)
  {
  }

  /** `.ds` is a complete fraction part. */
  lemma FractionPart(ds: string)
    requires ds != [] && AllDigits(ds)
    ensures ParseFraction("." + ds) == Some((ds, []))
  {
    LeadingDigitsOf(ds, []);
    assert ("." + ds)[1..] == ds && ds + [] == ds && ds[..|ds|] == ds && ds[|ds|..] == [];
  }

  /** A run of digits with a leading '0' and more digits after it is not a number. */
  lemma LeadingZeroRejected(s: string)
    requires |s| >= 2 && s[0] == '0' && IsDigit(s[1])
    ensures ParseNumberText(s) == None
  {
    assert LeadingDigits(s) >= 2;
    NotNegated(s);
  }

  /** ... and the same digits behind '-' are rejected too. */
  lemma NegativeLeadingZeroRejected(s: string)
    requires |s| >= 2 && s[0] == '0' && IsDigit(s[1])
    ensures ParseNumberText("-" + s) == None
  {
    assert LeadingDigits(s) >= 2;
    assert ("-" + s)[1..] == s;
  }

  /** Zero-padded digits such as "007" are not a JSON number. */
  lemma ZeroPaddedRejected(ds: string)
    requires ds != [] && AllDigits(ds)
    ensures ParseJsonNumber("0" + ds) == None
  {
    ZeroPaddedTrimmed(ds);
    var s := "0" + ds;
    assert s[0] == '0' && s[1] == ds[0];
    LeadingZeroRejected(s);
  }

  /** Zero-padded digits have no whitespace around them. */
  lemma ZeroPaddedTrimmed(ds: string)
    requires ds != [] && AllDigits(ds)
    ensures TrimSpaceRight(TrimSpaceLeft("0" + ds)) == "0" + ds
  {
    var s := "0" + ds;
    assert s[0] == '0' && s[|s| - 1] == ds[|ds| - 1];
    NoSpaceAround(s);
  }

  /** Whitespace before a number does not change what it parses to. */
  lemma ParseJsonNumberLeadingSpace(c: char, s: string)
    requires IsJsonSpace(c)
    ensures ParseJsonNumber([c] + s) == ParseJsonNumber(s)
  {
    assert ([c] + s)[1..] == s;
    assert TrimSpaceLeft([c] + s) == TrimSpaceLeft(s);
    assert ParseJsonNumber([c] + s) == ParseNumberText(TrimSpaceRight(TrimSpaceLeft(s)));
  }

  /** The decimal form of an integer consists of digits and possibly a leading '-'. */
  lemma IntToDecimalCharacters(i: int)
    ensures forall k :: 0 <= k < |IntToDecimal(i)| ==> IsDigit(IntToDecimal(i)[k]) || IntToDecimal(i)[k] == '-'
  {
    if i < 0 {
      var d := NatToDecimal(-i);
      assert forall k :: 1 <= k < |IntToDecimal(i)| ==> IntToDecimal(i)[k] == d[k - 1];
    }
  }

  /** Text without a single digit is not a JSON number. */
  lemma NoDigitNoNumber(s: string)
    requires forall i :: 0 <= i < |s| ==> !IsDigit(s[i])
    ensures ParseJsonNumber(s) == None
  {
    var t := TrimSpaceRight(TrimSpaceLeft(s));
    assert forall i :: 0 <= i < |t| ==> t[i] in s;
    var u := if t != [] && t[0] == '-' then t[1..] else t;
    assert u != [] ==> u[0] in s;
  }
}
