/**
 * Decimal numerals: the rendering of an integer as text (what JavaScript's
 * `Number.prototype.toString` and `Array.prototype.join` produce for an
 * integer of magnitude below 1e21, where exponent notation does not start)
 * and the parse of text as an integer (what the unary `+` coercion produces
 * for a decimal integer literal, with failure instead of NaN).
 */
module Numerals {
  import opened Wrappers

  predicate IsDigit(c: char) {
    '0' <= c <= '9'
  }

  predicate AllDigits(s: string) {
    forall i :: 0 <= i < |s| ==> IsDigit(s[i])
  }

  function DigitValue(c: char): (d: nat)
    requires IsDigit(c)
    ensures d < 10
  {
    c as int - '0' as int
  }

  function DigitChar(d: nat): (c: char)
    requires d < 10
    ensures IsDigit(c) && DigitValue(c) == d
  {
    ('0' as int + d) as char
  }

  /** The value of a run of decimal digits, most significant digit first. */
  function DigitsValue(s: string): nat
    requires AllDigits(s)
  {
    if s == [] then 0
    else 10 * DigitsValue(s[..|s| - 1]) + DigitValue(s[|s| - 1])
  }

  /** A run of digits in canonical form: non-empty, and no leading zero. */
  predicate IsCanonicalDigits(s: string) {
    |s| > 0 && AllDigits(s) && (|s| > 1 ==> s[0] != '0')
  }

  /** Shortest decimal rendering of a natural number. */
  function NatToString(n: nat): (s: string)
    ensures IsCanonicalDigits(s)
    ensures DigitsValue(s) == n
  {
    if n < 10 then [DigitChar(n)]
    else
      var s := NatToString(n / 10) + [DigitChar(n % 10)];
      assert s[..|s| - 1] == NatToString(n / 10);
      s
  }

  /** Decimal rendering of an integer: a minus sign for negative values only. */
  function IntToString(i: int): (s: string)
    ensures |s| > 0
    ensures s[0] == '-' <==> i < 0
    ensures forall j :: 0 <= j < |s| ==> IsDigit(s[j]) || (j == 0 && s[j] == '-')
  {
    if i < 0 then "-" + NatToString(-i) else NatToString(i)
  }

  /** A run of one or more digits as a natural number, or None. */
  function ParseDigits(s: string): (r: Option<nat>)
    ensures r.Some? <==> |s| > 0 && AllDigits(s)
    ensures r.Some? ==> r.value == DigitsValue(s)
  {
    if |s| > 0 && AllDigits(s) then Some(DigitsValue(s)) else None
  }

  /** The numeral grammar: digit+ | ('+' | '-') digit+. */
  predicate IsNumeral(s: string) {
    (|s| > 0 && AllDigits(s)) || (|s| > 1 && (s[0] == '+' || s[0] == '-') && AllDigits(s[1..]))
  }

  /**
   * An optional single '+' or '-' followed by one or more decimal digits, as
   * an integer; None for any other text (the empty text included).
   */
  function ParseInt(s: string): (r: Option<int>)
    ensures r.Some? ==> |s| > 0
    ensures r.Some? && s[0] != '-' ==> r.value >= 0
    ensures r.Some? && s[0] == '-' ==> r.value <= 0
    ensures r.Some? <==> IsNumeral(s)
    ensures r.Some? && s[0] == '-' && AllDigits(s[1..]) ==> r.value == 0 - DigitsValue(s[1..]) as int
    ensures r.Some? && s[0] == '+' && AllDigits(s[1..]) ==> r.value == DigitsValue(s[1..])
    ensures r.Some? && s[0] != '-' && s[0] != '+' ==> r.value == DigitsValue(s)
  {
    if |s| > 0 && s[0] == '-' then
      match ParseDigits(s[1..])
      case Some(n) => Some(0 - n as int)
      case None => None
    else if |s| > 0 && s[0] == '+' then
      match ParseDigits(s[1..])
      case Some(n) => Some(n)
      case None => None
    else
      match ParseDigits(s)
      case Some(n) => Some(n)
      case None => None
  }

  /** The numeric coercion with its failure mapped to 0. */
  function NumberOrZero(s: string): (n: int)
    ensures ParseInt(s).Some? ==> n == ParseInt(s).value
    ensures n != 0 ==> ParseInt(s) == Some(n)
  {
    ParseInt(s).GetOr(0)
  }

  /** Parsing the rendering of any integer gives that integer back. */
  lemma ParseIntToString(i: int)
    ensures ParseInt(IntToString(i)) == Some(i)
  {
    var s := IntToString(i);
    if i < 0 {
      assert s[1..] == NatToString(-i);
    } else {
      assert s == NatToString(i);
    }
  }

  /** A canonical digit run with a non-zero leading digit has value at least one. */
  lemma {:induction false} LeadingDigitPositive(s: string)
    requires |s| > 0 && AllDigits(s) && s[0] != '0'
    ensures DigitsValue(s) >= 1
  {
    if |s| > 1 {
      var p := s[..|s| - 1];
      assert p[0] == s[0];
      LeadingDigitPositive(p);
    }
  }

  /** Rendering the value of a canonical digit run gives the run back. */
  lemma {:induction false} NatToStringOfDigits(s: string)
    requires IsCanonicalDigits(s)
    ensures NatToString(DigitsValue(s)) == s
  {
    if |s| > 1 {
      var p := s[..|s| - 1];
      assert p[0] == s[0];
      assert IsCanonicalDigits(p);
      LeadingDigitPositive(p);
      NatToStringOfDigits(p);
      var n := DigitsValue(s);
      assert n / 10 == DigitsValue(p) && n % 10 == DigitValue(s[|s| - 1]);
      assert DigitChar(n % 10) == s[|s| - 1];
      assert s == p + [s[|s| - 1]];
    }
  }

  /**
   * The other direction of the round trip: a numeral without '+', without a
   * leading zero and other than "-0" is exactly the rendering of its value.
   */
  lemma IntToStringOfParse(s: string)
    requires ParseInt(s).Some?
    requires s[0] != '+'
    requires s[0] == '-' ==> IsCanonicalDigits(s[1..]) && s[1] != '0'
    requires s[0] != '-' ==> IsCanonicalDigits(s)
    ensures IntToString(ParseInt(s).value) == s
  {
    if s[0] == '-' {
      LeadingDigitPositive(s[1..]);
      NatToStringOfDigits(s[1..]);
    } else {
      NatToStringOfDigits(s);
    }
  }

  /** Text holding a character that is neither a digit nor a leading sign does not parse. */
  lemma ParseIntRejects(s: string, j: nat)
    requires j < |s| && !IsDigit(s[j])
    requires j > 0 || (s[0] != '+' && s[0] != '-')
    ensures ParseInt(s) == None
  {
    if |s| > 0 && (s[0] == '-' || s[0] == '+') {
      assert s[1..][j - 1] == s[j];
    }
  }

  /** A leading zero does not change the value of a digit run. */
  lemma {:induction false} DigitsValueLeadingZero(t: string)
    requires AllDigits(t)
    ensures AllDigits("0" + t) && DigitsValue("0" + t) == DigitsValue(t)
  {
    var z := "0" + t;
    assert forall i :: 0 <= i < |z| ==> IsDigit(z[i]) by {
      forall i | 0 <= i < |z| ensures IsDigit(z[i]) {
        if i > 0 {
          assert z[i] == t[i - 1];
        }
      }
    }
    if t != [] {
      var p := t[..|t| - 1];
      DigitsValueLeadingZero(p);
      assert z[..|z| - 1] == "0" + p;
      assert z[|z| - 1] == t[|t| - 1];
    }
  }

  /** A '+' sign in front of a digit run is accepted and changes nothing. */
  lemma ParsePlus(t: string)
    requires |t| > 0 && AllDigits(t)
    ensures ParseInt("+" + t) == ParseInt(t)
  {
    assert ("+" + t)[1..] == t;
  }

  /** A leading zero in front of a numeral without a sign changes nothing. */
  lemma ParseLeadingZero(t: string)
    requires |t| > 0 && AllDigits(t)
    ensures ParseInt("0" + t) == ParseInt(t)
  {
    DigitsValueLeadingZero(t);
  }

  /** Negative zero reads as zero (integers have no signed zero). */
  lemma ParseMinusZero()
    ensures ParseInt("-0") == Some(0)
  {
    assert "-0"[1..] == "0";
  }
}
