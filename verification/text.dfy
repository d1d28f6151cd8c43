/** String helpers the service relies on: `str::strip_prefix`, and the
    decimal rendering `format!` uses for integers. */
module Text {
  import opened Base

  /** `s.strip_prefix(prefix)`: the rest of `s` when it starts with `prefix`. */
  function StripPrefix(s: string, prefix: string): (r: Option<string>)
    ensures r.Some? <==> prefix <= s
    ensures r.Some? ==> prefix + r.value == s
  {
    if prefix <= s then Some(s[|prefix|..]) else None
  }

  /** Stripping a prefix undoes prepending it. */
  lemma StripPrefixOfConcat(prefix: string, rest: string)
    ensures StripPrefix(prefix + rest, prefix) == Some(rest)
  {
    assert prefix <= prefix + rest;
    assert (prefix + rest)[|prefix|..] == rest;
  }

  predicate IsDigit(c: char) {
    '0' <= c <= '9'
  }

  predicate AllDigits(s: string) {
    forall i :: 0 <= i < |s| ==> IsDigit(s[i])
  }

  function DigitChar(d: nat): (c: char)
    requires d < 10
    ensures IsDigit(c)
  {
    (('0' as int) + d) as char
  }

  function DigitValue(c: char): (d: nat)
    requires IsDigit(c)
    ensures d < 10
  {
    c as int - '0' as int
  }

  /** Decimal digits of a natural number, most significant first, with no
      leading zero. */
  function NatToDecimal(n: nat): (s: string)
    ensures |s| > 0
    ensures AllDigits(s)
    ensures s[0] == '0' ==> n == 0 && s == "0"
    decreases n
  {
    if n < 10 then [DigitChar(n)] else NatToDecimal(n / 10) + [DigitChar(n % 10)]
  }

  /** The value of a string of decimal digits (the inverse of NatToDecimal). */
  function DecimalToNat(s: string): nat
    requires AllDigits(s)
    decreases |s|
  {
    if |s| == 0 then 0 else DecimalToNat(s[..|s| - 1]) * 10 + DigitValue(s[|s| - 1])
  }

  /** How `{}` renders a signed integer: a '-' exactly for a negative number,
      then the digits of its magnitude, with no leading zero. */
  function IntToDecimal(n: int): (s: string)
    ensures |s| > 0
    ensures s[0] == '-' <==> n < 0
    ensures var digits := if n < 0 then s[1..] else s;
      && |digits| > 0
      && AllDigits(digits)
      && (digits[0] == '0' ==> n == 0 && digits == "0")
  {
    if n < 0 then "-" + NatToDecimal(-n) else NatToDecimal(n)
  }

  /** Reads back an integer written by IntToDecimal. */
  function ParseInt(s: string): Option<int> {
    if |s| > 1 && s[0] == '-' && AllDigits(s[1..]) then Some(0 - DecimalToNat(s[1..]) as int)
    else if |s| > 0 && AllDigits(s) then Some(DecimalToNat(s) as int)
    else None
  }

  lemma {:induction false} NatDecimalRoundTrip(n: nat)
    ensures DecimalToNat(NatToDecimal(n)) == n
    decreases n
  {
    if n >= 10 {
      NatDecimalRoundTrip(n / 10);
      var s := NatToDecimal(n);
      assert s[..|s| - 1] == NatToDecimal(n / 10);
      assert DigitValue(s[|s| - 1]) == n % 10;
    } else {
      assert NatToDecimal(n)[..0] == [];
    }
  }

  /** The rendering of an integer is unambiguous: parsing it gives the integer back. */
  lemma IntDecimalRoundTrip(n: int)
    ensures ParseInt(IntToDecimal(n)) == Some(n)
  {
    var s := IntToDecimal(n);
    if n < 0 {
      NatDecimalRoundTrip(-n);
      assert s[1..] == NatToDecimal(-n);
    } else {
      NatDecimalRoundTrip(n);
      assert s[0] != '-';
    }
  }
}
