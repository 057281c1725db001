/**
 * Decimal rendering and parsing of Java `int`s: `Integer.toString(int)` and
 * `Integer.parseInt(String)`, which name the label properties of a stored
 * buffer. Only the ASCII digits '0'..'9' are modelled.
 */
module Decimal {
  import opened Wrappers
  import JavaArith

  predicate IsDigit(c: char) {
    '0' <= c <= '9'
  }

  predicate AllDigits(s: string) {
    forall i :: 0 <= i < |s| ==> IsDigit(s[i])
  }

  function DigitValue(c: char): nat
    requires IsDigit(c)
  {
    c as int - '0' as int
  }

  function DigitChar(d: nat): (c: char)
    requires d < 10
    ensures IsDigit(c) && DigitValue(c) == d
  {
    ('0' as int + d) as char
  }

  /** The value of a string of decimal digits, most significant first. */
  function DigitsValue(s: string): nat
    requires AllDigits(s)
  {
    if |s| == 0 then 0 else 10 * DigitsValue(s[..|s| - 1]) + DigitValue(s[|s| - 1])
  }

  /** `Integer.toString` of a non-negative number: digits without leading zeros. */
  function NatToString(n: nat): (s: string)
    ensures 1 <= |s| && AllDigits(s)
    ensures DigitsValue(s) == n
    ensures s[0] == '0' ==> n == 0
    decreases n
  {
    if n < 10 then [DigitChar(n)]
    else
      var prefix := NatToString(n / 10);
      var s := prefix + [DigitChar(n % 10)];
      assert s[..|s| - 1] == prefix;
      s
  }

  /** `Integer.toString(int)`: a minus sign before the magnitude when negative. */
  function IntToString(i: int): string {
    if i < 0 then "-" + NatToString(-i) else NatToString(i)
  }

  /** Whether the text starts with a minus sign. */
  predicate Negative(s: string) {
    |s| > 0 && s[0] == '-'
  }

  /** The text after an optional leading sign. */
  function Unsigned(s: string): (u: string)
    ensures |u| <= |s| && s[|s| - |u|..] == u
  {
    if |s| > 0 && (s[0] == '-' || s[0] == '+') then s[1..] else s
  }

  /** The value the digits after the sign denote, negated after a minus sign. */
  function SignedValue(s: string): int
    requires AllDigits(Unsigned(s))
  {
    var magnitude: int := DigitsValue(Unsigned(s));
    if Negative(s) then -magnitude else magnitude
  }

  /**
   * `Integer.parseInt(s)`: an optional leading '-' or '+', then at least one
   * digit; `None` where Java throws `NumberFormatException`, including when
   * the value does not fit in an `int`.
   */
  function ParseInt(s: string): (r: Option<int>)
    ensures r.Some? ==> JavaArith.IsInt(r.value)
    ensures r.Some? ==> 1 <= |s| && (IsDigit(s[0]) || s[0] == '-' || s[0] == '+')
  {
    if |s| == 0 then None
    else if s[0] == '-' || s[0] == '+' then
      if |s| == 1 || !AllDigits(s[1..]) then None
      else
        var magnitude: int := DigitsValue(s[1..]);
        var v: int := if s[0] == '-' then -magnitude else magnitude;
        if JavaArith.IsInt(v) then Some(v) else None
    else if AllDigits(s) then
      var v := DigitsValue(s);
      if v <= JavaArith.MaxInt then Some(v) else None
    else None
  }

  /**
   * What `Integer.parseInt` accepts, stated on the text after the sign: it
   * succeeds exactly when at least one ASCII digit, and nothing else, follows
   * an optional sign and the signed value fits an `int`, and it returns that value.
   */
  lemma ParseIntSpec(s: string)
    ensures ParseInt(s).Some? <==>
      && 1 <= |Unsigned(s)| && AllDigits(Unsigned(s))
      && JavaArith.IsInt(SignedValue(s))
    ensures ParseInt(s).Some? ==> ParseInt(s).value == SignedValue(s)
  {
    if |s| > 0 && (s[0] == '-' || s[0] == '+') {
      assert Unsigned(s) == s[1..];
    } else {
      assert Unsigned(s) == s && !Negative(s);
    }
  }

  /** A trailing non-digit and a lone sign are rejected; a leading plus sign is accepted. */
  lemma ParseIntExamples()
    ensures ParseInt("1x") == None
    ensures ParseInt("-") == None
    ensures ParseInt("+7") == Some(7)
  {
    assert !IsDigit("1x"[1]);
    assert "+7"[1..] == "7" && "7"[..0] == "";
  }

  /** Parsing the rendering of a number gives it back when it fits in an `int`, and fails otherwise. */
  lemma ParseIntToString(i: int)
    ensures ParseInt(IntToString(i)) == if JavaArith.IsInt(i) then Some(i) else None
  {
    if i < 0 {
      var s := IntToString(i);
      assert s[1..] == NatToString(-i);
    }
  }

  /** Rendering is injective on `int`s, so distinct slots get distinct names. */
  lemma IntToStringInjective(i: int, j: int)
    requires JavaArith.IsInt(i) && JavaArith.IsInt(j)
    requires IntToString(i) == IntToString(j)
    ensures i == j
  {
    ParseIntToString(i);
    ParseIntToString(j);
  }
}
