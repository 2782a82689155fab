/**
 * `str::parse::<i32>` and `str::parse::<i64>`, used to turn positional
 * command-line arguments into integer call values: an optional `+` or `-`,
 * then one or more ASCII digits, and a value that fits the signed width.
 */
module Decimal {
  import opened Wrappers

  /** 2^31: i32 holds -2^31 .. 2^31 - 1. */
  const I32_BOUND: nat := 0x8000_0000
  /** 2^63: i64 holds -2^63 .. 2^63 - 1. */
  const I64_BOUND: nat := 0x8000_0000_0000_0000

  predicate IsDigit(c: char)
  {
    '0' <= c <= '9'
  }

  predicate AllDigits(s: string)
  {
    forall k :: 0 <= k < |s| ==> IsDigit(s[k])
  }

  /** The value of a string of decimal digits, most significant first. */
  function DigitsValue(s: string): nat
    requires AllDigits(s)
  {
    if s == [] then 0
    else DigitsValue(s[..|s| - 1]) * 10 + (s[|s| - 1] as int - '0' as int)
  }

  /** The text after an optional leading `+` or `-`. */
  function DigitPart(s: string): string
  {
    if |s| > 0 && (s[0] == '+' || s[0] == '-') then s[1..] else s
  }

  /** Parses a signed integer that must lie in `-bound .. bound - 1`; a lone
      sign, an empty string, a non-digit or an out-of-range value is an error. */
  function ParseSigned(s: string, bound: nat): (r: Option<int>)
    ensures r.Some? ==> -(bound as int) <= r.value < bound
    ensures r.Some? ==> |s| > 0 && (s[0] == '-' || s[0] == '+' || IsDigit(s[0]))
    ensures (s == [] || s == "+" || s == "-") ==> r.None?
    ensures r.Some? ==>
      && DigitPart(s) != [] && AllDigits(DigitPart(s))
      && DigitsValue(DigitPart(s)) == (if r.value < 0 then -r.value else r.value)
    ensures r.Some? && r.value < 0 ==> s[0] == '-'
    ensures r.Some? && r.value > 0 ==> s[0] != '-'
  {
    if s == [] then None
    else if (s[0] == '+' || s[0] == '-') && |s| == 1 then None
    else
      var digits := DigitPart(s);
      if !AllDigits(digits) then None
      else
        var magnitude := DigitsValue(digits);
        var value: int := if s[0] == '-' then -(magnitude as int) else magnitude;
        if -(bound as int) <= value < bound then Some(value) else None
  }

  /** A character other than a digit anywhere after the optional leading sign
      makes the text unparsable. */
  lemma ParseRejectsNonDigit(s: string, bound: nat, k: nat)
    requires k < |s| && !IsDigit(s[k])
    requires k > 0 || (s[0] != '+' && s[0] != '-')
    ensures ParseSigned(s, bound).None?
  {
    if s[0] == '+' || s[0] == '-' {
      assert DigitPart(s)[k - 1] == s[k];
    }
  }

  /** Unsigned digits, leading zeros included, parse to their value when it
      lies below the bound. */
  lemma ParseDigits(s: string, bound: nat)
    requires s != [] && AllDigits(s) && DigitsValue(s) < bound
    ensures ParseSigned(s, bound) == Some(DigitsValue(s))
  {
  }

  /** A minus sign followed by digits, leading zeros included, parses to the
      negated value when that is not below `-bound`. */
  lemma ParseNegative(d: string, bound: nat)
    requires 0 < bound && d != [] && AllDigits(d) && DigitsValue(d) <= bound
    ensures ParseSigned("-" + d, bound) == Some(-(DigitsValue(d) as int))
  {
    var s := "-" + d;
    assert s[0] == '-' && |s| > 1 && s[1..] == d;
  }

  /** The shortest decimal spelling of a natural number. */
  function Digits(n: nat): (s: string)
    ensures |s| > 0 && AllDigits(s)
  {
    if n < 10 then ['0' + n as char]
    else Digits(n / 10) + ['0' + (n % 10) as char]
  }

  /** How an integer is displayed: a minus sign for negatives, then its digits. */
  function Render(n: int): string
  {
    if n < 0 then "-" + Digits(-n) else Digits(n)
  }

  /** Reading back a natural number's digits gives the number. */
  lemma {:induction false} DigitsValueOfDigits(n: nat)
    ensures DigitsValue(Digits(n)) == n
  {
    if n >= 10 {
      DigitsValueOfDigits(n / 10);
      var s := Digits(n);
      assert s[..|s| - 1] == Digits(n / 10);
    }
  }

  /** Every integer of the width parses back from its displayed form. */
  lemma ParseRender(n: int, bound: nat)
    requires -(bound as int) <= n < bound
    ensures ParseSigned(Render(n), bound) == Some(n)
  {
    var s := Render(n);
    if n < 0 {
      DigitsValueOfDigits(-n);
      assert s[1..] == Digits(-n);
    } else {
      DigitsValueOfDigits(n);
    }
  }

  /** A leading `+` before any digit run, leading zeros included, is
      accepted and changes nothing. */
  lemma ParsePlus(d: string, bound: nat)
    requires d != [] && AllDigits(d) && DigitsValue(d) < bound
    ensures ParseSigned("+" + d, bound) == Some(DigitsValue(d) as int)
  {
    assert ("+" + d)[1..] == d;
  }

  /** A value one past the width's range is refused rather than wrapped. */
  lemma ParseOverflow(n: nat, bound: nat)
    requires n >= bound
    ensures ParseSigned(Digits(n), bound).None?
  {
    DigitsValueOfDigits(n);
  }

  /** A negative value below the width's range is refused rather than wrapped. */
  lemma ParseUnderflow(n: nat, bound: nat)
    requires n > bound
    ensures ParseSigned("-" + Digits(n), bound).None?
  {
    DigitsValueOfDigits(n);
    assert ("-" + Digits(n))[1..] == Digits(n);
  }
}
