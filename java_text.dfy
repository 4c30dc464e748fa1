/** The few pieces of java.lang the client relies on to turn numbers and
    booleans into request parameters and back: `Integer.toString`,
    `Integer.parseInt` and `Boolean.toString`. */
module JavaText {
  import opened Wrappers

  /** Java's `int`. */
  type int32 = x: int | -0x8000_0000 <= x < 0x8000_0000

  predicate IsDigit(c: char) {
    '0' <= c <= '9'
  }

  predicate AllDigits(s: string) {
    forall c <- s :: IsDigit(c)
  }

  function DigitValue(c: char): (d: nat)
    requires IsDigit(c)
    ensures d < 10
  {
    c as int - '0' as int
  }

  function DigitChar(d: nat): (c: char)
    requires d < 10
    ensures IsDigit(c) && DigitValue(c) == d
  {
    ('0' as int + d) as char
  }

  /** The decimal digits of `n`, most significant first, with no leading zero. */
  function NatToString(n: nat): (s: string)
    ensures |s| >= 1 && AllDigits(s)
    ensures IsDigit(s[0]) && (n >= 10 ==> s[0] != '0')
  {
    if n < 10 then [DigitChar(n)] else NatToString(n / 10) + [DigitChar(n % 10)]
  }

  /** The number a string of decimal digits denotes. */
  function DigitsValue(s: string): nat
    requires AllDigits(s)
  {
    if s == [] then 0 else DigitsValue(s[..|s| - 1]) * 10 + DigitValue(s[|s| - 1])
  }

  /** `Integer.toString(n)`: an optional minus sign followed by the digits of |n|. */
  function IntToString(n: int): (s: string)
    ensures |s| >= 1
    ensures n < 0 <==> s[0] == '-'
    ensures AllDigits(s[1..])
  {
    if n < 0 then "-" + NatToString(-n) else NatToString(n)
  }

  /** `Boolean.toString(b)`. */
  function BoolToString(b: bool): string {
    if b then "true" else "false"
  }

  /** `Integer.parseInt(s)` in radix 10: an optional `+` or `-`, then at least
      one decimal digit, denoting a value inside Java's `int` range; anything
      else is a NumberFormatException, here `None`. */
  function ParseInt(s: string): (r: Option<int32>)
    ensures r.Some? ==> |s| >= 1 && AllDigits(s[1..]) && (IsDigit(s[0]) || s[0] == '-' || s[0] == '+')
    ensures r.Some? && s[0] == '-' ==> r.value <= 0
    ensures |s| >= 1 && AllDigits(s) && DigitsValue(s) < 0x8000_0000 ==> r == Some(DigitsValue(s))
    ensures |s| >= 1 && AllDigits(s) && DigitsValue(s) >= 0x8000_0000 ==> r.None?
    ensures |s| >= 2 && s[0] == '-' && AllDigits(s[1..]) && DigitsValue(s[1..]) <= 0x8000_0000 ==>
      r == Some(-(DigitsValue(s[1..]) as int) as int32)
    ensures |s| >= 2 && s[0] == '-' && AllDigits(s[1..]) && DigitsValue(s[1..]) > 0x8000_0000 ==> r.None?
  {
    if |s| == 0 then None
    else
      assert s[0] in s;
      var digits := if s[0] == '-' || s[0] == '+' then s[1..] else s;
      if |digits| == 0 || !AllDigits(digits) then None
      else
        var v: int := if s[0] == '-' then -(DigitsValue(digits) as int) else DigitsValue(digits);
        if -0x8000_0000 <= v < 0x8000_0000 then Some(v) else None
  }

  /** The digits `NatToString` writes denote the number they were written from. */
  lemma {:induction false} NatToStringValue(n: nat)
    ensures DigitsValue(NatToString(n)) == n
  {
    if n >= 10 {
      var s := NatToString(n);
      assert s[..|s| - 1] == NatToString(n / 10);
      NatToStringValue(n / 10);
    }
  }

  /** `Integer.parseInt(Integer.toString(n)) == n` for every Java `int`. */
  lemma ParseIntToString(n: int32)
    ensures ParseInt(IntToString(n)) == Some(n)
  {
    if n < 0 {
      NatToStringValue(-(n as int));
      assert IntToString(n)[1..] == NatToString(-(n as int));
    } else {
      NatToStringValue(n);
    }
  }

  /** Distinct numbers are written differently, so a status code written with
      `Integer.toString` identifies the code. */
  lemma IntToStringInjective(a: int32, b: int32)
    requires IntToString(a) == IntToString(b)
    ensures a == b
  {
    ParseIntToString(a);
    ParseIntToString(b);
  }
}
