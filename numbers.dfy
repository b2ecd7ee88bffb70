/** 32-bit integers as the core reads and writes them: int.Parse / int.TryParse under
    NumberStyles.Integer and Int32.ToString(). */
module Numbers {

  const INT32_MIN: int := -0x8000_0000
  const INT32_MAX: int := 0x7FFF_FFFF

  /** System.Int32. */
  type Int32 = x: int | INT32_MIN <= x <= INT32_MAX

  predicate IsDigit(c: char) {
    '0' <= c <= '9'
  }

  predicate AllDigits(s: string) {
    forall i :: 0 <= i < |s| ==> IsDigit(s[i])
  }

  function DigitChar(d: nat): (c: char)
    requires d < 10
    ensures IsDigit(c)
  {
    ('0' as int + d) as char
  }

  function DigitValue(c: char): (d: nat)
    requires IsDigit(c)
    ensures d < 10 && DigitChar(d) == c
  {
    c as int - '0' as int
  }

  /** The value of a run of decimal digits, most significant digit first. */
  function DigitsValue(s: string): nat
    requires AllDigits(s)
    decreases |s|
  {
    if s == [] then 0 else DigitsValue(s[..|s| - 1]) * 10 + DigitValue(s[|s| - 1])
  }

  /** The shortest decimal digits of `n` ("0" for zero). */
  function NatToDigits(n: nat): string
    decreases n
  {
    if n < 10 then [DigitChar(n)] else NatToDigits(n / 10) + [DigitChar(n % 10)]
  }

  /** The digits of `n` read back as `n`. */
  lemma {:induction false} NatToDigitsValue(n: nat)
    ensures |NatToDigits(n)| >= 1 && AllDigits(NatToDigits(n))
    ensures DigitsValue(NatToDigits(n)) == n
    decreases n
  {
    if n >= 10 {
      NatToDigitsValue(n / 10);
      var s := NatToDigits(n);
      assert s[..|s| - 1] == NatToDigits(n / 10);
    }
  }

  /** Int32.ToString() under an invariant culture: '-' then the digits for a negative value. */
  function FormatInt(n: int): string {
    if n < 0 then "-" + NatToDigits(-n) else NatToDigits(n)
  }

  /** The white space NumberStyles.AllowLeadingWhite / AllowTrailingWhite accept. */
  predicate IsNumberWhite(c: char) {
    '\t' <= c <= '\r' || c == ' '
  }

  function StripLeadingWhite(s: string): string
    decreases |s|
  {
    if s != [] && IsNumberWhite(s[0]) then StripLeadingWhite(s[1..]) else s
  }

  function StripTrailingWhite(s: string): string
    decreases |s|
  {
    if s != [] && IsNumberWhite(s[|s| - 1]) then StripTrailingWhite(s[..|s| - 1]) else s
  }

  /** How int.Parse ends: a value, a FormatException or an OverflowException. */
  datatype IntParse = Parsed(value: Int32) | BadFormat | TooLarge

  /** int.Parse(s) with NumberStyles.Integer: optional white space, an optional sign,
      one or more ASCII digits, optional white space; a value outside Int32 overflows. */
  function ParseInt(s: string): IntParse {
    var t := StripTrailingWhite(StripLeadingWhite(s));
    var signed := t != [] && (t[0] == '-' || t[0] == '+');
    var digits := if signed then t[1..] else t;
    if digits == [] || !AllDigits(digits) then BadFormat
    else
      var magnitude: int := DigitsValue(digits);
      var v: int := if signed && t[0] == '-' then -magnitude else magnitude;
      if INT32_MIN <= v <= INT32_MAX then Parsed(v) else TooLarge
  }

  /** ToString's text starts with '-' or a digit and ends with a digit. */
  lemma FormatIntShape(n: int)
    ensures var s := FormatInt(n); var m := if n < 0 then -n else n;
      && s != [] && !IsNumberWhite(s[0]) && !IsNumberWhite(s[|s| - 1]) && s[0] != '+'
      && (n < 0 ==> s[0] == '-' && s[1..] == NatToDigits(m))
      && (n >= 0 ==> s == NatToDigits(m) && s[0] != '-')
      && AllDigits(NatToDigits(m)) && DigitsValue(NatToDigits(m)) == m
  {
    var m := if n < 0 then -n else n;
    NatToDigitsValue(m);
    var digits := NatToDigits(m);
    assert IsDigit(digits[0]) && IsDigit(digits[|digits| - 1]);
  }

  /** A text with no white space at either end is left as it is. */
  lemma StripNothing(s: string)
    requires s != [] && !IsNumberWhite(s[0]) && !IsNumberWhite(s[|s| - 1])
    ensures StripTrailingWhite(StripLeadingWhite(s)) == s
  {
  }

  /** What Int32.ToString() writes, int.Parse reads back; a value outside the Int32 range,
      written the same way, overflows. */
  lemma FormatParseInt(n: int)
    ensures ParseInt(FormatInt(n)) == if INT32_MIN <= n <= INT32_MAX then Parsed(n) else TooLarge
  {
    FormatIntShape(n);
    StripNothing(FormatInt(n));
  }
}
