/** Java's 32-bit `int` and its decimal rendering by `String.valueOf(int)`. */
module JavaInt {

  const IntMin: int := -0x8000_0000
  const IntMax: int := 0x7FFF_FFFF

  /** The values of a Java `int`. */
  type int32 = x: int | IntMin <= x <= IntMax

  predicate IsDigit(c: char) {
    '0' <= c <= '9'
  }

  function DigitChar(d: int): (c: char)
    requires 0 <= d < 10
    ensures IsDigit(c) && (c as int) - ('0' as int) == d
  {
    (('0' as int) + d) as char
  }

  /** The shortest decimal numeral of `n`: no sign, no leading zero. */
  function NatToDecimal(n: nat): (s: string)
    ensures |s| >= 1
    ensures forall i :: 0 <= i < |s| ==> IsDigit(s[i])
    ensures |s| > 1 ==> s[0] != '0'
    ensures s[0] == '0' ==> n == 0
  {
    if n < 10 then [DigitChar(n)] else NatToDecimal(n / 10) + [DigitChar(n % 10)]
  }

  /**
   * `String.valueOf(int)`: the decimal numeral, led by `-` exactly for a
   * negative value, and canonical: no digit run starts with a superfluous `0`.
   */
  function ValueOf(n: int32): (s: string)
    ensures s != [] && (s[0] == '-' <==> n < 0)
    ensures s[0] == '-' ==> |s| > 1 && s[1] != '0'
    ensures s[0] != '-' && |s| > 1 ==> s[0] != '0'
  {
    if n < 0 then "-" + NatToDecimal(-(n as int)) else NatToDecimal(n)
  }

  /** The value of a string of decimal digits, most significant first. */
  function DigitsValue(s: string): int
    requires forall i :: 0 <= i < |s| ==> IsDigit(s[i])
  {
    if s == [] then 0
    else 10 * DigitsValue(s[..|s| - 1]) + ((s[|s| - 1] as int) - ('0' as int))
  }

  /** Reads back a numeral in the form `ValueOf` writes: optional `-`, then digits. */
  function ParseDecimal(s: string): int
    requires s != [] && (forall i :: 0 < i < |s| ==> IsDigit(s[i]))
    requires s[0] == '-' || IsDigit(s[0])
  {
    if s[0] == '-' then -DigitsValue(s[1..]) else DigitsValue(s)
  }

  lemma {:induction false} DigitsValueOfNatToDecimal(n: nat)
    ensures DigitsValue(NatToDecimal(n)) == n
  {
    var s := NatToDecimal(n);
    if n >= 10 {
      DigitsValueOfNatToDecimal(n / 10);
      assert s[..|s| - 1] == NatToDecimal(n / 10);
    }
  }

  /** `String.valueOf(int)` loses nothing: the numeral reads back as the number. */
  lemma ValueOfRoundTrip(n: int32)
    ensures var s := ValueOf(n);
      s != [] && (forall i :: 0 < i < |s| ==> IsDigit(s[i])) && (s[0] == '-' || IsDigit(s[0]))
      && ParseDecimal(s) == n
  {
    var s := ValueOf(n);
    if n < 0 {
      DigitsValueOfNatToDecimal(-(n as int));
      assert s[1..] == NatToDecimal(-(n as int));
    } else {
      DigitsValueOfNatToDecimal(n);
    }
  }

  /** Two different page counts never render to the same text. */
  lemma ValueOfInjective(m: int32, n: int32)
    requires ValueOf(m) == ValueOf(n)
    ensures m == n
  {
    ValueOfRoundTrip(m);
    ValueOfRoundTrip(n);
  }
}
