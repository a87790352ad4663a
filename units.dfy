/** The CSS length formatters of util.js: `px`, `pc` and `em` write a
    number in decimal and append a unit. Numbers are integers here. */
module Units {
  import opened Wrappers

  predicate IsDigit(c: char) {
    '0' <= c <= '9'
  }

  predicate AllDigits(s: string) {
    forall k :: 0 <= k < |s| ==> IsDigit(s[k])
  }

  function DigitChar(d: nat): (c: char)
    requires d < 10
    ensures IsDigit(c)
  {
    "0123456789"[d]
  }

  function DigitValue(c: char): (d: nat)
    requires IsDigit(c)
    ensures d < 10
  {
    (c as int - '0' as int) as nat
  }

  /** The decimal digits of `n`, most significant first, with no leading
      zero (`(n).toString()` for a non-negative integer). */
  function NatToString(n: nat): (s: string)
    ensures |s| >= 1 && AllDigits(s)
    ensures |s| > 1 ==> s[0] != '0'
  {
    if n < 10 then [DigitChar(n)] else NatToString(n / 10) + [DigitChar(n % 10)]
  }

  /** `(num).toString()` for an integer: a minus sign before the digits of
      a negative number. */
  function IntToString(i: int): (s: string)
    ensures |s| >= 1
    ensures (i < 0) == (s[0] == '-')
  {
    if i < 0 then "-" + NatToString(-i) else NatToString(i)
  }

  /** The value of a string of decimal digits. */
  function DigitsValue(s: string): (n: nat)
    requires AllDigits(s)
  {
    if |s| == 0 then 0 else DigitsValue(s[..|s| - 1]) * 10 + DigitValue(s[|s| - 1])
  }

  /** Reading a decimal integer back: an optional minus sign, then one or
      more digits. */
  function ParseInt(s: string): (r: Option<int>)
    ensures r.Some? ==> |s| >= 1
  {
    if |s| >= 2 && s[0] == '-' && AllDigits(s[1..]) then
      Some(0 - DigitsValue(s[1..]) as int)
    else if |s| >= 1 && AllDigits(s) then
      Some(DigitsValue(s))
    else None
  }

  lemma DigitRoundTrip(d: nat)
    requires d < 10
    ensures DigitValue(DigitChar(d)) == d
  {
  }

  lemma {:induction false} NatRoundTrip(n: nat)
    ensures DigitsValue(NatToString(n)) == n
  {
    var s := NatToString(n);
    if n < 10 {
      DigitRoundTrip(n);
      assert s[..0] == [];
    } else {
      assert s[..|s| - 1] == NatToString(n / 10);
      NatRoundTrip(n / 10);
      DigitRoundTrip(n % 10);
    }
  }

  /** The decimal string of an integer reads back as that integer. */
  lemma IntRoundTrip(i: int)
    ensures ParseInt(IntToString(i)) == Some(i)
  {
    if i < 0 {
      var digits := NatToString(-i);
      assert IntToString(i) == "-" + digits;
      assert ("-" + digits)[1..] == digits;
      NatRoundTrip(-i);
    } else {
      var digits := NatToString(i);
      assert IntToString(i) == digits && IsDigit(digits[0]);
      NatRoundTrip(i);
    }
  }

  /** Different integers get different strings. */
  lemma IntToStringInjective(i: int, j: int)
    requires IntToString(i) == IntToString(j)
    ensures i == j
  {
    IntRoundTrip(i);
    IntRoundTrip(j);
  }

  /** `num.toString()` followed by `unit`. */
  function WithUnit(num: int, unit: string): (r: string)
    ensures |r| == |IntToString(num)| + |unit|
    ensures r[|r| - |unit|..] == unit
    ensures ParseInt(r[..|r| - |unit|]) == Some(num)
  {
    IntRoundTrip(num);
    var r := IntToString(num) + unit;
    assert r[..|r| - |unit|] == IntToString(num);
    r
  }

  /** `px(num)`: the number, then `px`. */
  function Px(num: int): (r: string)
    ensures |r| > 2 && r[|r| - 2..] == "px" && ParseInt(r[..|r| - 2]) == Some(num)
  {
    WithUnit(num, "px")
  }

  /** `pc(num)`: the number, then `%`. */
  function Pc(num: int): (r: string)
    ensures |r| > 1 && r[|r| - 1..] == "%" && ParseInt(r[..|r| - 1]) == Some(num)
  {
    WithUnit(num, "%")
  }

  /** `em(num)`: the number, then `em`. */
  function Em(num: int): (r: string)
    ensures |r| > 2 && r[|r| - 2..] == "em" && ParseInt(r[..|r| - 2]) == Some(num)
  {
    WithUnit(num, "em")
  }

  /** `px(12)` is `"12px"` and `pc(-50)` is `"-50%"`. */
  lemma FormatExamples()
    ensures Px(12) == "12px" && Pc(-50) == "-50%"
  {
    assert NatToString(12) == NatToString(1) + [DigitChar(2)] == "12";
    assert NatToString(50) == NatToString(5) + [DigitChar(0)] == "50";
  }
}
