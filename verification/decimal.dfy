/** Decimal rendering of integers, as Rust's `Display` for `i64` writes an
    id into the bulk-import statement, together with the parser it must be
    readable by. */
module Decimal {
  import opened Wrappers

  predicate IsDigit(c: char) {
    '0' <= c <= '9'
  }

  predicate AllDigits(s: string) {
    forall i :: 0 <= i < |s| ==> IsDigit(s[i])
  }

  function DigitChar(d: nat): char
    requires d < 10
  {
    ('0' as int + d) as char
  }

  /** Decimal digits of `n`, most significant first, with no leading zero. */
  function NatToString(n: nat): (s: string)
    ensures |s| >= 1
    ensures AllDigits(s)
    ensures s[0] == '0' ==> n == 0 && |s| == 1
    decreases n
  {
    if n < 10 then [DigitChar(n)] else NatToString(n / 10) + [DigitChar(n % 10)]
  }

  /** `format!("{}", n)`: a minus sign for negative numbers, then the digits
      of the magnitude. */
  function IntToString(n: int): (s: string)
    ensures |s| >= 1
    ensures n < 0 <==> s[0] == '-'
    ensures n >= 0 ==> AllDigits(s)
    ensures n < 0 ==> |s| >= 2 && AllDigits(s[1..])
    ensures s[0] == '0' ==> s == "0"
    ensures n < 0 ==> s[1] != '0'
  {
    if n < 0 then "-" + NatToString(-n) else NatToString(n)
  }

  /** The value of a string of decimal digits. */
  function DigitsValue(s: string): nat
    requires AllDigits(s)
    decreases |s|
  {
    if |s| == 0 then 0
    else DigitsValue(s[..|s| - 1]) * 10 + (s[|s| - 1] as int - '0' as int)
  }

  /** Reads an optionally negative decimal integer; `None` for anything
      else. */
  function ParseInt(s: string): Option<int>
  {
    if |s| >= 2 && s[0] == '-' && AllDigits(s[1..]) then Some(0 - DigitsValue(s[1..]) as int)
    else if |s| >= 1 && AllDigits(s) then Some(DigitsValue(s))
    else None
  }

  lemma {:induction false} NatToStringValue(n: nat)
    ensures DigitsValue(NatToString(n)) == n
    decreases n
  {
    var s := NatToString(n);
    if n >= 10 {
      NatToStringValue(n / 10);
      assert s[..|s| - 1] == NatToString(n / 10);
    }
  }

  /** Every id written into a statement reads back as the same number. */
  lemma IntToStringRoundTrip(n: int)
    ensures ParseInt(IntToString(n)) == Some(n)
  {
    if n < 0 {
      var t := NatToString(-n);
      var s := "-" + t;
      assert s[0] == '-';
      assert s[1..] == t;
      NatToStringValue(-n);
      assert ParseInt(s) == Some(0 - DigitsValue(t) as int);
    } else {
      var s := NatToString(n);
      assert IsDigit(s[0]);
      NatToStringValue(n);
      assert ParseInt(s) == Some(DigitsValue(s) as int);
    }
  }
}
