/**
 * Python's conversions between int and str, as far as the release code uses them:
 * `str(n)`, `"%02d" % n`, `int(s)` and the slices `s[-2:]` and `s[2:]`.
 */
module Decimal {
  import opened Outcomes

  predicate IsDigit(c: char) {
    '0' <= c <= '9'
  }

  predicate AllDigits(s: string) {
    forall i :: 0 <= i < |s| ==> IsDigit(s[i])
  }

  function DigitValue(c: char): (d: nat)
    requires IsDigit(c)
    ensures d < 10
  {
    c as int - '0' as int
  }

  function DigitChar(d: int): (c: char)
    requires 0 <= d < 10
    ensures IsDigit(c) && DigitValue(c) == d
  {
    ('0' as int + d) as char
  }

  /** `str(n)` for a non-negative n: its decimal digits, without leading zeros. */
  function NatToString(n: nat): (s: string)
    ensures |s| >= 1 && AllDigits(s)
    ensures s[0] == '0' ==> n == 0
    ensures n >= 10 ==> |s| >= 2
  {
    if n < 10 then [DigitChar(n)] else NatToString(n / 10) + [DigitChar(n % 10)]
  }

  /** `str(n)`: a minus sign for negative numbers, then the digits of |n|. */
  function IntToString(n: int): (s: string)
    ensures |s| >= 1
    ensures s[0] == '-' <==> n < 0
    ensures forall i :: 0 < i < |s| ==> IsDigit(s[i])
  {
    if n < 0 then "-" + NatToString(-n) else NatToString(n)
  }

  /** `"%02d" % n`: zero-padded on the left to a width of two characters. */
  function Pad2(n: int): (s: string)
    ensures |s| >= 2
  {
    if 0 <= n < 10 then ['0', DigitChar(n)] else IntToString(n)
  }

  /** Below 100, `"%02d"` gives exactly the tens digit and the units digit. */
  lemma Pad2TwoDigits(n: int)
    requires 0 <= n < 100
    ensures Pad2(n) == [DigitChar(n / 10), DigitChar(n % 10)]
  {
    if n >= 10 {
      assert NatToString(n) == NatToString(n / 10) + [DigitChar(n % 10)];
      assert NatToString(n / 10) == [DigitChar(n / 10)];
    }
  }

  /** The value of a string of decimal digits, leading zeros allowed. */
  function DigitsValue(s: string): nat
    requires AllDigits(s)
  {
    if s == [] then 0 else DigitsValue(s[..|s| - 1]) * 10 + DigitValue(s[|s| - 1])
  }

  /**
   * `int(s)` on the strings this program builds: one or more ASCII digits,
   * optionally after a minus sign; anything else raises ValueError, here None.
   */
  function ParseInt(s: string): Option<int> {
    if |s| >= 1 && AllDigits(s) then Some(DigitsValue(s))
    else if |s| >= 2 && s[0] == '-' && AllDigits(s[1..]) then Some(-(DigitsValue(s[1..]) as int))
    else None
  }

  /** `s[-2:]`: the last two characters, or all of a shorter string. */
  function TakeLast2(s: string): string {
    if |s| < 2 then s else s[|s| - 2..]
  }

  /** `s[2:]`: everything after the first two characters. */
  function Drop2(s: string): string {
    if |s| < 2 then "" else s[2..]
  }

  lemma {:induction false} NatToStringRoundTrip(n: nat)
    ensures DigitsValue(NatToString(n)) == n
    decreases n
  {
    if n >= 10 {
      var s := NatToString(n);
      assert s[..|s| - 1] == NatToString(n / 10);
      NatToStringRoundTrip(n / 10);
    }
  }

  /** `int(str(n)) == n` for every integer n. */
  lemma IntToStringRoundTrip(n: int)
    ensures ParseInt(IntToString(n)) == Some(n)
  {
    if n < 0 {
      var t := NatToString(-n);
      assert ("-" + t)[1..] == t;
      assert !IsDigit(("-" + t)[0]);
      NatToStringRoundTrip(-n);
    } else {
      NatToStringRoundTrip(n);
    }
  }

  /** `int("%02d" % n) == n` for every integer n: the padding never changes the value. */
  lemma Pad2RoundTrip(n: int)
    ensures ParseInt(Pad2(n)) == Some(n)
  {
    if 0 <= n < 10 {
      var s := Pad2(n);
      assert s[..1] == "0";
      assert DigitsValue(s[..1]) == 0 by {
        assert s[..1][..0] == [];
      }
    } else {
      IntToStringRoundTrip(n);
    }
  }

  /** The digit count of `str(n)`, by magnitude. */
  lemma {:induction false} NatToStringLength(n: nat)
    ensures n < 10 ==> |NatToString(n)| == 1
    ensures 10 <= n < 100 ==> |NatToString(n)| == 2
    ensures 100 <= n < 1000 ==> |NatToString(n)| == 3
    ensures 1000 <= n < 10000 ==> |NatToString(n)| == 4
    ensures 10000 <= n ==> |NatToString(n)| >= 5
    decreases n
  {
    if n >= 10 {
      NatToStringLength(n / 10);
    }
  }

  lemma TensAndUnits(n: nat)
    ensures (n % 100) / 10 == (n / 10) % 10 && (n % 100) % 10 == n % 10
  {
    var q, r := n / 100, n % 100;
    var t, u := r / 10, r % 10;
    DivModTen(n, 10 * q + t, u);
    DivModTen(n / 10, q, t);
  }

  /** Division by ten with remainder is unique. */
  lemma DivModTen(n: int, q: int, r: int)
    requires n == 10 * q + r && 0 <= r < 10
    ensures n / 10 == q && n % 10 == r
  {
  }

  /** The last two characters of `str(n)` are the two-digit form of n mod 100 once n has two digits. */
  lemma LastTwoDigits(n: int)
    requires n >= 10
    ensures TakeLast2(IntToString(n)) == Pad2(n % 100)
  {
    var s := NatToString(n);
    var t := NatToString(n / 10);
    assert s == t + [DigitChar(n % 10)];
    assert t[|t| - 1] == DigitChar((n / 10) % 10) by {
      if n / 10 >= 10 {
        assert t == NatToString(n / 10 / 10) + [DigitChar((n / 10) % 10)];
      }
    }
    Pad2TwoDigits(n % 100);
    TensAndUnits(n);
    assert TakeLast2(s) == [t[|t| - 1], DigitChar(n % 10)];
  }
}
