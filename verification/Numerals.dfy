/** Decimal numerals: printing, reading back, and how long they get. */
module Numerals {
  import opened Wrappers

  predicate IsDigit(c: char) {
    '0' <= c <= '9'
  }

  function DigitValue(c: char): (d: nat)
    requires IsDigit(c)
    ensures d < 10
  {
    c as int - '0' as int
  }

  function DigitChar(d: nat): (c: char)
    requires d < 10
    ensures IsDigit(c) && DigitValue(c) == d
  {
    "0123456789"[d]
  }

  /** The usual numeral, without leading zeros. */
  function Decimal(n: nat): (s: string)
    ensures |s| >= 1
  {
    if n < 10 then [DigitChar(n)] else Decimal(n / 10) + [DigitChar(n % 10)]
  }

  /** At least two digits. */
  function TwoDigits(n: nat): (s: string)
    ensures |s| >= 2
  {
    if n < 10 then "0" + Decimal(n) else Decimal(n)
  }

  /** Reads a non-empty string of digits. */
  function ReadDecimal(s: string): Option<nat>
    decreases |s|
  {
    if s == "" || !IsDigit(s[|s| - 1]) then None
    else
      var low := DigitValue(s[|s| - 1]);
      if |s| == 1 then Some(low)
      else match ReadDecimal(s[..|s| - 1])
        case None => None
        case Some(high) => Some(10 * high + low)
  }

  lemma {:induction false} ReadBack(n: nat)
    ensures ReadDecimal(Decimal(n)) == Some(n)
  {
    if n >= 10 {
      ReadBack(n / 10);
      var s := Decimal(n);
      assert s[..|s| - 1] == Decimal(n / 10);
    }
  }

  lemma TwoDigitsSplit(n: nat)
    requires n < 100
    ensures TwoDigits(n) == [DigitChar(n / 10), DigitChar(n % 10)]
  {
    if n >= 10 {
      assert Decimal(n / 10) == [DigitChar(n / 10)];
    }
  }

  function Pow10(k: nat): nat {
    if k == 0 then 1 else 10 * Pow10(k - 1)
  }

  lemma {:induction false} DecimalLength(n: nat, k: nat)
    requires k >= 1
    ensures |Decimal(n)| <= k <==> n < Pow10(k)
    decreases k
  {
    if k == 1 {
      assert Pow10(1) == 10;
    } else if n >= 10 {
      DecimalLength(n / 10, k - 1);
    } else {
      Pow10Grows(k);
    }
  }

  lemma {:induction false} Pow10Grows(k: nat)
    requires k >= 1
    ensures Pow10(k) >= 10
  {
    if k > 1 {
      Pow10Grows(k - 1);
    } else {
      assert Pow10(1) == 10;
    }
  }

  predicate AllDigits(s: string) {
    forall i :: 0 <= i < |s| ==> IsDigit(s[i])
  }

  lemma {:induction false} DecimalDigits(n: nat)
    ensures AllDigits(Decimal(n)) && AllDigits(TwoDigits(n))
  {
    if n >= 10 {
      DecimalDigits(n / 10);
    }
  }

  /** A larger number never has a shorter numeral. */
  lemma {:induction false} LengthMonotone(m: nat, n: nat)
    requires m <= n
    ensures |Decimal(m)| <= |Decimal(n)| && |TwoDigits(m)| <= |TwoDigits(n)|
  {
    if m >= 10 {
      LengthMonotone(m / 10, n / 10);
    }
  }

  lemma TwoDigitsInjective(m: nat, n: nat)
    ensures TwoDigits(m) == TwoDigits(n) <==> m == n
  {
    if TwoDigits(m) == TwoDigits(n) {
      TwoDigitsReadBack(m);
      TwoDigitsReadBack(n);
    }
  }

  lemma TwoDigitsReadBack(n: nat)
    ensures ReadDecimal(TwoDigits(n)) == Some(n)
  {
    ReadBack(n);
    if n < 10 {
      var s := TwoDigits(n);
      assert s[..1] == "0" && s[1] == DigitChar(n);
      assert ReadDecimal("0") == Some(0);
    }
  }

  /** A text together with its printed length determines the length from the total. */
  lemma LengthFromTotal(m: nat, n: nat)
    requires |TwoDigits(m)| + m == |TwoDigits(n)| + n
    ensures m == n
  {
    if m < n {
      LengthMonotone(m, n);
    } else if n < m {
      LengthMonotone(n, m);
    }
  }
}
