/** Amounts of money. A `real` stands for a Decimal of any precision; printing rounds to two
    places, a tie going to the even neighbour. */
module Money {
  import opened Wrappers
  import opened Numerals

  function Abs(x: real): (a: real)
    ensures a >= 0.0 && (a == x || a == -x)
  {
    if x < 0.0 then -x else x
  }

  function RoundHalfEven(x: real): int {
    var low := x.Floor;
    var rest := x - low as real;
    if rest < 0.5 then low
    else if rest > 0.5 then low + 1
    else if low % 2 == 0 then low
    else low + 1
  }

  /** The nearest integer, and among two equally near ones the even one. */
  predicate IsNearest(k: int, x: real) {
    Abs(x - k as real) < 0.5 || (Abs(x - k as real) == 0.5 && k % 2 == 0)
  }

  lemma RoundIff(x: real, k: int)
    ensures RoundHalfEven(x) == k <==> IsNearest(k, x)
  {
  }

  lemma RoundNegated(x: real)
    ensures RoundHalfEven(-x) == -RoundHalfEven(x)
  {
  }

  lemma RoundMonotone(x: real, y: real)
    requires x <= y
    ensures RoundHalfEven(x) <= RoundHalfEven(y)
  {
  }

  /** An amount in whole pesewas, the hundredth part of the currency unit. */
  function Pesewas(x: real): int {
    RoundHalfEven(100.0 * x)
  }

  predicate WholePesewas(x: real) {
    (100.0 * x).Floor as real == 100.0 * x
  }

  function Magnitude(x: real): (p: nat) {
    RoundIff(100.0 * Abs(x), RoundHalfEven(100.0 * Abs(x)));
    RoundHalfEven(100.0 * Abs(x))
  }

  /** The unsigned text of p hundredths. */
  function Hundredths(p: nat): (s: string)
    ensures |s| >= 4
  {
    Decimal(p / 100) + "." + [DigitChar(p / 10 % 10), DigitChar(p % 10)]
  }

  /** Two decimal places. The sign is that of the amount before rounding, so a small
      negative amount prints as -0.00. */
  function Fixed2(x: real): (s: string)
    ensures |s| >= 4
  {
    (if x < 0.0 then "-" else "") + Hundredths(Magnitude(x))
  }

  function ReadHundredths(s: string): Option<nat> {
    var n := |s|;
    if n < 4 || s[n - 3] != '.' || !IsDigit(s[n - 2]) || !IsDigit(s[n - 1]) then None
    else match ReadDecimal(s[..n - 3])
      case None => None
      case Some(whole) => Some(100 * whole + 10 * DigitValue(s[n - 2]) + DigitValue(s[n - 1]))
  }

  datatype Signed = Signed(negative: bool, pesewas: nat)

  function ReadFixed2(s: string): Option<Signed> {
    if s == "" then None
    else
      var negative := s[0] == '-';
      match ReadHundredths(if negative then s[1..] else s)
      case None => None
      case Some(p) => Some(Signed(negative, p))
  }

  lemma {:induction false} StartsWithDigit(n: nat)
    ensures IsDigit(Decimal(n)[0])
  {
    if n >= 10 {
      StartsWithDigit(n / 10);
    }
  }

  lemma ReadBackHundredths(p: nat)
    ensures ReadHundredths(Hundredths(p)) == Some(p)
    ensures Hundredths(p)[0] != '-'
  {
    var s := Hundredths(p);
    ReadBack(p / 100);
    StartsWithDigit(p / 100);
    assert s[..|s| - 3] == Decimal(p / 100);
    SplitHundredths(p);
  }

  lemma SplitHundredths(p: nat)
    ensures p == 100 * (p / 100) + 10 * (p / 10 % 10) + p % 10
  {
    var q := p / 10;
    assert p == 10 * q + p % 10 && q == 10 * (q / 10) + q % 10;
    assert q / 10 == p / 100;
  }

  /** A text that reads as the sign of the amount and the hundredths nearest to its magnitude. */
  predicate IsFigureOf(text: string, x: real) {
    match ReadFixed2(text)
    case None => false
    case Some(Signed(negative, p)) => negative == (x < 0.0) && IsNearest(p, 100.0 * Abs(x))
  }

  lemma ReadsSigned(x: real)
    ensures ReadFixed2(Fixed2(x)) == Some(Signed(x < 0.0, Magnitude(x)))
  {
    ReadBackHundredths(Magnitude(x));
    if x < 0.0 {
      assert Fixed2(x)[1..] == Hundredths(Magnitude(x));
    } else {
      assert Fixed2(x) == Hundredths(Magnitude(x));
    }
  }

  lemma MagnitudeIsNearest(x: real)
    ensures IsNearest(Magnitude(x), 100.0 * Abs(x))
  {
    RoundIff(100.0 * Abs(x), Magnitude(x));
  }

  lemma PrintedReadsBack(x: real)
    ensures ReadFixed2(Fixed2(x)) == Some(Signed(x < 0.0, Magnitude(x)))
    ensures IsFigureOf(Fixed2(x), x)
  {
    ReadsSigned(x);
    MagnitudeIsNearest(x);
  }

  /** Every amount below 10^13, and so every Numeric(15,2) value, prints in 18 characters. */
  lemma ColumnAmountIsShort(x: real)
    requires Abs(x) < 10000000000000.0
    ensures |Fixed2(x)| <= 18
  {
    var p := Magnitude(x);
    RoundIff(100.0 * Abs(x), p);
    assert p as real < 1000000000000000.5;
    assert p <= 1000000000000000;
    DecimalLength(p / 100, 14);
    assert Pow10(14) == 10 * Pow10(13) == 100 * Pow10(12) == 1000 * Pow10(11) == 10000 * Pow10(10);
    assert Pow10(10) == 10 * Pow10(9) == 100 * Pow10(8) == 1000 * Pow10(7) == 10000 * Pow10(6);
    assert Pow10(6) == 10 * Pow10(5) == 100 * Pow10(4) == 1000 * Pow10(3) == 10000 * Pow10(2);
  }
}
