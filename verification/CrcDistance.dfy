/** The order of x modulo the generator, and with it the distance of the code: errors in
    one, two or three bits of a message of at most 32767 bits never go undetected. */
module CrcDistance {
  import opened Bits
  import opened CrcRegister

  // ---- Powers of x as sixteen separate coefficients ----

  datatype Word = Word(bF: bool, bE: bool, bD: bool, bC: bool, bB: bool, bA: bool, b9: bool, b8: bool,
                       b7: bool, b6: bool, b5: bool, b4: bool, b3: bool, b2: bool, b1: bool, b0: bool)

  const UNIT := Word(false, false, false, false, false, false, false, false,
                     false, false, false, false, false, false, false, true)

  function X(w: Word): Word {
    Word(w.bE, w.bD, w.bC, w.bB != w.bF, w.bA, w.b9, w.b8, w.b7,
         w.b6, w.b5, w.b4 != w.bF, w.b3, w.b2, w.b1, w.b0, w.bF)
  }

  function Pow(n: nat): Word {
    if n == 0 then UNIT else X(Pow(n - 1))
  }

  /** The square of a polynomial, reduced modulo the generator: squaring only spreads the
      coefficients out, so each coefficient of the result is a sum of a few of the old ones. */
  function Square(w: Word): Word {
    Word(w.bD,
         ((w.b7 != w.b9) != w.bB) != w.bD,
         w.bC,
         ((w.b6 != w.b8) != w.bA) != w.bC,
         (w.bB != w.bD) != w.bF,
         (w.b5 != w.bD) != w.bF,
         (w.bA != w.bC) != w.bE,
         ((w.b4 != w.bC) != w.bE) != w.bF,
         ((w.b9 != w.bB) != w.bD) != w.bF,
         (((w.b3 != w.bB) != w.bD) != w.bE) != w.bF,
         ((w.b8 != w.bA) != w.bC) != w.bE,
         ((w.b2 != w.bA) != w.bC) != w.bE,
         w.bF,
         (((w.b1 != w.b9) != w.bB) != w.bD) != w.bF,
         w.bE,
         (((w.b0 != w.b8) != w.bA) != w.bC) != w.bE)
  }

  lemma SquareX0(w: Word)
    ensures Square(X(w)).bF == X(X(Square(w))).bF
    ensures Square(X(w)).bE == X(X(Square(w))).bE
    ensures Square(X(w)).bD == X(X(Square(w))).bD
    ensures Square(X(w)).bC == X(X(Square(w))).bC
  {
  }

  lemma SquareX1(w: Word)
    ensures Square(X(w)).bB == X(X(Square(w))).bB
    ensures Square(X(w)).bA == X(X(Square(w))).bA
    ensures Square(X(w)).b9 == X(X(Square(w))).b9
    ensures Square(X(w)).b8 == X(X(Square(w))).b8
  {
  }

  lemma SquareX2(w: Word)
    ensures Square(X(w)).b7 == X(X(Square(w))).b7
    ensures Square(X(w)).b6 == X(X(Square(w))).b6
    ensures Square(X(w)).b5 == X(X(Square(w))).b5
    ensures Square(X(w)).b4 == X(X(Square(w))).b4
  {
  }

  lemma SquareX3(w: Word)
    ensures Square(X(w)).b3 == X(X(Square(w))).b3
    ensures Square(X(w)).b2 == X(X(Square(w))).b2
    ensures Square(X(w)).b1 == X(X(Square(w))).b1
    ensures Square(X(w)).b0 == X(X(Square(w))).b0
  {
  }

  /** (x * w)^2 = x^2 * w^2. */
  lemma SquareX(w: Word)
    ensures Square(X(w)) == X(X(Square(w)))
  {
    SquareX0(w);
    SquareX1(w);
    SquareX2(w);
    SquareX3(w);
  }

  lemma {:induction false} Twice(n: nat)
    ensures Pow(2 * n) == Square(Pow(n))
    ensures Pow(2 * n + 1) == X(Square(Pow(n)))
  {
    if n > 0 {
      Twice(n - 1);
      SquareX(Pow(n - 1));
      assert Pow(2 * n - 1) == X(Pow(2 * n - 2));
      assert Pow(2 * n) == X(Pow(2 * n - 1));
    }
  }

  lemma Pow217()
    ensures Pow(217) != UNIT
  {
    assert Pow(0) == UNIT;
    Twice(0); Twice(1); Twice(3); Twice(6); Twice(13); Twice(27);
    Twice(54); Twice(108);
  }

  lemma Pow1057()
    ensures Pow(1057) != UNIT
  {
    assert Pow(0) == UNIT;
    Twice(0); Twice(1); Twice(2); Twice(4); Twice(8); Twice(16);
    Twice(33); Twice(66); Twice(132); Twice(264); Twice(528);
  }

  lemma Pow4681()
    ensures Pow(4681) != UNIT
  {
    assert Pow(0) == UNIT;
    Twice(0); Twice(1); Twice(2); Twice(4); Twice(9); Twice(18);
    Twice(36); Twice(73); Twice(146); Twice(292); Twice(585); Twice(1170);
    Twice(2340);
  }

  lemma Pow32767()
    ensures Pow(32767) == UNIT
  {
    assert Pow(0) == UNIT;
    Twice(0); Twice(1); Twice(3); Twice(7); Twice(15); Twice(31);
    Twice(63); Twice(127); Twice(255); Twice(511); Twice(1023); Twice(2047);
    Twice(4095); Twice(8191); Twice(16383);
  }

  // ---- The register and the words ----

  function ToWord(b: Bits): Word
    requires |b| == 16
  {
    Word(b[0], b[1], b[2], b[3], b[4], b[5], b[6], b[7],
         b[8], b[9], b[10], b[11], b[12], b[13], b[14], b[15])
  }

  const ONE: Bits := Zeros(15) + [true]

  lemma StepIsX(b: Bits)
    requires |b| == 16
    ensures ToWord(Step(b, false)) == X(ToWord(b))
  {
  }

  lemma OnlyOneIsUnit(b: Bits)
    requires |b| == 16
    ensures ToWord(b) == UNIT <==> b == ONE
  {
  }

  lemma {:induction false} PowIsFeed(n: nat)
    ensures ToWord(Feed(ONE, Zeros(n))) == Pow(n)
  {
    if n > 0 {
      PowIsFeed(n - 1);
      FeedSnoc(ONE, Zeros(n - 1), false);
      assert Zeros(n) == Zeros(n - 1) + [false];
      StepIsX(Feed(ONE, Zeros(n - 1)));
    }
  }

  // ---- The order of x ----

  /** x^n = 1 modulo the generator. */
  ghost predicate Period(n: nat) {
    Pow(n) == UNIT
  }

  lemma PeriodIsFeed(n: nat)
    ensures Period(n) <==> Feed(ONE, Zeros(n)) == ONE
  {
    PowIsFeed(n);
    OnlyOneIsUnit(Feed(ONE, Zeros(n)));
  }

  lemma FeedZerosAdd(r: Bits, m: nat, n: nat)
    requires |r| == 16
    ensures Feed(r, Zeros(m + n)) == Feed(Feed(r, Zeros(m)), Zeros(n))
  {
    assert Zeros(m + n) == Zeros(m) + Zeros(n);
    FeedConcat(r, Zeros(m), Zeros(n));
  }

  lemma PeriodDifference(m: nat, n: nat)
    requires Period(m) && m <= n
    ensures Period(n) <==> Period(n - m)
  {
    FeedZerosAdd(ONE, m, n - m);
    PeriodIsFeed(m);
    PeriodIsFeed(n);
    PeriodIsFeed(n - m);
  }

  lemma {:induction false} PeriodMultiple(m: nat, k: nat)
    requires Period(m)
    ensures Period(m * k)
    decreases k
  {
    if k == 0 {
      assert m * k == 0;
    } else {
      PeriodMultiple(m, k - 1);
      assert m * k - m == m * (k - 1);
      PeriodDifference(m, m * k);
    }
  }

  /** p has no proper divisor from 2 up to n. */
  predicate NoDivisor(p: nat, n: nat) {
    n <= 1 || (p % n != 0 && NoDivisor(p, n - 1))
  }

  lemma {:induction false} NoDivisorAt(p: nat, n: nat, k: nat)
    requires NoDivisor(p, n) && 2 <= k <= n
    ensures p % k != 0
  {
    if k < n {
      NoDivisorAt(p, n - 1, k);
    }
  }

  ghost predicate Prime(p: nat) {
    p >= 2 && forall k :: 2 <= k < p ==> p % k != 0
  }

  /** It is enough to try the divisors up to the square root. */
  lemma SmallestDivisor(p: nat, n: nat)
    requires p >= 2 && NoDivisor(p, n) && p < (n + 1) * (n + 1)
    ensures Prime(p)
  {
    forall k | 2 <= k < p ensures p % k != 0 {
      NoSmallDivisor(p, n, k);
    }
  }

  lemma NoSmallDivisor(p: nat, n: nat, k: nat)
    requires NoDivisor(p, n) && p < (n + 1) * (n + 1) && 2 <= k < p
    ensures p % k != 0
  {
    if p % k == 0 {
      var h := p / k;
      assert p == k * h;
      if k <= n {
        NoDivisorAt(p, n, k);
      } else {
        Cofactor(p, k, h, n);
        NoDivisorAt(p, n, h);
      }
    }
  }

  lemma ProductGrows(a: nat, b: nat, c: nat, d: nat)
    requires a <= c && b <= d
    ensures a * b <= c * d
  {
  }

  lemma Cofactor(p: nat, k: nat, h: nat, n: nat)
    requires p == k * h && n < k < p < (n + 1) * (n + 1)
    ensures 2 <= h <= n && p % h == 0
  {
    if h > n {
      ProductGrows(n + 1, n + 1, k, h);
    }
    assert h != 0 && h != 1;
    ExactMultiple(p, h, k);
  }

  /** Euclid's algorithm on two periods c*p and c*k, for a prime p not dividing k. */
  lemma {:induction false} Descend(c: nat, p: nat, k: nat)
    requires Prime(p)
    requires 0 < k < p
    requires Period(c * p) && Period(c * k)
    ensures Period(c)
    decreases k
  {
    if k == 1 {
      assert c * 1 == c;
    } else {
      var q, r := p / k, p % k;
      PeriodMultiple(c * k, q);
      assert c * p == (c * k) * q + c * r by {
        assert p == k * q + r;
      }
      PeriodDifference((c * k) * q, c * p);
      Descend(c, p, r);
    }
  }

  /** If p*c is a period and so is n, with p prime and not dividing n, then c is one. */
  lemma DropPrime(c: nat, p: nat, n: nat)
    requires Prime(p)
    requires n % p != 0
    requires Period(c * p) && Period(n)
    ensures Period(c)
  {
    var q, r := n / p, n % p;
    PeriodMultiple(n, c);
    PeriodMultiple(c * p, q);
    assert n * c == (c * p) * q + c * r by {
      assert n == p * q + r;
    }
    PeriodDifference((c * p) * q, n * c);
    Descend(c, p, r);
  }

  /** Two factors with a Bezout identity u*a + v*b = 1 divide together. */
  lemma DivideTogether(n: nat, a: nat, b: nat, u: int, v: int)
    requires a > 0 && b > 0 && u * a + v * b == 1
    requires n % a == 0 && n % b == 0
    ensures n % (a * b) == 0
  {
    var i, j := n / a, n / b;
    var m := u * j + v * i;
    assert n == (a * b) * m by {
      assert n == a * i && n == b * j;
      assert n == n * (u * a + v * b) == u * a * n + v * b * n;
      assert u * a * n == (a * b) * (u * j);
      assert v * b * n == (a * b) * (v * i);
    }
    ExactMultiple(n, a * b, m);
  }

  lemma ExactMultiple(n: nat, d: nat, m: int)
    requires d > 0 && n == d * m
    ensures n % d == 0
  {
    var t := m - n / d;
    assert d * t == n % d;
    if t > 0 {
      ProductGrows(d, 1, d, t);
    } else if t < 0 {
      ProductGrows(d, 1, d, -t);
    }
  }

  lemma Primes()
    ensures Prime(7) && Prime(31) && Prime(151)
  {
    SmallestDivisor(7, 2);
    SmallestDivisor(31, 5);
    assert NoDivisor(151, 6);
    SmallestDivisor(151, 12);
  }

  lemma KnownPeriods(n: nat)
    ensures n == 32767 ==> Period(n)
    ensures n == 4681 || n == 1057 || n == 217 ==> !Period(n)
  {
    if n == 32767 {
      Pow32767();
    } else if n == 4681 {
      Pow4681();
    } else if n == 1057 {
      Pow1057();
    } else if n == 217 {
      Pow217();
    }
  }

  lemma DivisibleByPrime(c: nat, p: nat, n: nat)
    requires Prime(p) && c * p == 32767
    requires c == 4681 || c == 1057 || c == 217
    requires Period(n)
    ensures n % p == 0
  {
    KnownPeriods(c);
    KnownPeriods(c * p);
    if n % p != 0 {
      DropPrime(c, p, n);
    }
  }

  /** 32767 = 7 * 31 * 151, three different primes. */
  lemma PeriodDivisible(n: nat)
    requires Period(n)
    ensures n % 32767 == 0
  {
    Primes();
    DivisibleByPrime(4681, 7, n);
    DivisibleByPrime(1057, 31, n);
    DivisibleByPrime(217, 151, n);
    DivideTogether(n, 7, 31, 9, -2);
    DivideTogether(n, 217, 151, -16, 23);
  }

  /** The powers of x modulo the generator repeat with period exactly 32767. */
  lemma OrderOfX(n: nat)
    ensures Period(n) <==> n % 32767 == 0
  {
    if Period(n) {
      PeriodDivisible(n);
    }
    if n % 32767 == 0 {
      MultipleOfOrder(n, n / 32767, 32767);
    }
  }

  lemma MultipleOfOrder(n: nat, k: nat, order: nat)
    requires order == 32767 && n == order * k
    ensures Period(n)
  {
    KnownPeriods(order);
    PeriodMultiple(order, k);
  }

  lemma OrderOfFeed(n: nat)
    ensures Feed(ONE, Zeros(n)) == ONE <==> n % 32767 == 0
  {
    OrderOfX(n);
    PeriodIsFeed(n);
  }

  // ---- Errors in few bits ----

  lemma OneStep(z: nat, k: nat)
    requires z + k == 14
    ensures Step(Zeros(z + 1) + [true] + Zeros(k), false) == Zeros(z) + [true] + Zeros(k + 1)
  {
  }

  lemma {:induction false} ShiftOne(k: nat)
    requires k <= 15
    ensures Feed(ONE, Zeros(k)) == Zeros(15 - k) + [true] + Zeros(k)
  {
    if k == 0 {
      assert Zeros(15) + [true] + Zeros(0) == ONE;
    } else {
      ShiftOne(k - 1);
      FeedSnoc(ONE, Zeros(k - 1), false);
      assert Zeros(k) == Zeros(k - 1) + [false];
      OneStep(15 - k, k - 1);
    }
  }

  lemma XToTheSixteenth()
    ensures Feed(ONE, Zeros(16)) == LOW
  {
    var top := [true] + Zeros(15);
    ShiftOne(15);
    assert Zeros(0) + [true] + Zeros(15) == top;
    FeedSnoc(ONE, Zeros(15), false);
    assert Zeros(16) == Zeros(15) + [false];
    TopStep(top);
  }

  lemma TopStep(top: Bits)
    requires top == [true] + Zeros(15)
    ensures Step(top, false) == LOW
    ensures Step(Zeros(16), true) == LOW
  {
  }

  lemma SingleOne()
    ensures Feed(Zeros(16), [true]) == LOW
  {
  }

  /** Two ones at distance d, with zeros before, between and after. */
  function TwoOnes(before: nat, d: nat, after: nat): (e: Bits)
    requires d >= 1
    ensures |e| == before + d + 1 + after
  {
    Zeros(before) + [true] + Zeros(d - 1) + [true] + Zeros(after)
  }

  lemma FirstFlip(before: nat)
    ensures Feed(Zeros(16), Zeros(before) + [true]) == LOW
  {
    FeedConcat(Zeros(16), Zeros(before), [true]);
    FeedZeros(before);
    SingleOne();
  }

  lemma SecondFlip(d: nat)
    requires d >= 1
    ensures Step(Feed(LOW, Zeros(d - 1)), true) == Zeros(16) <==> d % 32767 == 0
  {
    LastOne(Feed(LOW, Zeros(d - 1)));
    FeedSnoc(LOW, Zeros(d - 1), false);
    assert Zeros(d) == Zeros(d - 1) + [false];
    LowReturns(d);
  }

  lemma LowReturns(d: nat)
    ensures Feed(LOW, Zeros(d)) == LOW <==> d % 32767 == 0
  {
    XToTheSixteenth();
    FeedZerosAdd(ONE, 16, d);
    assert 16 + d == d + 16;
    FeedZerosAdd(ONE, d, 16);
    FeedInjective(Feed(ONE, Zeros(d)), ONE, Zeros(16));
    OrderOfFeed(d);
  }

  /** Flipping two bits at distance d goes undetected exactly when 32767 divides d. */
  lemma TwoFlips(before: nat, d: nat, after: nat)
    requires d >= 1
    ensures Feed(Zeros(16), TwoOnes(before, d, after)) == Zeros(16) <==> d % 32767 == 0
  {
    var zero := Zeros(16);
    var a := Zeros(before) + [true];
    var b := a + Zeros(d - 1);
    FeedConcat(zero, b + [true], Zeros(after));
    FeedZeros(after);
    FeedInjective(Feed(zero, b + [true]), zero, Zeros(after));
    FeedSnoc(zero, b, true);
    FeedConcat(zero, a, Zeros(d - 1));
    FirstFlip(before);
    SecondFlip(d);
  }

  lemma LastOne(s: Bits)
    requires |s| == 16
    ensures Step(s, true) == Zeros(16) <==> Step(s, false) == LOW
  {
  }

  /** A string that is not zero starts with zeros and a one. */
  lemma {:induction false} FirstOne(e: Bits) returns (i: nat)
    requires Weight(e) > 0
    ensures i < |e| && e[i] && e[..i] == Zeros(i)
    ensures Weight(e[i + 1..]) == Weight(e) - 1
  {
    if e[0] {
      i := 0;
      assert e[..0] == Zeros(0);
    } else {
      var j := FirstOne(e[1..]);
      i := j + 1;
      assert e[..i] == [false] + e[1..][..j];
      assert e[i + 1..] == e[1..][j + 1..];
    }
  }

  lemma TwoOnesShape(e: Bits) returns (i: nat, d: nat, k: nat)
    requires Weight(e) == 2
    ensures 1 <= d < |e| && e == TwoOnes(i, d, k)
  {
    i := FirstOne(e);
    var t := e[i + 1..];
    var j := FirstOne(t);
    WeightZero(t[j + 1..]);
    d, k := j + 1, |t| - j - 1;
    assert t == Zeros(j) + [true] + Zeros(k);
    assert e == Zeros(i) + [true] + t;
  }

  /** Any one, two or three flipped bits within 32767 bits change the checksum. */
  lemma FewFlipsDetected(a: Bits, b: Bits)
    requires |a| == |b| <= 32767
    requires 1 <= Weight(Xor(a, b)) <= 3
    ensures Checksum(a) != Checksum(b)
  {
    var e := Xor(a, b);
    ChecksumDifference(a, b);
    XorZero(Checksum(a), Checksum(b));
    if Weight(e) == 2 {
      TwoFlipsDetected(e);
    } else {
      OddFlipsDetected(a, b);
    }
  }

  lemma NotAPeriod(d: nat)
    requires 1 <= d < 32767
    ensures d % 32767 != 0
  {
  }

  lemma TwoFlipsDetected(e: Bits)
    requires Weight(e) == 2 && |e| <= 32767
    ensures Feed(Zeros(16), e) != Zeros(16)
  {
    var i, d, k := TwoOnesShape(e);
    NotAPeriod(d);
    TwoFlips(i, d, k);
  }

  /** Any odd number of flipped bits, in a message of any length, changes the checksum. */
  lemma OddFlipsDetected(a: Bits, b: Bits)
    requires |a| == |b|
    requires Weight(Xor(a, b)) % 2 == 1
    ensures Checksum(a) != Checksum(b)
  {
    WeightParity(Xor(a, b));
    ParityXor(a, b);
    ChecksumParity(a);
    ChecksumParity(b);
  }
}
