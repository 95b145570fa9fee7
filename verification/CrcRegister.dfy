/** The checksum register as a string of 16 bits, fed one message bit at a time. This is
    the algebraic view of the word-based loop of module Crc16. */
module CrcRegister {
  import opened Bits
  import opened Gf2Poly

  /** The coefficients of x^12 + x^5 + 1, that is, the word 0x1021. */
  const LOW: Bits := [false, false, false, true, false, false, false, false,
                      false, false, true, false, false, false, false, true]

  /** The generator x^16 + x^12 + x^5 + 1. */
  const GENERATOR: Bits := [true] + LOW

  function Step(r: Bits, b: bool): (s: Bits)
    requires |r| == 16
    ensures |s| == 16
  {
    Xor(r[1..] + [false], if r[0] != b then LOW else Zeros(16))
  }

  function Feed(r: Bits, m: Bits): (s: Bits)
    requires |r| == 16
    ensures |s| == 16
    decreases |m|, |r|
  {
    if m == [] then r else Feed(Step(r, m[0]), m[1..])
  }

  /** The checksum of a bit string: the register starts with all ones. */
  function Checksum(m: Bits): (s: Bits)
    ensures |s| == 16
  {
    Feed(Ones(16), m)
  }

  // ---- Feeding in pieces ----

  lemma {:induction false} FeedConcat(r: Bits, a: Bits, b: Bits)
    requires |r| == 16
    ensures Feed(r, a + b) == Feed(Feed(r, a), b)
    decreases |a|
  {
    if a == [] {
      assert a + b == b;
    } else {
      assert (a + b)[1..] == a[1..] + b;
      FeedConcat(Step(r, a[0]), a[1..], b);
    }
  }

  lemma FeedSnoc(r: Bits, m: Bits, b: bool)
    requires |r| == 16
    ensures Feed(r, m + [b]) == Step(Feed(r, m), b)
  {
    FeedConcat(r, m, [b]);
    var s := Feed(r, m);
    assert [b][1..] == [];
    assert Feed(s, [b]) == Feed(Step(s, b), []);
  }

  // ---- Linearity ----

  lemma StepXor(r: Bits, s: Bits, b: bool, c: bool)
    requires |r| == |s| == 16
    ensures Step(Xor(r, s), b != c) == Xor(Step(r, b), Step(s, c))
  {
  }

  lemma {:induction false} FeedXor(r: Bits, s: Bits, a: Bits, b: Bits)
    requires |r| == |s| == 16 && |a| == |b|
    ensures Feed(Xor(r, s), Xor(a, b)) == Xor(Feed(r, a), Feed(s, b))
    decreases |a|
  {
    if a != [] {
      StepXor(r, s, a[0], b[0]);
      assert Xor(a, b)[1..] == Xor(a[1..], b[1..]);
      FeedXor(Step(r, a[0]), Step(s, b[0]), a[1..], b[1..]);
    }
  }

  /** The checksum is affine: the checksum of the sum of three messages of one length is
      the sum of their checksums. */
  lemma ChecksumAffine(a: Bits, b: Bits, c: Bits)
    requires |a| == |b| == |c|
    ensures Checksum(Xor(Xor(a, b), c)) == Xor(Xor(Checksum(a), Checksum(b)), Checksum(c))
  {
    FeedXor(Ones(16), Ones(16), a, b);
    FeedXor(Xor(Ones(16), Ones(16)), Ones(16), Xor(a, b), c);
    assert Xor(Xor(Ones(16), Ones(16)), Ones(16)) == Ones(16);
  }

  /** The difference of two checksums depends only on the difference of the messages. */
  lemma ChecksumDifference(a: Bits, b: Bits)
    requires |a| == |b|
    ensures Xor(Checksum(a), Checksum(b)) == Feed(Zeros(16), Xor(a, b))
  {
    FeedXor(Ones(16), Ones(16), a, b);
    assert Xor(Ones(16), Ones(16)) == Zeros(16);
  }

  lemma {:induction false} FeedZeros(n: nat)
    ensures Feed(Zeros(16), Zeros(n)) == Zeros(16)
  {
    if n > 0 {
      assert Zeros(n)[1..] == Zeros(n - 1);
      assert Step(Zeros(16), false) == Zeros(16);
      FeedZeros(n - 1);
    }
  }

  // ---- Windows of at most 16 bits ----

  /** Two registers that read two strings of one length, at most 16 bits long, agree
      afterwards exactly when they differed in the bits in which the strings differ. */
  lemma {:induction false} WindowMerge(r: Bits, s: Bits, a: Bits, b: Bits)
    requires |r| == |s| == 16
    requires |a| == |b| <= 16
    ensures Feed(r, a) == Feed(s, b) <==> Xor(r, s) == Xor(a, b) + Zeros(16 - |a|)
    decreases |a|
  {
    if a == [] {
      XorZero(r, s);
      assert Xor(a, b) + Zeros(16) == Zeros(16);
    } else {
      WindowMerge(Step(r, a[0]), Step(s, b[0]), a[1..], b[1..]);
      WindowHead(r, s, a, b);
    }
  }

  lemma WindowHead(r: Bits, s: Bits, a: Bits, b: Bits)
    requires |r| == |s| == 16
    requires 0 < |a| == |b| <= 16
    ensures Xor(Step(r, a[0]), Step(s, b[0])) == Xor(a[1..], b[1..]) + Zeros(17 - |a|)
            <==> Xor(r, s) == Xor(a, b) + Zeros(16 - |a|)
  {
    var d, e := Xor(r, s), Xor(a, b) + Zeros(16 - |a|);
    StepXor(r, s, a[0], b[0]);
    assert Xor(Step(r, a[0]), Step(s, b[0])) == Step(d, e[0]);
    assert Xor(a[1..], b[1..]) + Zeros(17 - |a|) == e[1..] + [false];
    WindowStep(d, e);
  }

  lemma WindowStep(d: Bits, e: Bits)
    requires |d| == |e| == 16
    ensures Step(d, e[0]) == e[1..] + [false] <==> d == e
  {
    var d' := Step(d, e[0]);
    if d == e {
      assert d' == e[1..] + [false];
    }
    if d' == e[1..] + [false] {
      assert d'[15] == (d[0] != e[0]);
      forall i | 1 <= i < 16 ensures d[i] == e[i] {
        assert d'[i - 1] == d[i];
        assert (e[1..] + [false])[i - 1] == e[i];
      }
    }
  }

  lemma MixDifference(r: Bits, b: Bits, pad: Bits)
    requires |r| == 16 && |b| + |pad| == 16
    requires pad == Zeros(|pad|)
    ensures Xor(Xor(r, b + pad), r) == Xor(Zeros(|b|), b) + pad
  {
  }

  /** Adding a string at the top and then feeding zeros is feeding the string. */
  lemma PostponeBits(r: Bits, b: Bits, n: nat)
    requires |r| == 16 && |b| == n <= 16
    ensures Feed(Xor(r, b + Zeros(16 - n)), Zeros(n)) == Feed(r, b)
  {
    MixDifference(r, b, Zeros(16 - n));
    WindowMerge(Xor(r, b + Zeros(16 - n)), r, Zeros(n), b);
  }

  /** For a fixed string, feeding is injective in the register. */
  lemma {:induction false} FeedInjective(r: Bits, s: Bits, m: Bits)
    requires |r| == |s| == 16
    ensures Feed(r, m) == Feed(s, m) <==> r == s
    decreases |m|
  {
    if m != [] {
      FeedInjective(Step(r, m[0]), Step(s, m[0]), m[1..]);
      assert Step(r, m[0]) == Feed(r, [m[0]]) by { FeedSnoc(r, [], m[0]); assert [] + [m[0]] == [m[0]]; }
      assert Step(s, m[0]) == Feed(s, [m[0]]) by { FeedSnoc(s, [], m[0]); assert [] + [m[0]] == [m[0]]; }
      WindowMerge(r, s, [m[0]], [m[0]]);
      assert Xor([m[0]], [m[0]]) + Zeros(15) == Zeros(16);
      XorZero(r, s);
    }
  }

  /** Burst detection: two messages that differ only inside one window of at most 16
      bits, and do differ there, never share a checksum. */
  lemma BurstDetected(before: Bits, a: Bits, b: Bits, after: Bits)
    requires |a| == |b| <= 16
    ensures Checksum(before + a + after) == Checksum(before + b + after) <==> a == b
  {
    var r := Checksum(before);
    FeedConcat(Ones(16), before + a, after);
    FeedConcat(Ones(16), before + b, after);
    FeedConcat(Ones(16), before, a);
    FeedConcat(Ones(16), before, b);
    FeedInjective(Feed(r, a), Feed(r, b), after);
    WindowInjective(r, a, b);
  }

  /** From one register, different strings of at most 16 bits lead to different registers. */
  lemma WindowInjective(r: Bits, a: Bits, b: Bits)
    requires |r| == 16 && |a| == |b| <= 16
    ensures Feed(r, a) == Feed(r, b) <==> a == b
  {
    WindowMerge(r, r, a, b);
    XorZero(r, r);
    XorZero(a, b);
    PaddedZero(Xor(a, b), 16 - |a|);
  }

  lemma PaddedZero(e: Bits, n: nat)
    ensures e + Zeros(n) == Zeros(|e| + n) <==> e == Zeros(|e|)
  {
    if e + Zeros(n) == Zeros(|e| + n) {
      forall i | 0 <= i < |e| ensures !e[i] {
        assert (e + Zeros(n))[i] == Zeros(|e| + n)[i];
      }
    }
  }

  /** Sixteen bits bring a register to zero exactly when they are its own. */
  lemma FeedOwn(r: Bits, suffix: Bits)
    requires |r| == |suffix| == 16
    ensures Feed(r, suffix) == Zeros(16) <==> suffix == r
  {
    FeedZeros(16);
    WindowMerge(r, Zeros(16), suffix, Zeros(16));
    XorWithZeros(r);
    XorWithZeros(suffix);
    assert suffix + Zeros(0) == suffix;
  }

  /** Residue: the only 16-bit suffix that takes a message to checksum zero is the
      message's own checksum. */
  lemma Residue(m: Bits, suffix: Bits)
    requires |suffix| == 16
    ensures Checksum(m + suffix) == Zeros(16) <==> suffix == Checksum(m)
  {
    FeedConcat(Ones(16), m, suffix);
    FeedOwn(Checksum(m), suffix);
  }

  // ---- Parity ----

  lemma StepParity(r: Bits, b: bool)
    requires |r| == 16
    ensures Parity(Step(r, b)) == (Parity(r) != b)
  {
    var top := r[0] != b;
    ParityAppend(r[1..], false);
    ParityXor(r[1..] + [false], if top then LOW else Zeros(16));
    ParityZeros(16);
    LowIsOdd();
  }

  lemma LowIsOdd()
    ensures Parity(LOW)
  {
    var a := Zeros(3) + [true];
    var b := a + Zeros(6) + [true];
    assert LOW == b + Zeros(4) + [true];
    ParityZeros(3);
    ParityAppend(Zeros(3), true);
    ParityTail(a, 6);
    ParityAppend(a + Zeros(6), true);
    ParityTail(b, 4);
    ParityAppend(b + Zeros(4), true);
  }

  lemma {:induction false} FeedParity(r: Bits, m: Bits)
    requires |r| == 16
    ensures Parity(Feed(r, m)) == (Parity(r) != Parity(m))
    decreases |m|
  {
    if m != [] {
      StepParity(r, m[0]);
      FeedParity(Step(r, m[0]), m[1..]);
    }
  }

  /** The checksum has the parity of the message. */
  lemma ChecksumParity(m: Bits)
    ensures Parity(Checksum(m)) == Parity(m)
  {
    FeedParity(Ones(16), m);
    assert Xor(Ones(16), Zeros(16)) == Ones(16);
    WeightParity(Ones(16));
    OnesWeight(16);
  }

  lemma {:induction false} OnesWeight(n: nat)
    ensures Weight(Ones(n)) == n
  {
    if n > 0 {
      assert Ones(n)[1..] == Ones(n - 1);
      OnesWeight(n - 1);
    }
  }

  // ---- Polynomial division ----

  /** M(x) * x^16 + 0xFFFF * x^n for a message of n bits. */
  function Dividend(m: Bits): (d: Bits)
    ensures |d| == |m| + 16
  {
    Xor(m + Zeros(16), Ones(16) + Zeros(|m|))
  }

  /** The loop computes a division: the bits shifted out are the quotient. */
  lemma {:induction false} ChecksumDivides(m: Bits) returns (q: Bits)
    ensures |q| == |m|
    ensures Divides(Dividend(m), GENERATOR, q, Checksum(m))
    decreases |m|
  {
    if m == [] {
      q := [];
      assert Product(q, GENERATOR) == Zeros(16);
      assert Dividend(m) == Ones(16) == Xor(Zeros(16), Zeros(0) + Ones(16));
    } else {
      var n := |m| - 1;
      var high, b := m[..n], m[n];
      assert m == high + [b];
      var q0 := ChecksumDivides(high);
      var r := Checksum(high);
      FeedSnoc(Ones(16), high, b);
      q := q0 + [r[0] != b];
      DivisionStep(Dividend(high), q0, r, b);
      DividendSnoc(high, b);
    }
  }

  /** One more message bit keeps the division correct. */
  lemma DivisionStep(d: Bits, q: Bits, r: Bits, b: bool)
    requires |r| == 16 && Divides(d, GENERATOR, q, r)
    ensures Divides(Xor(d + [false], Zeros(|q|) + ([b] + Zeros(16))), GENERATOR,
                    q + [r[0] != b], Step(r, b))
  {
    ProductSnoc(q, r[0] != b, GENERATOR);
    NextRemainder(d, Product(q, GENERATOR), Zeros(|q|), r, b);
    assert Zeros(|q|) + [false] == Zeros(|q| + 1);
  }

  lemma NextRemainder(d: Bits, p: Bits, z: Bits, r: Bits, b: bool)
    requires |r| == 16 && |p| == |z| + 16 && z == Zeros(|z|)
    requires d == Xor(p, z + r)
    ensures Xor(d + [false], z + ([b] + Zeros(16)))
         == Xor(Xor(p + [false], z + (if r[0] != b then GENERATOR else Zeros(17))),
                (z + [false]) + Step(r, b))
  {
  }

  lemma DividendSnoc(high: Bits, b: bool)
    ensures Dividend(high + [b])
         == Xor(Dividend(high) + [false], Zeros(|high|) + ([b] + Zeros(16)))
  {
  }

  /** The checksum of m is the remainder of M(x) * x^16 + 0xFFFF * x^n on division by the
      generator, and nothing else is. */
  lemma ChecksumIsTheRemainder(m: Bits, r: Bits)
    ensures IsRemainder(Dividend(m), GENERATOR, r) <==> r == Checksum(m)
  {
    var q := ChecksumDivides(m);
    if IsRemainder(Dividend(m), GENERATOR, r) {
      var q' :| Divides(Dividend(m), GENERATOR, q', r);
      RemainderUnique(Dividend(m), GENERATOR, q, Checksum(m), q', r);
    }
  }

  /** The same division for a register that starts at zero. */
  lemma {:induction false} FeedZeroDivides(e: Bits) returns (q: Bits)
    ensures |q| == |e|
    ensures Divides(e + Zeros(16), GENERATOR, q, Feed(Zeros(16), e))
  {
    var a, b := e, Zeros(|e|);
    assert Xor(a, b) == e;
    var qa := ChecksumDivides(a);
    var qb := ChecksumDivides(b);
    ChecksumDifference(a, b);
    q := Xor(qa, qb);
    ProductXor(qa, qb, GENERATOR);
    var n := |e|;
    var r := Feed(Zeros(16), e);
    forall i | 0 <= i < n + 16
      ensures (e + Zeros(16))[i] == (Product(q, GENERATOR)[i] != (Zeros(n) + r)[i])
    {
      assert Dividend(a)[i] == (Product(qa, GENERATOR)[i] != (Zeros(n) + Checksum(a))[i]);
      assert Dividend(b)[i] == (Product(qb, GENERATOR)[i] != (Zeros(n) + Checksum(b))[i]);
      assert Dividend(a)[i] == ((e + Zeros(16))[i] != (Ones(16) + Zeros(n))[i]);
      assert Dividend(b)[i] == ((Zeros(n) + Zeros(16))[i] != (Ones(16) + Zeros(n))[i]);
    }
    assert e + Zeros(16) == Xor(Product(q, GENERATOR), Zeros(n) + r);
  }

  /** Exactly the multiples of the generator go undetected. */
  lemma UndetectedIffMultiple(a: Bits, b: Bits)
    requires |a| == |b|
    ensures Checksum(a) == Checksum(b) <==>
            a == b || IsMultiple(Xor(a, b), GENERATOR)
  {
    var e := Xor(a, b);
    ChecksumDifference(a, b);
    XorZero(Checksum(a), Checksum(b));
    XorZero(a, b);
    ZeroFeedIffMultiple(e);
  }

  lemma ZeroFeedIffMultiple(e: Bits)
    ensures Feed(Zeros(16), e) == Zeros(16) <==> e == Zeros(|e|) || IsMultiple(e, GENERATOR)
  {
    if Feed(Zeros(16), e) == Zeros(16) {
      var q := FeedZeroDivides(e);
      ZeroRemainderIsMultiple(e, q);
    } else {
      if e == Zeros(|e|) {
        FeedZeros(|e|);
      }
      NotMultiple(e);
    }
  }

  lemma NotMultiple(e: Bits)
    requires Feed(Zeros(16), e) != Zeros(16)
    ensures !IsMultiple(e, GENERATOR)
  {
    if IsMultiple(e, GENERATOR) {
      var q := FeedZeroDivides(e);
      MultipleFeedsToZero(e, q, Feed(Zeros(16), e));
    }
  }

  lemma ZeroRemainderIsMultiple(e: Bits, q: Bits)
    requires |q| == |e| && Divides(e + Zeros(16), GENERATOR, q, Zeros(16))
    ensures e == Zeros(|e|) || IsMultiple(e, GENERATOR)
  {
    var n, g := |e|, GENERATOR;
    assert Zeros(n) + Zeros(16) == Zeros(n + 16);
    XorWithZeros(Product(q, g));
    assert Product(q, g) == e + Zeros(16);
    CancelShift(q, g, e, 16);
    if n >= 16 {
      var f := q[..n - 16];
      assert |f| + |g| - 1 == |e| && Product(f, g) == e;
    }
  }

  lemma MultipleFeedsToZero(e: Bits, q: Bits, r: Bits)
    requires IsMultiple(e, GENERATOR)
    requires |q| == |e| && Divides(e + Zeros(16), GENERATOR, q, r)
    ensures r == Zeros(16)
  {
    var f :| |f| + |GENERATOR| - 1 == |e| && Product(f, GENERATOR) == e;
    var q' := f + Zeros(16);
    ProductShift(f, GENERATOR, 16);
    assert Zeros(|e|) + Zeros(16) == Zeros(|e| + 16);
    XorWithZeros(e + Zeros(16));
    assert Divides(e + Zeros(16), GENERATOR, q', Zeros(16));
    RemainderUnique(e + Zeros(16), GENERATOR, q, r, q', Zeros(16));
  }
}
