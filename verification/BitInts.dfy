/** Non-negative integers of unbounded width, with the bitwise operators the program
    applies to them, and their low bits as bit strings. */
module BitInts {
  import opened Bits

  function BitXor(a: nat, b: nat): (c: nat)
    decreases a + b
  {
    if a == 0 && b == 0 then 0
    else 2 * BitXor(a / 2, b / 2) + (if a % 2 != b % 2 then 1 else 0)
  }

  function BitAnd(a: nat, b: nat): (c: nat)
    decreases a + b
  {
    if a == 0 && b == 0 then 0
    else 2 * BitAnd(a / 2, b / 2) + (if a % 2 == 1 && b % 2 == 1 then 1 else 0)
  }

  function ShiftLeft(a: nat, k: nat): nat
    decreases k, a
  {
    if k == 0 then a else 2 * ShiftLeft(a, k - 1)
  }

  /** The low k bits of n, the highest of them first. */
  function LowBits(n: nat, k: nat): (b: Bits)
    ensures |b| == k
    decreases k, n
  {
    if k == 0 then [] else LowBits(n / 2, k - 1) + [n % 2 == 1]
  }

  /** The number that a bit string denotes. */
  function Value(b: Bits): nat
    decreases |b|
  {
    if b == [] then 0 else 2 * Value(b[..|b| - 1]) + (if b[|b| - 1] then 1 else 0)
  }

  function And(a: Bits, b: Bits): (c: Bits)
    requires |a| == |b|
    ensures |c| == |a|
    ensures forall i :: 0 <= i < |a| ==> c[i] == (a[i] && b[i])
  {
    seq(|a|, i requires 0 <= i < |a| => a[i] && b[i])
  }

  lemma {:induction false} LowBitsXor(a: nat, b: nat, k: nat)
    ensures LowBits(BitXor(a, b), k) == Xor(LowBits(a, k), LowBits(b, k))
    decreases k
  {
    if k > 0 {
      LowBitsXor(a / 2, b / 2, k - 1);
      assert BitXor(a, b) / 2 == BitXor(a / 2, b / 2);
    }
  }

  lemma {:induction false} LowBitsAnd(a: nat, b: nat, k: nat)
    ensures LowBits(BitAnd(a, b), k) == And(LowBits(a, k), LowBits(b, k))
    decreases k
  {
    if k > 0 {
      LowBitsAnd(a / 2, b / 2, k - 1);
      assert BitAnd(a, b) / 2 == BitAnd(a / 2, b / 2);
    }
  }

  /** n needs no more than k bits. */
  predicate Fits(n: nat, k: nat)
    decreases k, n
  {
    if k == 0 then n == 0 else Fits(n / 2, k - 1)
  }

  lemma {:induction false} FitsXor(a: nat, b: nat, k: nat)
    requires Fits(a, k) && Fits(b, k)
    ensures Fits(BitXor(a, b), k)
    decreases k
  {
    if k > 0 {
      FitsXor(a / 2, b / 2, k - 1);
      assert BitXor(a, b) / 2 == BitXor(a / 2, b / 2);
    }
  }

  lemma {:induction false} FitsAnd(a: nat, b: nat, k: nat)
    requires Fits(b, k)
    ensures Fits(BitAnd(a, b), k)
    decreases k
  {
    if k == 0 {
      AndZero(a);
    } else {
      FitsAnd(a / 2, b / 2, k - 1);
      assert BitAnd(a, b) / 2 == BitAnd(a / 2, b / 2);
    }
  }

  lemma {:induction false} AndZero(a: nat)
    ensures BitAnd(a, 0) == 0
    decreases a
  {
    if a > 0 {
      AndZero(a / 2);
    }
  }

  /** A number that fits is the value of its low bits. */
  lemma {:induction false} ValueOfLowBits(n: nat, k: nat)
    requires Fits(n, k)
    ensures Value(LowBits(n, k)) == n
    decreases k
  {
    if k > 0 {
      ValueOfLowBits(n / 2, k - 1);
      assert LowBits(n, k)[..k - 1] == LowBits(n / 2, k - 1);
    }
  }

  lemma {:induction false} LowBitsOfValue(b: Bits)
    ensures Fits(Value(b), |b|) && LowBits(Value(b), |b|) == b
    decreases |b|
  {
    if b != [] {
      var n := |b| - 1;
      LowBitsOfValue(b[..n]);
      assert Value(b) / 2 == Value(b[..n]);
      assert b == b[..n] + [b[n]];
    }
  }

  /** A bit string of length k and a number below 2^k determine each other. */
  lemma SameBits(m: nat, n: nat, k: nat)
    requires Fits(m, k) && Fits(n, k)
    ensures LowBits(m, k) == LowBits(n, k) <==> m == n
  {
    ValueOfLowBits(m, k);
    ValueOfLowBits(n, k);
  }

  lemma {:induction false} LowBitsZero(k: nat)
    ensures LowBits(0, k) == Zeros(k)
    decreases k
  {
    if k > 0 {
      LowBitsZero(k - 1);
    }
  }

  lemma {:induction false} FitsShift(n: nat, k: nat, s: nat)
    requires Fits(n, k)
    ensures Fits(ShiftLeft(n, s), k + s)
    decreases s
  {
    if s > 0 {
      FitsShift(n, k, s - 1);
      assert ShiftLeft(n, s) / 2 == ShiftLeft(n, s - 1);
    }
  }

  lemma {:induction false} LowBitsDrop(n: nat, k: nat)
    ensures LowBits(n, k + 1)[1..] == LowBits(n, k)
    decreases k
  {
    if k > 0 {
      LowBitsDrop(n / 2, k - 1);
      assert LowBits(n, k + 1) == LowBits(n / 2, k) + [n % 2 == 1];
    }
  }
}
