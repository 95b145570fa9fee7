/** Bit strings, most significant bit first, and addition modulo 2 on them. */
module Bits {

  type Bits = seq<bool>

  function Zeros(n: nat): (z: Bits)
    ensures |z| == n
  {
    seq(n, _ => false)
  }

  function Ones(n: nat): (z: Bits)
    ensures |z| == n
  {
    seq(n, _ => true)
  }

  /** Bitwise exclusive or of two strings of the same length. */
  function Xor(a: Bits, b: Bits): (c: Bits)
    requires |a| == |b|
    ensures |c| == |a|
    ensures forall i :: 0 <= i < |a| ==> c[i] == (a[i] != b[i])
  {
    seq(|a|, i requires 0 <= i < |a| => a[i] != b[i])
  }

  /** True iff the number of ones is odd. */
  function Parity(a: Bits): bool {
    if a == [] then false else a[0] != Parity(a[1..])
  }

  /** The number of ones. */
  function Weight(a: Bits): nat {
    if a == [] then 0 else (if a[0] then 1 else 0) + Weight(a[1..])
  }

  lemma {:induction false} WeightParity(a: Bits)
    ensures Parity(a) == (Weight(a) % 2 == 1)
  {
    if a != [] {
      WeightParity(a[1..]);
    }
  }

  lemma {:induction false} WeightZero(a: Bits)
    ensures Weight(a) == 0 <==> a == Zeros(|a|)
  {
    if a != [] {
      WeightZero(a[1..]);
      assert a == [a[0]] + a[1..];
      assert Zeros(|a|) == [false] + Zeros(|a| - 1);
    }
  }

  /** Two strings are equal exactly when their difference is zero. */
  lemma XorZero(a: Bits, b: Bits)
    requires |a| == |b|
    ensures a == b <==> Xor(a, b) == Zeros(|a|)
  {
  }

  lemma {:induction false} ParityXor(a: Bits, b: Bits)
    requires |a| == |b|
    ensures Parity(Xor(a, b)) == (Parity(a) != Parity(b))
  {
    if a != [] {
      assert Xor(a, b)[1..] == Xor(a[1..], b[1..]);
      ParityXor(a[1..], b[1..]);
    }
  }

  lemma {:induction false} ParityAppend(a: Bits, b: bool)
    ensures Parity(a + [b]) == (Parity(a) != b)
  {
    if a == [] {
      assert a + [b] == [b];
      assert [b][1..] == [];
    } else {
      assert (a + [b])[1..] == a[1..] + [b];
      ParityAppend(a[1..], b);
    }
  }

  lemma {:induction false} ParityZeros(n: nat)
    ensures !Parity(Zeros(n))
  {
    if n > 0 {
      assert Zeros(n)[1..] == Zeros(n - 1);
      ParityZeros(n - 1);
    }
  }

  lemma {:induction false} ParityTail(a: Bits, n: nat)
    ensures Parity(a + Zeros(n)) == Parity(a)
  {
    if n == 0 {
      assert a + Zeros(0) == a;
    } else {
      ParityTail(a, n - 1);
      ParityAppend(a + Zeros(n - 1), false);
      assert a + Zeros(n) == a + Zeros(n - 1) + [false];
    }
  }

  lemma XorWithZeros(a: Bits)
    ensures Xor(a, Zeros(|a|)) == a
  {
  }
}
