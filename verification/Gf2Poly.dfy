/** Polynomials over the two-element field, as strings of coefficients with the
    highest power first, and long division by a monic polynomial. */
module Gf2Poly {
  import opened Bits

  /** The product of q and g, where g is not empty. A string q of length n stands for
      a polynomial of degree below n, so the product has n + |g| - 1 coefficients. */
  function Product(q: Bits, g: Bits): (p: Bits)
    requires |g| > 0
    ensures |p| == |q| + |g| - 1
    decreases |q|
  {
    if q == [] then Zeros(|g| - 1)
    else
      var high := q[..|q| - 1];
      Xor(Product(high, g) + [false],
          Zeros(|high|) + (if q[|q| - 1] then g else Zeros(|g|)))
  }

  lemma ProductSnoc(q: Bits, b: bool, g: Bits)
    requires |g| > 0
    ensures Product(q + [b], g)
         == Xor(Product(q, g) + [false], Zeros(|q|) + (if b then g else Zeros(|g|)))
  {
  }

  /** dividend = quotient * g + remainder, the remainder having degree below that of g. */
  ghost predicate Divides(dividend: Bits, g: Bits, quotient: Bits, remainder: Bits) {
    && |g| > 0
    && |remainder| == |g| - 1
    && |dividend| == |quotient| + |remainder|
    && dividend == Xor(Product(quotient, g), Zeros(|quotient|) + remainder)
  }

  ghost predicate IsRemainder(dividend: Bits, g: Bits, remainder: Bits) {
    exists quotient :: Divides(dividend, g, quotient, remainder)
  }

  ghost predicate IsMultiple(p: Bits, g: Bits)
    requires |g| > 0
  {
    exists q :: |q| + |g| - 1 == |p| && Product(q, g) == p
  }

  /** With a monic divisor the top |q| coefficients of the product determine q. */
  lemma {:induction false} TopDeterminesFactor(q: Bits, q': Bits, g: Bits)
    requires |g| > 0 && g[0]
    requires |q| == |q'|
    requires Product(q, g)[..|q|] == Product(q', g)[..|q|]
    ensures q == q'
    decreases |q|
  {
    if q != [] {
      var n := |q| - 1;
      var p, p' := Product(q, g), Product(q', g);
      var h, h' := Product(q[..n], g), Product(q'[..n], g);
      forall i | 0 <= i < n ensures h[i] == h'[i] {
        assert p[i] == h[i] && p'[i] == h'[i];
        assert p[..n + 1][i] == p'[..n + 1][i];
      }
      assert h[..n] == h'[..n];
      TopDeterminesFactor(q[..n], q'[..n], g);
      assert p[n] == ((h + [false])[n] != q[n]);
      assert p'[n] == ((h' + [false])[n] != q'[n]);
      assert p[..n + 1][n] == p'[..n + 1][n];
      assert q == q[..n] + [q[n]] && q' == q'[..n] + [q'[n]];
    }
  }

  /** Division by a monic polynomial has only one quotient and one remainder. */
  lemma RemainderUnique(dividend: Bits, g: Bits, q: Bits, r: Bits, q': Bits, r': Bits)
    requires |g| > 0 && g[0]
    requires Divides(dividend, g, q, r) && Divides(dividend, g, q', r')
    ensures q == q' && r == r'
  {
    var n := |q|;
    var p, p' := Product(q, g), Product(q', g);
    forall i | 0 <= i < n ensures p[i] == p'[i] {
      assert dividend[i] == (p[i] != (Zeros(n) + r)[i]);
      assert dividend[i] == (p'[i] != (Zeros(n) + r')[i]);
    }
    assert p[..n] == p'[..n];
    TopDeterminesFactor(q, q', g);
    forall i | 0 <= i < |r| ensures r[i] == r'[i] {
      assert dividend[n + i] == (p[n + i] != (Zeros(n) + r)[n + i]);
      assert dividend[n + i] == (p[n + i] != (Zeros(n) + r')[n + i]);
    }
  }

  /** Appending k zeros multiplies by x^k. */
  lemma {:induction false} ProductShift(q: Bits, g: Bits, k: nat)
    requires |g| > 0
    ensures Product(q + Zeros(k), g) == Product(q, g) + Zeros(k)
    decreases k
  {
    if k == 0 {
      assert q + Zeros(0) == q;
    } else {
      var s := q + Zeros(k);
      assert s[..|s| - 1] == q + Zeros(k - 1);
      ProductShift(q, g, k - 1);
      assert !s[|s| - 1];
    }
  }

  /** When g has a constant term, a multiple of g that ends in k zeros is x^k times a
      multiple of g: x itself never divides g. */
  lemma {:induction false} CancelShift(q: Bits, g: Bits, e: Bits, k: nat)
    requires |g| > 1 && g[|g| - 1]
    requires |q| + |g| - 1 == |e| + k
    requires Product(q, g) == e + Zeros(k)
    ensures |q| >= k ==> Product(q[..|q| - k], g) == e
    ensures |q| < k ==> e == Zeros(|e|)
    decreases k
  {
    if k == 0 {
      assert q[..|q|] == q;
      assert e + Zeros(0) == e;
    } else if q == [] {
      forall i | 0 <= i < |e| ensures !e[i] {
        assert (e + Zeros(k))[i] == Zeros(|g| - 1)[i];
      }
    } else {
      var n := |q| - 1;
      var h := Product(q[..n], g);
      var p := Product(q, g);
      assert p[|p| - 1] == ((h + [false])[|p| - 1] != q[n]);
      assert (e + Zeros(k))[|p| - 1] == false;
      assert !q[n];
      forall i | 0 <= i < |h| ensures h[i] == (e + Zeros(k - 1))[i] {
        assert p[i] == h[i];
        assert (e + Zeros(k))[i] == (e + Zeros(k - 1))[i];
      }
      assert h == e + Zeros(k - 1);
      CancelShift(q[..n], g, e, k - 1);
      if |q| >= k {
        assert q[..n][..n - (k - 1)] == q[..|q| - k];
      }
    }
  }

  lemma {:induction false} ProductXor(q: Bits, q': Bits, g: Bits)
    requires |g| > 0 && |q| == |q'|
    ensures Product(Xor(q, q'), g) == Xor(Product(q, g), Product(q', g))
    decreases |q|
  {
    if q != [] {
      var n := |q| - 1;
      ProductXor(q[..n], q'[..n], g);
      assert Xor(q, q')[..n] == Xor(q[..n], q'[..n]);
      assert Xor(q, q')[n] == (q[n] != q'[n]);
      Rearrange(Product(q[..n], g) + [false], Product(q'[..n], g) + [false],
                Zeros(n) + (if q[n] then g else Zeros(|g|)), Zeros(n) + (if q'[n] then g else Zeros(|g|)));
      assert Zeros(n) + (if q[n] != q'[n] then g else Zeros(|g|))
          == Xor(Zeros(n) + (if q[n] then g else Zeros(|g|)), Zeros(n) + (if q'[n] then g else Zeros(|g|)));
      assert Xor(Product(q[..n], g), Product(q'[..n], g)) + [false]
          == Xor(Product(q[..n], g) + [false], Product(q'[..n], g) + [false]);
    }
  }

  lemma Rearrange(a: Bits, a': Bits, b: Bits, b': Bits)
    requires |a| == |a'| == |b| == |b'|
    ensures Xor(Xor(a, a'), Xor(b, b')) == Xor(Xor(a, b), Xor(a', b'))
  {
  }
}
