/** Differences of four bytes that a checksum misses, when only those bits may differ that
    UTF-8 leaves free: a space of five dimensions. */
module FourByteBits {
  import opened Bits
  import opened CrcRegister
  import opened CrcDistance

  // ---- The register as sixteen separate bits ----

  function StepWord(w: Word, b: bool): Word {
    var top := w.bF != b;
    Word(w.bE, w.bD, w.bC, w.bB != top, w.bA, w.b9, w.b8, w.b7,
         w.b6, w.b5, w.b4 != top, w.b3, w.b2, w.b1, w.b0, top)
  }

  lemma StepIsWord(r: Bits, b: bool)
    requires |r| == 16
    ensures ToWord(Step(r, b)) == StepWord(ToWord(r), b)
  {
  }

  function NibbleWord(w: Word, a: bool, b: bool, c: bool, d: bool): Word {
    StepWord(StepWord(StepWord(StepWord(w, a), b), c), d)
  }

  lemma NibbleIsWord(r: Bits, m: Bits, a: bool, b: bool, c: bool, d: bool, longer: Bits)
    requires |r| == 16 && longer == m + [a] + [b] + [c] + [d]
    ensures ToWord(Feed(r, longer)) == NibbleWord(ToWord(Feed(r, m)), a, b, c, d)
  {
    FeedSnoc(r, m, a);
    FeedSnoc(r, m + [a], b);
    FeedSnoc(r, m + [a] + [b], c);
    FeedSnoc(r, m + [a] + [b] + [c], d);
    StepIsWord(Feed(r, m), a);
    StepIsWord(Feed(r, m + [a]), b);
    StepIsWord(Feed(r, m + [a] + [b]), c);
    StepIsWord(Feed(r, m + [a] + [b] + [c]), d);
  }

  const EMPTY := Word(false, false, false, false, false, false, false, false,
                      false, false, false, false, false, false, false, false)

  // ---- The first two bytes ----

  function AfterOne(p: bool, q: bool, r: bool): Word {
    Word(false, p, q, r, false, false, false, false, p, q, r, false, false, p, q, r)
  }

  function AfterTwo(p: bool, q: bool, r: bool, a: bool, b: bool): Word {
    Word(false, p, q != a, r != b, p, q, r, false,
         p, (p != q) != a, (q != r) != b, r, false, p, q != a, r != b)
  }

  function AfterThree(p: bool, q: bool, r: bool, a: bool, b: bool, c: bool, d: bool, e: bool, f: bool): Word {
    var t, u, v := p != d, (q != a) != e, (r != b) != f;
    Word(p != c, q != t, r != u, v, p, (p != q) != a, (q != r) != b, r != c,
         t, p != u, (q != a) != v, r != b, c, t, u, v)
  }

  lemma NibbleFormula(w: Word, a: bool, b: bool, c: bool, d: bool)
    ensures
      NibbleWord(w, a, b, c, d)
      == var t0, t1, t2, t3 := w.bF != a, w.bE != b, w.bD != c, w.bC != d;
         Word(w.bB != t0, w.bA != t1, w.b9 != t2, w.b8 != t3, w.b7, w.b6, w.b5, w.b4 != t0,
              w.b3 != t1, w.b2 != t2, w.b1 != t3, w.b0, t0, t1, t2, t3)
  {
  }

  lemma SecondNibble(w: Word, p: bool, q: bool, r: bool, y: bool, z: bool, a: bool, b: bool)
    requires w == AfterOne(p, q, r) && !y && !z
    ensures NibbleWord(w, y, z, a, b) == AfterTwo(p, q, r, a, b)
  {
    NibbleFormula(w, y, z, a, b);
  }

  lemma ThirdNibble(w: Word, p: bool, q: bool, r: bool, a: bool, b: bool, c: bool, d: bool, e: bool, f: bool)
    requires w == AfterTwo(p, q, r, a, b)
    ensures NibbleWord(w, c, d, e, f) == AfterThree(p, q, r, a, b, c, d, e, f)
  {
    NibbleFormula(w, c, d, e, f);
  }

  lemma SplitFirst(w: Bits)
    requires |w| == 8 && w[..5] == Zeros(5)
    ensures w == Zeros(4) + [false] + [w[5]] + [w[6]] + [w[7]]
  {
    assert forall i :: 0 <= i < 5 ==> w[i] == w[..5][i];
  }

  lemma SplitNext(w: Bits, x: Bits)
    requires |x| == 8
    ensures w + x == (w + [x[0]] + [x[1]] + [x[2]] + [x[3]]) + [x[4]] + [x[5]] + [x[6]] + [x[7]]
  {
  }

  lemma ZerosAreEmpty()
    ensures ToWord(Feed(Zeros(16), Zeros(4))) == EMPTY
  {
    FeedZeros(4);
  }

  lemma FeedFirst(w: Bits)
    requires |w| == 8 && w[..5] == Zeros(5)
    ensures ToWord(Feed(Zeros(16), w)) == AfterOne(w[5], w[6], w[7])
  {
    ZerosAreEmpty();
    SplitFirst(w);
    NibbleIsWord(Zeros(16), Zeros(4), false, w[5], w[6], w[7], w);
    NibbleFormula(EMPTY, false, w[5], w[6], w[7]);
  }

  lemma FeedSecond(r: Bits, w: Bits, half: Bits, p: bool, q: bool, s: bool, y: bool, z: bool, a: bool, b: bool)
    requires |r| == 16 && !y && !z && half == w + [y] + [z] + [a] + [b]
    requires ToWord(Feed(r, w)) == AfterOne(p, q, s)
    ensures ToWord(Feed(r, half)) == AfterTwo(p, q, s, a, b)
  {
    NibbleIsWord(r, w, y, z, a, b, half);
    SecondNibble(AfterOne(p, q, s), p, q, s, y, z, a, b);
  }

  lemma FeedThird(r: Bits, half: Bits, whole: Bits, p: bool, q: bool, s: bool, a: bool, b: bool,
                  c: bool, d: bool, e: bool, f: bool)
    requires |r| == 16 && whole == half + [c] + [d] + [e] + [f]
    requires ToWord(Feed(r, half)) == AfterTwo(p, q, s, a, b)
    ensures ToWord(Feed(r, whole)) == AfterThree(p, q, s, a, b, c, d, e, f)
  {
    NibbleIsWord(r, half, c, d, e, f, whole);
    ThirdNibble(AfterTwo(p, q, s, a, b), p, q, s, a, b, c, d, e, f);
  }

  lemma FeedFirstTwo(w: Bits, x: Bits)
    requires |w| == |x| == 8 && w[..5] == Zeros(5) && !x[0] && !x[1]
    ensures ToWord(Feed(Zeros(16), w + x)) == AfterThree(w[5], w[6], w[7], x[2], x[3], x[4], x[5], x[6], x[7])
  {
    FeedFirst(w);
    SplitNext(w, x);
    var half := w + [x[0]] + [x[1]] + [x[2]] + [x[3]];
    FeedSecond(Zeros(16), w, half, w[5], w[6], w[7], x[0], x[1], x[2], x[3]);
    FeedThird(Zeros(16), half, w + x, w[5], w[6], w[7], x[2], x[3], x[4], x[5], x[6], x[7]);
  }

  // ---- The missed differences ----

  /** The four bytes of a difference in the bits that UTF-8 leaves free. */
  predicate FreeBits(w: Bits, x: Bits, y: Bits, z: Bits) {
    && |w| == |x| == |y| == |z| == 8
    && w[..5] == Zeros(5)
    && !x[0] && !x[1] && !y[0] && !y[1] && !z[0] && !z[1]
  }

  function Byte0(s4: bool, s5: bool): Bits {
    [false, false, false, false, false, s5, false, s4]
  }

  function Byte1(s1: bool, s2: bool, s3: bool, s5: bool): Bits {
    [false, false, s3, s2, s5, s5, s3 != s5, s1]
  }

  function Byte2(s1: bool, s2: bool, s3: bool, s4: bool, s5: bool): Bits {
    [false, false, s4 != s5, (s1 != s2) != s4, s5, s3 != s5, s2 != s4, s4 != s5]
  }

  function Byte3(s1: bool, s2: bool, s3: bool, s4: bool, s5: bool): Bits {
    [false, false, ((s1 != s2) != s3) != s4, s2 != s4, s5, false, s5, (s1 != s2) != s4]
  }

  /** The four bytes are the sum of some of the five differences 00 01 10 21, 00 10 12 31,
      00 22 04 20, 01 00 33 31 and 04 0E 2D 0A; s1 to s5 say which. */
  predicate Missed(w: Bits, x: Bits, y: Bits, z: Bits, s1: bool, s2: bool, s3: bool, s4: bool, s5: bool) {
    && w == Byte0(s4, s5)
    && x == Byte1(s1, s2, s3, s5)
    && y == Byte2(s1, s2, s3, s4, s5)
    && z == Byte3(s1, s2, s3, s4, s5)
  }

  /** The four bytes of a difference as separate bits, where the register allows it. */
  lemma OwnTail(t: Word, p: bool, q: bool, r: bool, a: bool, b: bool, c: bool, d: bool, e: bool, f: bool)
    requires t == AfterThree(p, q, r, a, b, c, d, e, f)
    ensures !t.bF && !t.bE && !t.b7 && !t.b6 <==> !q && c == p && d == p && e == (a != p)
    ensures !q && c == p && d == p && e == (a != p) ==>
              t == Word(false, false, r != p, (f != b) != r, p, a != p, b != r, r != p,
                        false, false, ((f != b) != a) != r, b != r, p, false, p, (f != b) != r)
  {
  }

  lemma SameWord(a: Bits, b: Bits)
    requires |a| == |b| == 16
    ensures ToWord(a) == ToWord(b) <==> a == b
  {
  }

  lemma JoinedWord(y: Bits, z: Bits)
    requires |y| == |z| == 8
    ensures ToWord(y + z) == Word(y[0], y[1], y[2], y[3], y[4], y[5], y[6], y[7],
                                  z[0], z[1], z[2], z[3], z[4], z[5], z[6], z[7])
  {
  }

  lemma SameByte(u: Bits, a: bool, b: bool, c: bool, d: bool, e: bool, f: bool, g: bool, h: bool)
    requires |u| == 8
    ensures u == [a, b, c, d, e, f, g, h]
            <==> && u[0] == a && u[1] == b && u[2] == c && u[3] == d
                 && u[4] == e && u[5] == f && u[6] == g && u[7] == h
  {
  }

  lemma MissedBits(w: Bits, x: Bits, y: Bits, z: Bits)
    requires FreeBits(w, x, y, z)
    ensures
      var (s1, s2, s3, s4, s5) := (x[7], x[3], x[2], w[7], w[5]);
      Missed(w, x, y, z, s1, s2, s3, s4, s5)
      <==> && !w[6] && x[4] == s5 && x[5] == s5 && x[6] == (s3 != s5)
           && y[2] == (s4 != s5) && y[3] == ((s1 != s2) != s4) && y[4] == s5
           && y[5] == (s3 != s5) && y[6] == (s2 != s4) && y[7] == (s4 != s5)
           && z[2] == (((s1 != s2) != s3) != s4) && z[3] == (s2 != s4) && z[4] == s5
           && !z[5] && z[6] == s5 && z[7] == ((s1 != s2) != s4)
  {
    var s1, s2, s3, s4, s5 := x[7], x[3], x[2], w[7], w[5];
    assert forall i :: 0 <= i < 5 ==> w[i] == w[..5][i];
    SameByte(w, false, false, false, false, false, s5, false, s4);
    SameByte(x, false, false, s3, s2, s5, s5, s3 != s5, s1);
    SameByte(y, false, false, s4 != s5, (s1 != s2) != s4, s5, s3 != s5, s2 != s4, s4 != s5);
    SameByte(z, false, false, ((s1 != s2) != s3) != s4, s2 != s4, s5, false, s5, (s1 != s2) != s4);
  }

  /** Exactly which differences of four bytes feed an empty register to zero. */
  lemma FourByteDifference(w: Bits, x: Bits, y: Bits, z: Bits)
    requires FreeBits(w, x, y, z)
    ensures Feed(Zeros(16), (w + x) + (y + z)) == Zeros(16)
            <==> Missed(w, x, y, z, x[7], x[3], x[2], w[7], w[5])
  {
    var r := Feed(Zeros(16), w + x);
    FeedConcat(Zeros(16), w + x, y + z);
    FeedOwn(r, y + z);
    SameWord(y + z, r);
    FeedFirstTwo(w, x);
    JoinedWord(y, z);
    OwnTail(ToWord(r), w[5], w[6], w[7], x[2], x[3], x[4], x[5], x[6], x[7]);
    MissedBits(w, x, y, z);
  }
}
