/** Differences of three bytes that a checksum misses, when only those bits may differ that
    UTF-8 leaves free. */
module CharacterBits {
  import opened Bits
  import opened BitInts
  import opened CrcRegister
  import opened Crc16
  import opened CrcLaws
  import Utf8

  function TextBits(s: string): Bits {
    MessageBits(Utf8.Bytes(s))
  }

  lemma OneCharacter(c: char)
    ensures Utf8.Bytes([c]) == Utf8.EncodeChar(c)
  {
    assert [c][1..] == "";
  }

  // ---- What a short stretch leaves in an empty register ----

  /** What four bits leave in an empty register, after four zeros. */
  function Trail(a: bool, b: bool, c: bool, d: bool): (t: Bits)
    ensures |t| == 16
  {
    [a, b, c, d, false, false, false, a, b, c, d, false, a, b, c, d]
  }

  lemma TrailStep(a: bool, b: bool, c: bool, d: bool)
    ensures Step(Trail(false, a, b, c), d) == Trail(a, b, c, d)
  {
  }

  lemma TrailGrows(m: Bits, a: bool, b: bool, c: bool, x: bool)
    requires Feed(Zeros(16), m) == Trail(false, a, b, c)
    ensures Feed(Zeros(16), m + [x]) == Trail(a, b, c, x)
  {
    FeedSnoc(Zeros(16), m, x);
    TrailStep(a, b, c, x);
  }

  lemma TrailStarts(x: bool)
    ensures Step(Zeros(16), x) == Trail(false, false, false, x)
  {
  }

  lemma FeedFour(z: Bits, a: bool, b: bool, c: bool, d: bool)
    requires Feed(Zeros(16), z) == Zeros(16)
    ensures Feed(Zeros(16), z + [a] + [b] + [c] + [d]) == Trail(a, b, c, d)
  {
    FeedSnoc(Zeros(16), z, a);
    TrailStarts(a);
    TrailGrows(z + [a], false, false, a, b);
    TrailGrows(z + [a] + [b], false, a, b, c);
    TrailGrows(z + [a] + [b] + [c], a, b, c, d);
  }

  lemma FeedNibble(z: Bits, a: bool, b: bool, c: bool, d: bool)
    requires z == Zeros(|z|)
    ensures Feed(Zeros(16), z + [a] + [b] + [c] + [d]) == Trail(a, b, c, d)
  {
    FeedZeros(|z|);
    FeedFour(z, a, b, c, d);
  }

  /** Three bytes differ in the bits that UTF-8 leaves free: neither in the first four bits nor
      in the first two of the other bytes. */
  predicate FreeBitsOnly(head: Bits, tail: Bits) {
    && |head| == 8 && |tail| == 16
    && head[..4] == Zeros(4)
    && !tail[0] && !tail[1] && !tail[8] && !tail[9]
  }

  /** Such a difference of three bytes feeds an empty register to zero only when it is zero or
      the generator itself. */
  lemma ThreeByteDifference(head: Bits, tail: Bits)
    requires FreeBitsOnly(head, tail)
    ensures Feed(Zeros(16), head + tail) == Zeros(16)
            <==> (head == Zeros(8) && tail == Zeros(16)) || (head == Zeros(7) + [true] && tail == LOW)
  {
    HeadIsNibble(head);
    NibbleThenTail(head[..4], head[4], head[5], head[6], head[7], tail);
    TrailIsTail(head, tail);
  }

  lemma HeadIsNibble(head: Bits)
    requires |head| == 8
    ensures head == head[..4] + [head[4]] + [head[5]] + [head[6]] + [head[7]]
  {
  }

  lemma NibbleThenTail(z: Bits, a: bool, b: bool, c: bool, d: bool, tail: Bits)
    requires z == Zeros(|z|) && |tail| == 16
    ensures Feed(Zeros(16), (z + [a] + [b] + [c] + [d]) + tail) == Zeros(16) <==> tail == Trail(a, b, c, d)
  {
    FeedConcat(Zeros(16), z + [a] + [b] + [c] + [d], tail);
    FeedNibble(z, a, b, c, d);
    FeedOwn(Trail(a, b, c, d), tail);
  }

  lemma TrailIsTail(head: Bits, tail: Bits)
    requires FreeBitsOnly(head, tail)
    ensures Trail(head[4], head[5], head[6], head[7]) == tail
            <==> (head == Zeros(8) && tail == Zeros(16)) || (head == Zeros(7) + [true] && tail == LOW)
  {
    var t := Trail(head[4], head[5], head[6], head[7]);
    assert head == head[..4] + [head[4], head[5], head[6], head[7]];
    if t == tail {
      assert t[0] == tail[0] && t[1] == tail[1] && t[9] == tail[9];
      assert !head[4] && !head[5] && !head[6];
      assert Trail(false, false, false, true) == LOW;
      assert Trail(false, false, false, false) == Zeros(16);
      assert head == if head[7] then Zeros(7) + [true] else Zeros(8);
    }
  }

  // ---- The bits in which encoded characters can differ ----

  lemma {:induction false} TopOf(n: nat, k: nat, j: nat)
    ensures LowBits(n, k + j)[..k] == LowBits(Halved(n, j), k)
    decreases j
  {
    if j > 0 {
      TopOf(n / 2, k, j - 1);
      assert LowBits(n, k + j)[..k] == LowBits(n / 2, k + j - 1)[..k];
    }
  }

  function Halved(n: nat, j: nat): nat
    decreases j, n
  {
    if j == 0 then n else Halved(n / 2, j - 1)
  }

  lemma HalvedFour(n: nat)
    ensures Halved(n, 4) == n / 16
  {
    assert Halved(n, 4) == Halved(n / 2, 3) == Halved(n / 2 / 2, 2) == Halved(n / 2 / 2 / 2, 1);
  }

  /** Two bytes with the same upper half differ at most in their lower four bits. */
  lemma SameUpperHalf(a: Byte, b: Byte)
    requires a / 16 == b / 16
    ensures Xor(ByteBits(a), ByteBits(b))[..4] == Zeros(4)
  {
    TopOf(a as nat, 4, 4);
    TopOf(b as nat, 4, 4);
    HalvedFour(a as nat);
    HalvedFour(b as nat);
    assert ByteBits(a)[..4] == ByteBits(b)[..4];
    assert forall i :: 0 <= i < 4 ==> ByteBits(a)[i] == ByteBits(a)[..4][i];
    assert forall i :: 0 <= i < 4 ==> ByteBits(b)[i] == ByteBits(b)[..4][i];
  }

  /** Two bytes that agree in their upper two bits. */
  lemma SameQuarter(a: Byte, b: Byte)
    requires a / 64 == b / 64
    ensures !Xor(ByteBits(a), ByteBits(b))[0] && !Xor(ByteBits(a), ByteBits(b))[1]
  {
    TopOf(a as nat, 2, 6);
    TopOf(b as nat, 2, 6);
    HalvedSix(a as nat);
    HalvedSix(b as nat);
    assert ByteBits(a)[..2] == ByteBits(b)[..2];
    assert forall i :: 0 <= i < 2 ==> ByteBits(a)[i] == ByteBits(a)[..2][i];
    assert forall i :: 0 <= i < 2 ==> ByteBits(b)[i] == ByteBits(b)[..2][i];
  }

  lemma HalvedSix(n: nat)
    ensures Halved(n, 6) == n / 64
  {
    assert Halved(n, 6) == Halved(n / 2, 5) == Halved(n / 2 / 2, 4);
    HalvedFour(n / 2 / 2);
  }

  lemma ByteDifference(a: Byte, b: Byte, x: Byte)
    ensures Xor(ByteBits(a), ByteBits(b)) == ByteBits(x) <==> ByteXor(a, b) == x
  {
    var y := ByteXor(a, b);
    LowBitsXor(a as nat, b as nat, 8);
    FitsByte(x as nat);
    FitsByte(y as nat);
    BitInts.SameBits(x as nat, y as nat, 8);
  }
}
