/** Which four-byte characters a checksum takes for one another. */
module FourByteCharacters {
  import opened Bits
  import opened CharacterBits
  import opened CrcRegister
  import opened Crc16
  import opened CrcLaws
  import opened FourByteBits
  import Utf8

  function ByteDiff(a: Byte, b: Byte): (d: Bits)
    ensures |d| == 8
  {
    Xor(ByteBits(a), ByteBits(b))
  }

  /** Four-byte characters whose bytes differ in such a way that the checksum misses it: five
      bits of the difference are free, the other ones follow from these, which makes 31 missed
      differences. */
  predicate ConfusedFour(c: char, d: char) {
    var a, b := Utf8.EncodeChar(c), Utf8.EncodeChar(d);
    |a| == |b| == 4 && MissedBetween(a, b)
  }

  predicate MissedBetween(a: seq<Byte>, b: seq<Byte>)
    requires |a| == |b| == 4
  {
    var w, x, y, z := ByteDiff(a[0], b[0]), ByteDiff(a[1], b[1]), ByteDiff(a[2], b[2]), ByteDiff(a[3], b[3]);
    Missed(w, x, y, z, x[7], x[3], x[2], w[7], w[5])
  }

  lemma FourByteText(c: char)
    requires |Utf8.EncodeChar(c)| == 4
    ensures
      var a := Utf8.EncodeChar(c);
      && TextBits([c]) == (ByteBits(a[0]) + ByteBits(a[1])) + (ByteBits(a[2]) + ByteBits(a[3]))
      && a[0] / 8 == 30 && a[1] / 64 == 2 && a[2] / 64 == 2 && a[3] / 64 == 2
  {
    var a := Utf8.EncodeChar(c);
    OneCharacter(c);
    FourBytes(a);
  }

  lemma FourBytes(a: seq<Byte>)
    requires |a| == 4
    ensures MessageBits(a) == (ByteBits(a[0]) + ByteBits(a[1])) + (ByteBits(a[2]) + ByteBits(a[3]))
  {
    assert a == [a[0], a[1]] + [a[2], a[3]];
    MessageBitsConcat([a[0], a[1]], [a[2], a[3]]);
    BytePair(a[0], a[1]);
    BytePair(a[2], a[3]);
  }

  lemma BytePair(x: Byte, y: Byte)
    ensures MessageBits([x, y]) == ByteBits(x) + ByteBits(y)
  {
    assert [x, y][1..] == [y] && [y][1..] == [];
    assert MessageBits([y]) == ByteBits(y) + [];
  }

  /** Two bytes that agree in their upper five bits. */
  lemma SameTopFive(a: Byte, b: Byte)
    requires a / 8 == b / 8
    ensures Xor(ByteBits(a), ByteBits(b))[..5] == Zeros(5)
  {
    TopOf(a as nat, 5, 3);
    TopOf(b as nat, 5, 3);
    HalvedThree(a as nat);
    HalvedThree(b as nat);
    assert ByteBits(a)[..5] == ByteBits(b)[..5];
    assert forall i :: 0 <= i < 5 ==> ByteBits(a)[i] == ByteBits(a)[..5][i];
    assert forall i :: 0 <= i < 5 ==> ByteBits(b)[i] == ByteBits(b)[..5][i];
  }

  lemma HalvedThree(n: nat)
    ensures Halved(n, 3) == n / 8
  {
    assert Halved(n, 3) == Halved(n / 2, 2) == Halved(n / 2 / 2, 1);
  }

  lemma FreeDifference(a: seq<Byte>, b: seq<Byte>)
    requires |a| == |b| == 4
    requires a[0] / 8 == b[0] / 8 && a[1] / 64 == b[1] / 64 && a[2] / 64 == b[2] / 64 && a[3] / 64 == b[3] / 64
    ensures FreeBits(ByteDiff(a[0], b[0]), ByteDiff(a[1], b[1]), ByteDiff(a[2], b[2]), ByteDiff(a[3], b[3]))
  {
    SameTopFive(a[0], b[0]);
    SameQuarter(a[1], b[1]);
    SameQuarter(a[2], b[2]);
    SameQuarter(a[3], b[3]);
  }

  lemma DifferenceBits(a: seq<Byte>, b: seq<Byte>)
    requires |a| == |b| == 4
    ensures Xor(MessageBits(a), MessageBits(b))
         == (ByteDiff(a[0], b[0]) + ByteDiff(a[1], b[1])) + (ByteDiff(a[2], b[2]) + ByteDiff(a[3], b[3]))
  {
    FourBytes(a);
    FourBytes(b);
    var a0, a1, a2, a3 := ByteBits(a[0]), ByteBits(a[1]), ByteBits(a[2]), ByteBits(a[3]);
    var b0, b1, b2, b3 := ByteBits(b[0]), ByteBits(b[1]), ByteBits(b[2]), ByteBits(b[3]);
    XorConcat(a0 + a1, a2 + a3, b0 + b1, b2 + b3);
    XorConcat(a0, a1, b0, b1);
    XorConcat(a2, a3, b2, b3);
  }

  lemma FourByteConfusion(c: char, d: char)
    requires |Utf8.EncodeChar(c)| == |Utf8.EncodeChar(d)| == 4
    ensures |TextBits([c])| == |TextBits([d])|
    ensures Feed(Zeros(16), Xor(TextBits([c]), TextBits([d]))) == Zeros(16) <==> ConfusedFour(c, d)
  {
    var a, b := Utf8.EncodeChar(c), Utf8.EncodeChar(d);
    OneCharacter(c);
    OneCharacter(d);
    FourByteText(c);
    FourByteText(d);
    FourByteMissed(a, b);
  }

  lemma FourByteMissed(a: seq<Byte>, b: seq<Byte>)
    requires |a| == |b| == 4
    requires a[0] / 8 == b[0] / 8 && a[1] / 64 == b[1] / 64 && a[2] / 64 == b[2] / 64 && a[3] / 64 == b[3] / 64
    ensures Feed(Zeros(16), Xor(MessageBits(a), MessageBits(b))) == Zeros(16) <==> MissedBetween(a, b)
  {
    DifferenceBits(a, b);
    FreeDifference(a, b);
    FourByteDifference(ByteDiff(a[0], b[0]), ByteDiff(a[1], b[1]), ByteDiff(a[2], b[2]), ByteDiff(a[3], b[3]));
  }
}
