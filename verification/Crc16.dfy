/** The checksum as the program computes it, byte by byte on an integer that is cut
    back to 16 bits after every shift. */
module Crc16 {
  import opened Bits
  import opened BitInts
  import opened CrcRegister
  import opened Wrappers
  import Gf2Poly

  newtype Byte = x: int | 0 <= x < 256

  function WordBits(r: nat): (b: Bits)
    ensures |b| == 16
  {
    LowBits(r, 16)
  }

  function ByteBits(c: Byte): (b: Bits)
    ensures |b| == 8
  {
    LowBits(c as nat, 8)
  }

  /** The bits of a message, each byte from its most significant bit down. */
  function MessageBits(data: seq<Byte>): (b: Bits)
    ensures |b| == 8 * |data|
  {
    if data == [] then [] else ByteBits(data[0]) + MessageBits(data[1..])
  }

  /** One turn of the inner loop. */
  function ShiftStep(crc: nat): nat {
    BitAnd(if BitAnd(crc, 0x8000) != 0 then BitXor(ShiftLeft(crc, 1), 0x1021) else ShiftLeft(crc, 1),
           0xFFFF)
  }

  function Shifts(crc: nat, n: nat): nat
    decreases n, crc
  {
    if n == 0 then crc else ShiftStep(Shifts(crc, n - 1))
  }

  /** One turn of the outer loop. */
  function ByteStep(crc: nat, c: Byte): nat {
    Shifts(BitXor(crc, ShiftLeft(c as nat, 8)), 8)
  }

  function Register(data: seq<Byte>): nat {
    if data == [] then 0xFFFF else ByteStep(Register(data[..|data| - 1]), data[|data| - 1])
  }

  function HexChar(n: nat): char
    requires n < 16
  {
    "0123456789ABCDEF"[n]
  }

  /** Four upper-case hexadecimal digits of a number below 65536. */
  function Hex4(n: nat): (s: string)
    ensures |s| == 4
  {
    var a := n / 16;
    var b := a / 16;
    var c := b / 16;
    [HexChar(c % 16), HexChar(b % 16), HexChar(a % 16), HexChar(n % 16)]
  }

  /** A reader's view of one upper-case hexadecimal digit. */
  function ReadHexChar(c: char): Option<nat> {
    if '0' <= c <= '9' then Some(c as int - '0' as int)
    else if 'A' <= c <= 'F' then Some(c as int - 'A' as int + 10)
    else None
  }

  /** Reads exactly four such digits, the most significant one first. */
  function ReadHex4(s: string): Option<nat> {
    if |s| != 4 then None
    else
      match (ReadHexChar(s[0]), ReadHexChar(s[1]), ReadHexChar(s[2]), ReadHexChar(s[3]))
      case (Some(a), Some(b), Some(c), Some(d)) => Some(4096 * a + 256 * b + 16 * c + d)
      case _ => None
  }

  /** The program's two nested loops. The result reads as a number exactly when that number is
      the remainder of the message polynomial, see CrcRegister.Dividend. */
  method Checksum16(data: seq<Byte>) returns (hex: string)
    ensures hex == Hex4(Register(data))
    ensures forall r: nat :: ReadHex4(hex) == Some(r) <==> IsChecksumOf(r, data)
  {
    var crc := 0xFFFF;
    for i := 0 to |data|
      invariant crc == Register(data[..i])
    {
      crc := BitXor(crc, ShiftLeft(data[i] as nat, 8));
      ghost var mixed := crc;
      for k := 0 to 8
        invariant crc == Shifts(mixed, k)
      {
        if BitAnd(crc, 0x8000) != 0 {
          crc := BitXor(ShiftLeft(crc, 1), 0x1021);
        } else {
          crc := ShiftLeft(crc, 1);
        }
        crc := BitAnd(crc, 0xFFFF);
      }
      assert data[..i + 1][..i] == data[..i];
    }
    assert data[..|data|] == data;
    hex := Hex4(crc);
    forall r: nat ensures ReadHex4(hex) == Some(r) <==> IsChecksumOf(r, data) {
      PrintedChecksum(data, r);
    }
  }

  /** A 16-bit number that is the remainder of the message polynomial. */
  ghost predicate IsChecksumOf(r: nat, data: seq<Byte>) {
    r < 65536 && Gf2Poly.IsRemainder(Dividend(MessageBits(data)), GENERATOR, WordBits(r))
  }

  // ---- The printed form ----

  lemma HexCharReadsBack(i: nat)
    requires i < 16
    ensures ReadHexChar(HexChar(i)) == Some(i)
  {
  }

  lemma HexDigitsAdd(n: nat)
    requires n < 65536
    ensures n == 4096 * (n / 16 / 16 / 16 % 16) + 256 * (n / 16 / 16 % 16) + 16 * (n / 16 % 16) + n % 16
  {
    var a := n / 16;
    var b := a / 16;
    var c := b / 16;
    assert n == 16 * a + n % 16 && a == 16 * b + a % 16 && b == 16 * c + b % 16;
    assert c < 16;
  }

  /** The printed digits read back as the number, and a number below 65536 is printed in no
      other way. */
  lemma HexReadsBack(n: nat, s: string)
    requires n < 65536
    ensures ReadHex4(s) == Some(n) <==> s == Hex4(n)
  {
    HexDigitsAdd(n);
    HexCharReadsBack(n % 16);
    HexCharReadsBack(n / 16 % 16);
    HexCharReadsBack(n / 16 / 16 % 16);
    HexCharReadsBack(n / 16 / 16 / 16 % 16);
    assert ReadHex4(Hex4(n)) == Some(n);
    if ReadHex4(s) == Some(n) {
      SameDigits(s, Hex4(n));
    }
  }

  lemma DigitIsPrinted(c: char)
    requires ReadHexChar(c).Some?
    ensures ReadHexChar(c).value < 16 && c == HexChar(ReadHexChar(c).value)
  {
  }

  lemma SameNumbers(a: nat, b: nat, c: nat, d: nat, e: nat, f: nat, g: nat, h: nat)
    requires a < 16 && b < 16 && c < 16 && d < 16 && e < 16 && f < 16 && g < 16 && h < 16
    requires 4096 * a + 256 * b + 16 * c + d == 4096 * e + 256 * f + 16 * g + h
    ensures a == e && b == f && c == g && d == h
  {
  }

  lemma SameDigits(s: string, t: string)
    requires ReadHex4(s).Some? && ReadHex4(s) == ReadHex4(t)
    ensures s == t
  {
    SameNumbers(ReadHexChar(s[0]).value, ReadHexChar(s[1]).value, ReadHexChar(s[2]).value, ReadHexChar(s[3]).value,
                ReadHexChar(t[0]).value, ReadHexChar(t[1]).value, ReadHexChar(t[2]).value, ReadHexChar(t[3]).value);
    DigitIsPrinted(s[0]); DigitIsPrinted(s[1]); DigitIsPrinted(s[2]); DigitIsPrinted(s[3]);
    DigitIsPrinted(t[0]); DigitIsPrinted(t[1]); DigitIsPrinted(t[2]); DigitIsPrinted(t[3]);
  }

  /** What a checksum prints as is a matter of its remainder alone. */
  lemma PrintedChecksum(data: seq<Byte>, r: nat)
    ensures ReadHex4(Hex4(Register(data))) == Some(r) <==> IsChecksumOf(r, data)
  {
    if r < 65536 {
      RegisterIsTheRemainder(data, r);
    }
    RegisterFits(data);
    FitsWord(Register(data));
    HexReadsBack(Register(data), Hex4(Register(data)));
  }

  // ---- Sixteen bits ----

  lemma FitsWord(n: nat)
    ensures Fits(n, 16) <==> n < 65536
  {
    assert Fits(n, 16) <==> Fits(n / 16, 12) by { FitsNibble(n, 12); }
    assert Fits(n / 16, 12) <==> Fits(n / 16 / 16, 8) by { FitsNibble(n / 16, 8); }
    assert Fits(n / 16 / 16, 8) <==> Fits(n / 16 / 16 / 16, 4) by { FitsNibble(n / 16 / 16, 4); }
    FitsNibble(n / 16 / 16 / 16, 0);
  }

  lemma FitsNibble(n: nat, k: nat)
    ensures Fits(n, k + 4) <==> Fits(n / 16, k)
  {
    assert Fits(n, k + 4) == Fits(n / 2, k + 3) == Fits(n / 2 / 2, k + 2)
        == Fits(n / 2 / 2 / 2, k + 1) == Fits(n / 2 / 2 / 2 / 2, k);
  }

  lemma {:induction false} OnesValue(k: nat, n: nat)
    requires n == Value(Ones(k))
    ensures LowBits(n, k) == Ones(k) && Fits(n, k)
  {
    LowBitsOfValue(Ones(k));
  }

  lemma OnesStep(k: nat)
    ensures Value(Ones(k + 1)) == 2 * Value(Ones(k)) + 1
  {
    assert Ones(k + 1)[..k] == Ones(k);
  }

  lemma AllOnes()
    ensures WordBits(0xFFFF) == Ones(16)
  {
    assert Ones(0) == [];
    OnesStep(0); OnesStep(1); OnesStep(2); OnesStep(3);
    assert Value(Ones(4)) == 0xF;
    OnesStep(4); OnesStep(5); OnesStep(6); OnesStep(7);
    assert Value(Ones(8)) == 0xFF;
    OnesStep(8); OnesStep(9); OnesStep(10); OnesStep(11);
    assert Value(Ones(12)) == 0xFFF;
    OnesStep(12); OnesStep(13); OnesStep(14); OnesStep(15);
    OnesValue(16, 0xFFFF);
  }

  lemma AppendBit(n: nat, k: nat)
    ensures LowBits(2 * n + 1, k + 1) == LowBits(n, k) + [true]
  {
    assert (2 * n + 1) / 2 == n && (2 * n + 1) % 2 == 1;
  }

  lemma ShiftValues(n: nat)
    ensures ShiftLeft(n, 4) == 16 * n && ShiftLeft(n, 6) == 64 * n
  {
    assert ShiftLeft(n, 4) == 2 * ShiftLeft(n, 3) == 4 * ShiftLeft(n, 2) == 8 * ShiftLeft(n, 1);
    assert ShiftLeft(n, 6) == 2 * ShiftLeft(n, 5) == 4 * ShiftLeft(n, 4);
  }

  lemma LowWordHead()
    ensures LowBits(129, 11) == Zeros(3) + [true] + Zeros(6) + [true]
  {
    LowBitsZero(3);
    AppendBit(0, 3);
    ShiftBits(1, 4, 6);
    ShiftValues(1);
    AppendBit(64, 10);
  }

  /** 0x1021 has ones in positions 12, 5 and 0. */
  lemma LowWord()
    ensures WordBits(0x1021) == LOW
  {
    LowWordHead();
    ShiftBits(129, 11, 4);
    ShiftValues(129);
    AppendBit(129 * 16, 15);
    LowDisplay(Zeros(3) + [true] + Zeros(6) + [true]);
  }

  lemma LowDisplay(head: Bits)
    requires head == Zeros(3) + [true] + Zeros(6) + [true]
    ensures head + Zeros(4) + [true] == LOW
  {
  }

  lemma {:induction false} ShiftBits(n: nat, k: nat, s: nat)
    ensures LowBits(ShiftLeft(n, s), k + s) == LowBits(n, k) + Zeros(s)
  {
    if s == 0 {
      assert LowBits(n, k) + Zeros(0) == LowBits(n, k);
    } else {
      ShiftBits(n, k, s - 1);
      assert ShiftLeft(n, s) / 2 == ShiftLeft(n, s - 1);
      assert LowBits(n, k) + Zeros(s) == LowBits(n, k) + Zeros(s - 1) + [false];
    }
  }

  lemma TopWord()
    ensures WordBits(0x8000) == [true] + Zeros(15)
  {
    AppendBit(0, 0);
    ShiftBits(1, 1, 15);
    assert LowBits(1, 1) == [true];
    ShiftValues(1);
    assert ShiftLeft(1, 15) == 2 * ShiftLeft(1, 14) == 4 * ShiftLeft(1, 13) == 8 * ShiftLeft(1, 12);
    assert ShiftLeft(1, 12) == 2 * ShiftLeft(1, 11) == 4 * ShiftLeft(1, 10) == 8 * ShiftLeft(1, 9);
    assert ShiftLeft(1, 9) == 2 * ShiftLeft(1, 8) == 4 * ShiftLeft(1, 7) == 8 * ShiftLeft(1, 6);
  }

  /** The test of the top bit. */
  lemma TopBit(crc: nat)
    ensures (BitAnd(crc, 0x8000) != 0) == WordBits(crc)[0]
  {
    var t := BitAnd(crc, 0x8000);
    LowBitsAnd(crc, 0x8000, 16);
    TopWord();
    FitsWord(0x8000);
    FitsAnd(crc, 0x8000, 16);
    LowBitsZero(16);
    FitsWord(0);
    SameBits(t, 0, 16);
    MaskedTop(WordBits(crc));
  }

  lemma MaskedTop(r: Bits)
    requires |r| == 16
    ensures And(r, [true] + Zeros(15)) == Zeros(16) <==> !r[0]
  {
  }

  /** One turn of the inner loop is one step of the register with a zero message bit. */
  lemma ShiftStepIsStep(crc: nat)
    ensures WordBits(ShiftStep(crc)) == Step(WordBits(crc), false)
    ensures ShiftStep(crc) < 65536
  {
    var twice := ShiftLeft(crc, 1);
    var wide := if BitAnd(crc, 0x8000) != 0 then BitXor(twice, 0x1021) else twice;
    var r := WordBits(crc);
    TopBit(crc);
    TwiceBits(crc);
    LowWord();
    LowBitsXor(twice, 0x1021, 16);
    XorWithZeros(r[1..] + [false]);
    assert WordBits(wide) == Step(r, false);
    AllOnes();
    LowBitsAnd(wide, 0xFFFF, 16);
    AndOnes(WordBits(wide));
    FitsWord(0xFFFF);
    FitsAnd(wide, 0xFFFF, 16);
    FitsWord(ShiftStep(crc));
  }

  lemma TwiceBits(crc: nat)
    ensures WordBits(ShiftLeft(crc, 1)) == WordBits(crc)[1..] + [false]
  {
    ShiftBits(crc, 15, 1);
    LowBitsDrop(crc, 15);
    assert Zeros(1) == [false];
  }

  lemma AndOnes(b: Bits)
    ensures And(b, Ones(|b|)) == b
  {
  }

  lemma {:induction false} ShiftsAreSteps(crc: nat, k: nat)
    ensures WordBits(Shifts(crc, k)) == Feed(WordBits(crc), Zeros(k))
    ensures crc < 65536 ==> Shifts(crc, k) < 65536
  {
    if k > 0 {
      ShiftsAreSteps(crc, k - 1);
      ShiftStepIsStep(Shifts(crc, k - 1));
      FeedSnoc(WordBits(crc), Zeros(k - 1), false);
      assert Zeros(k) == Zeros(k - 1) + [false];
    }
  }

  /** Mixing in a whole byte and then shifting is feeding its bits one by one. */
  lemma ByteStepIsFeed(crc: nat, c: Byte)
    requires crc < 65536
    ensures WordBits(ByteStep(crc, c)) == Feed(WordBits(crc), ByteBits(c))
    ensures ByteStep(crc, c) < 65536
  {
    var w := ShiftLeft(c as nat, 8);
    MixedFits(crc, c);
    ShiftsAreSteps(BitXor(crc, w), 8);
    LowBitsXor(crc, w, 16);
    ShiftBits(c as nat, 8, 8);
    PostponeBits(WordBits(crc), ByteBits(c), 8);
  }

  lemma MixedFits(crc: nat, c: Byte)
    requires crc < 65536
    ensures BitXor(crc, ShiftLeft(c as nat, 8)) < 65536
  {
    var w := ShiftLeft(c as nat, 8);
    FitsByte(c as nat);
    FitsShift(c as nat, 8, 8);
    FitsWord(crc);
    FitsXor(crc, w, 16);
    FitsWord(BitXor(crc, w));
  }

  lemma FitsByte(n: nat)
    ensures Fits(n, 8) <==> n < 256
  {
    FitsNibble(n, 4);
    FitsNibble(n / 16, 0);
  }

  lemma {:induction false} RegisterFits(data: seq<Byte>)
    ensures Register(data) < 65536
    decreases |data|
  {
    if data != [] {
      RegisterFits(data[..|data| - 1]);
      ByteStepIsFeed(Register(data[..|data| - 1]), data[|data| - 1]);
    }
  }

  lemma {:induction false} MessageBitsSnoc(data: seq<Byte>, c: Byte)
    ensures MessageBits(data + [c]) == MessageBits(data) + ByteBits(c)
  {
    if data == [] {
      assert [] + [c] == [c] && [c][1..] == [];
      assert MessageBits([c]) == ByteBits(c) + MessageBits([]);
      assert ByteBits(c) + [] == [] + ByteBits(c);
    } else {
      assert (data + [c])[1..] == data[1..] + [c];
      MessageBitsSnoc(data[1..], c);
    }
  }

  lemma {:induction false} MessageBitsConcat(a: seq<Byte>, b: seq<Byte>)
    ensures MessageBits(a + b) == MessageBits(a) + MessageBits(b)
  {
    if a == [] {
      assert a + b == b;
    } else {
      assert (a + b)[1..] == a[1..] + b;
      MessageBitsConcat(a[1..], b);
    }
  }

  lemma {:induction false} MessageBitsInjective(a: seq<Byte>, b: seq<Byte>)
    requires |a| == |b|
    ensures MessageBits(a) == MessageBits(b) <==> a == b
  {
    if a != [] && MessageBits(a) == MessageBits(b) {
      var m, n := MessageBits(a), MessageBits(b);
      assert m[..8] == ByteBits(a[0]) && n[..8] == ByteBits(b[0]);
      assert m[8..] == MessageBits(a[1..]) && n[8..] == MessageBits(b[1..]);
      FitsByte(a[0] as nat);
      FitsByte(b[0] as nat);
      BitInts.SameBits(a[0] as nat, b[0] as nat, 8);
      MessageBitsInjective(a[1..], b[1..]);
      assert a == [a[0]] + a[1..] && b == [b[0]] + b[1..];
    }
  }

  /** The byte loops compute the bit-serial checksum. */
  lemma {:induction false} RegisterIsChecksum(data: seq<Byte>)
    ensures WordBits(Register(data)) == Checksum(MessageBits(data))
    decreases |data|
  {
    if data == [] {
      AllOnes();
    } else {
      var rest, c := data[..|data| - 1], data[|data| - 1];
      RegisterIsChecksum(rest);
      NextByte(rest, c);
      assert rest + [c] == data;
    }
  }

  lemma NextByte(data: seq<Byte>, c: Byte)
    requires WordBits(Register(data)) == Checksum(MessageBits(data))
    ensures WordBits(Register(data + [c])) == Checksum(MessageBits(data + [c]))
  {
    assert (data + [c])[..|data|] == data;
    RegisterFits(data);
    ByteStepIsFeed(Register(data), c);
    MessageBitsSnoc(data, c);
    FeedConcat(Ones(16), MessageBits(data), ByteBits(c));
  }

  /** The register holds the remainder of the division, and no other word is it. */
  lemma RegisterIsTheRemainder(data: seq<Byte>, r: nat)
    requires r < 65536
    ensures Gf2Poly.IsRemainder(Dividend(MessageBits(data)), GENERATOR, WordBits(r))
            <==> r == Register(data)
  {
    RegisterIsChecksum(data);
    RegisterFits(data);
    FitsWord(r);
    FitsWord(Register(data));
    SameBits(r, Register(data), 16);
    ChecksumIsTheRemainder(MessageBits(data), WordBits(r));
  }

  /** Two registers are equal exactly when the bit-serial checksums are. */
  lemma SameRegister(a: seq<Byte>, b: seq<Byte>)
    ensures Register(a) == Register(b) <==> Checksum(MessageBits(a)) == Checksum(MessageBits(b))
  {
    RegisterIsChecksum(a);
    RegisterIsChecksum(b);
    RegisterFits(a);
    RegisterFits(b);
    FitsWord(Register(a));
    FitsWord(Register(b));
    SameBits(Register(a), Register(b), 16);
  }

  /** Two messages print the same checksum exactly when their bit strings have the same
      checksum. */
  lemma SamePrint(a: seq<Byte>, b: seq<Byte>)
    ensures Hex4(Register(a)) == Hex4(Register(b))
            <==> Checksum(MessageBits(a)) == Checksum(MessageBits(b))
  {
    SameRegister(a, b);
    RegisterFits(a);
    RegisterFits(b);
    HexReadsBack(Register(a), Hex4(Register(b)));
    HexReadsBack(Register(b), Hex4(Register(b)));
  }
}
