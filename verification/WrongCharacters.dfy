/** Exactly which replacements in a payload go unnoticed by its checksum. */
module WrongCharacters {
  import opened Bits
  import opened BitInts
  import opened CharacterBits
  import opened CrcLaws
  import opened FourByteCharacters
  import opened CrcRegister
  import opened Crc16
  import opened GhQr
  import opened Tlv
  import opened Wrappers
  import Numerals
  import Gf2Poly
  import Utf8

  // ---- Any replacement ----

  /** Whether a replacement goes unnoticed depends only on the register in front of it, not on
      what follows. The two stretches need not have the same length. */
  lemma ReplacementIff(before: string, u: string, u': string, after: string, crc: string)
    requires |crc| == 4 && Verifies(before + u + after + crc)
    ensures Verifies(before + u' + after + crc) <==>
              var r := Checksum(TextBits(before));
              Feed(r, TextBits(u)) == Feed(r, TextBits(u'))
  {
    SameCheck(before + u + after, before + u' + after, crc);
    RegisterAfter(before, u, after);
    RegisterAfter(before, u', after);
    var r := Checksum(TextBits(before));
    FeedInjective(Feed(r, TextBits(u)), Feed(r, TextBits(u')), TextBits(after));
  }

  lemma RegisterAfter(before: string, u: string, after: string)
    ensures Checksum(TextBits(before + u + after))
         == Feed(Feed(Checksum(TextBits(before)), TextBits(u)), TextBits(after))
  {
    BitsOfThree(before, u, after);
    FeedConcat(Ones(16), TextBits(before) + TextBits(u), TextBits(after));
    FeedConcat(Ones(16), TextBits(before), TextBits(u));
  }

  /** A replacement of the same length in bytes goes unnoticed exactly when the difference of
      the two stretches is a multiple of the generator. */
  lemma SameLengthReplacementIff(before: string, u: string, u': string, after: string, crc: string)
    requires |crc| == 4 && Verifies(before + u + after + crc)
    requires |Utf8.Bytes(u)| == |Utf8.Bytes(u')|
    ensures Verifies(before + u' + after + crc) <==>
              u == u' || Gf2Poly.IsMultiple(Xor(TextBits(u), TextBits(u')), GENERATOR)
  {
    var r, e := Checksum(TextBits(before)), Xor(TextBits(u), TextBits(u'));
    ReplacementIff(before, u, u', after, crc);
    SameFeedIff(r, TextBits(u), TextBits(u'));
    ZeroFeedIffMultiple(e);
    XorZero(TextBits(u), TextBits(u'));
    MessageBitsInjective(Utf8.Bytes(u), Utf8.Bytes(u'));
    Utf8.BytesInjective(u, u');
  }

  lemma SameFeedIff(r: Bits, a: Bits, b: Bits)
    requires |r| == 16 && |a| == |b|
    ensures Feed(r, a) == Feed(r, b) <==> Feed(Zeros(16), Xor(a, b)) == Zeros(16)
  {
    FeedXor(r, r, a, b);
    XorZero(r, r);
    XorZero(Feed(r, a), Feed(r, b));
  }

  // ---- Exactly which characters are confused ----

  /** Characters of three bytes that differ by 01 10 21, the digits of the generator, or of
      four bytes that differ by a sum of five such rows. */
  predicate Confused(c: char, d: char) {
    ConfusedThree(c, d) || ConfusedFour(c, d)
  }

  predicate ConfusedThree(c: char, d: char) {
    var a, b := Utf8.EncodeChar(c), Utf8.EncodeChar(d);
    && |a| == |b| == 3
    && ByteXor(a[0], b[0]) == 0x01
    && ByteXor(a[1], b[1]) == 0x10
    && ByteXor(a[2], b[2]) == 0x21
  }

  lemma ThreeByteText(c: char)
    requires |Utf8.EncodeChar(c)| == 3
    ensures
      var a := Utf8.EncodeChar(c);
      && TextBits([c]) == ByteBits(a[0]) + (ByteBits(a[1]) + ByteBits(a[2]))
      && a[0] / 16 == 14 && a[1] / 64 == 2 && a[2] / 64 == 2
  {
    var a := Utf8.EncodeChar(c);
    assert [c][1..] == "" && Utf8.Bytes([c]) == a + [] == a;
    assert a == [a[0], a[1], a[2]];
    assert a[1..] == [a[1], a[2]] && a[1..][1..] == [a[2]] && [a[2]][1..] == [];
    assert MessageBits([a[2]]) == ByteBits(a[2]);
    assert MessageBits([a[1], a[2]]) == ByteBits(a[1]) + ByteBits(a[2]);
  }

  lemma GeneratorBytes()
    ensures ByteBits(0x01) == Zeros(7) + [true]
    ensures ByteBits(0x10) + ByteBits(0x21) == LOW
    ensures ByteBits(0) == Zeros(8)
  {
    LowBitsZero(7);
    LowBitsZero(8);
    AppendBit(0, 7);
    LowWord();
    TwoBytes(0x10, 0x21);
    assert [0x10 as Byte, 0x21][1..] == [0x21] && [0x21 as Byte][1..] == [];
    assert MessageBits([0x21]) == ByteBits(0x21) + [];
  }

  lemma SplitEight(a: Bits, b: Bits, c: Bits, d: Bits)
    requires |a| == |c|
    ensures a + b == c + d <==> a == c && b == d
  {
    assert (a + b)[..|a|] == a && (a + b)[|a|..] == b;
    assert (c + d)[..|a|] == c && (c + d)[|a|..] == d;
  }

  lemma DifferenceOf(c: char, d: char)
    requires |Utf8.EncodeChar(c)| == |Utf8.EncodeChar(d)| == 3
    ensures
      var a, b := Utf8.EncodeChar(c), Utf8.EncodeChar(d);
      var x, y, z := Xor(ByteBits(a[0]), ByteBits(b[0])), Xor(ByteBits(a[1]), ByteBits(b[1])),
                     Xor(ByteBits(a[2]), ByteBits(b[2]));
      Xor(TextBits([c]), TextBits([d])) == x + (y + z) && FreeBitsOnly(x, y + z)
  {
    var a, b := Utf8.EncodeChar(c), Utf8.EncodeChar(d);
    ThreeByteText(c);
    ThreeByteText(d);
    XorConcat(ByteBits(a[1]), ByteBits(a[2]), ByteBits(b[1]), ByteBits(b[2]));
    XorConcat(ByteBits(a[0]), ByteBits(a[1]) + ByteBits(a[2]), ByteBits(b[0]), ByteBits(b[1]) + ByteBits(b[2]));
    SameUpperHalf(a[0], b[0]);
    SameQuarter(a[1], b[1]);
    SameQuarter(a[2], b[2]);
  }

  lemma ThreeByteConfusion(c: char, d: char)
    requires |Utf8.EncodeChar(c)| == |Utf8.EncodeChar(d)| == 3 && c != d
    ensures Feed(Zeros(16), Xor(TextBits([c]), TextBits([d]))) == Zeros(16) <==> ConfusedThree(c, d)
  {
    var a, b := Utf8.EncodeChar(c), Utf8.EncodeChar(d);
    var x, y, z := Xor(ByteBits(a[0]), ByteBits(b[0])), Xor(ByteBits(a[1]), ByteBits(b[1])),
                   Xor(ByteBits(a[2]), ByteBits(b[2]));
    DifferenceOf(c, d);
    ThreeByteDifference(x, y + z);
    GeneratorBytes();
    ByteDifference(a[0], b[0], 0x01);
    ByteDifference(a[1], b[1], 0x10);
    ByteDifference(a[2], b[2], 0x21);
    SplitEight(y, z, ByteBits(0x10), ByteBits(0x21));
    DifferentBits(c, d);
  }

  /** Different texts of one length in bytes have a difference that is not zero. */
  lemma DifferentBits(c: char, d: char)
    requires c != d && |Utf8.EncodeChar(c)| == |Utf8.EncodeChar(d)| == 3
    ensures
      var a, b := Utf8.EncodeChar(c), Utf8.EncodeChar(d);
      !(Xor(ByteBits(a[0]), ByteBits(b[0])) == Zeros(8)
        && Xor(ByteBits(a[1]), ByteBits(b[1])) + Xor(ByteBits(a[2]), ByteBits(b[2])) == Zeros(16))
  {
    DifferenceOf(c, d);
    XorZero(TextBits([c]), TextBits([d]));
    MessageBitsInjective(Utf8.Bytes([c]), Utf8.Bytes([d]));
    Utf8.BytesInjective([c], [d]);
    assert [c][0] != [d][0];
    assert Zeros(8) + Zeros(16) == Zeros(24);
  }

  /** One character replaced by another that takes as many bytes: noticed, except for the pairs
      of three or four bytes that are confused. */
  lemma WrongCharacterIff(before: string, c: char, d: char, after: string, crc: string)
    requires |crc| == 4 && Verifies(before + [c] + after + crc)
    requires |Utf8.EncodeChar(c)| == |Utf8.EncodeChar(d)|
    ensures Verifies(before + [d] + after + crc) <==> c == d || Confused(c, d)
  {
    OneCharacter(c);
    OneCharacter(d);
    if c != d {
      assert [c][0] != [d][0];
      if |Utf8.EncodeChar(c)| <= 2 {
        ReplacementNoticed(before, [c], [d], after, crc);
      } else {
        ReplacementIff(before, [c], [d], after, crc);
        SameFeedIff(Checksum(TextBits(before)), TextBits([c]), TextBits([d]));
        LongConfusion(c, d);
      }
    }
  }

  lemma LongConfusion(c: char, d: char)
    requires 3 <= |Utf8.EncodeChar(c)| == |Utf8.EncodeChar(d)| && c != d
    ensures |TextBits([c])| == |TextBits([d])|
    ensures Feed(Zeros(16), Xor(TextBits([c]), TextBits([d]))) == Zeros(16) <==> Confused(c, d)
  {
    OneCharacter(c);
    OneCharacter(d);
    if |Utf8.EncodeChar(c)| == 3 {
      ThreeByteConfusion(c, d);
    } else {
      FourByteConfusion(c, d);
    }
  }

  const CEDI := '\U{20B5}'
  const LOOKALIKE := '\U{3494}'

  // ---- In the name of a business ----

  function NameFront(b: Business, amount: Option<real>, n: nat): string {
    Encode(Head(b, amount) + AmountFields(amount) + [Field("58", "GH")]) + ("59" + Numerals.TwoDigits(n))
  }

  function NameBack(): string {
    Print(Field("60", "ACCRA")) + "6304"
  }

  lemma Join(a: string, b: string, c: string, d: string, e: string)
    ensures (a + ((b + c) + d)) + e == (a + b) + c + (d + e)
  {
  }

  lemma NameInCovered(b: Business, amount: Option<real>)
    ensures Covered(b, amount) == NameFront(b, amount, |ShortName(b)|) + ShortName(b) + NameBack()
  {
    var front := Head(b, amount) + AmountFields(amount) + [Field("58", "GH")];
    var name, city := Field("59", ShortName(b)), Field("60", "ACCRA");
    assert Fields(b, amount) == front + [name, city];
    EncodeConcat(front, [name, city]);
    assert [name, city] == [name] + [city];
    EncodeCons(name, [city]);
    EncodeOne(city);
    Join(Encode(front), "59" + Numerals.TwoDigits(|ShortName(b)|), ShortName(b), Print(city), "6304");
  }

  /** The business under a name with another character in place of one. */
  function Renamed(b: Business, p: string, d: char, q: string): Business {
    b.(name := Some(p + [d] + q))
  }

  lemma Around(front: string, p: string, c: char, q: string, back: string)
    ensures front + (p + [c] + q) + back == (front + p) + [c] + (q + back)
  {
  }

  lemma CharacterInCovered(b: Business, amount: Option<real>, p: string, c: char, q: string)
    requires ShortName(b) == p + [c] + q
    ensures Covered(b, amount) == (NameFront(b, amount, |p| + 1 + |q|) + p) + [c] + (q + NameBack())
  {
    NameInCovered(b, amount);
    Around(NameFront(b, amount, |p| + 1 + |q|), p, c, q, NameBack());
  }

  /** Two businesses whose names, as far as they are printed, differ in one character of equal
      length in bytes have payloads with the same checksum exactly when these are confused. */
  lemma SameChecksumIff(b: Business, amount: Option<real>, p: string, c: char, d: char, q: string)
    requires ShortName(b) == p + [c] + q
    requires |Utf8.EncodeChar(c)| == |Utf8.EncodeChar(d)|
    ensures ChecksumText(Covered(Renamed(b, p, d, q), amount)) == ChecksumText(Covered(b, amount))
            <==> c == d || Confused(c, d)
  {
    var e := Renamed(b, p, d, q);
    var before, after := NameFront(b, amount, |p| + 1 + |q|) + p, q + NameBack();
    var crc := ChecksumText(Covered(b, amount));
    assert ShortName(e) == p + [d] + q;
    CharacterInCovered(b, amount, p, c, q);
    CharacterInCovered(e, amount, p, d, q);
    SameFront(b, e, amount, |p| + 1 + |q|);
    PayloadVerifies(b, amount);
    WrongCharacterIff(before, c, d, after, crc);
    VerifiesSplit(Covered(e, amount), crc);
  }

  lemma SameFront(b: Business, e: Business, amount: Option<real>, n: nat)
    requires e.merchantId == b.merchantId
    ensures NameFront(e, amount, n) == NameFront(b, amount, n)
  {
    assert Head(e, amount) == Head(b, amount);
  }

  /** The cedi sign is confused with U+3494: a payload that shows it anywhere still passes with
      the other character in its place. */
  lemma CediUnnoticed(b: Business, amount: Option<real>, before: string, after: string)
    requires Covered(b, amount) == before + [CEDI] + after
    ensures CEDI != LOOKALIKE && Confused(CEDI, LOOKALIKE)
    ensures Verifies(before + [LOOKALIKE] + after + ChecksumText(Covered(b, amount)))
  {
    CediBytes();
    CediConfused();
    PayloadVerifies(b, amount);
    WrongCharacterIff(before, CEDI, LOOKALIKE, after, ChecksumText(Covered(b, amount)));
  }

  /** So it does for any business that has the sign in its name. */
  lemma CediInName(b: Business, amount: Option<real>, p: string, q: string)
    requires ShortName(b) == p + [CEDI] + q
    ensures Covered(Renamed(b, p, LOOKALIKE, q), amount) != Covered(b, amount)
    ensures Verifies(Covered(Renamed(b, p, LOOKALIKE, q), amount) + ChecksumText(Covered(b, amount)))
  {
    var e := Renamed(b, p, LOOKALIKE, q);
    var before, after := NameFront(b, amount, |p| + 1 + |q|) + p, q + NameBack();
    assert ShortName(e) == p + [LOOKALIKE] + q;
    CharacterInCovered(b, amount, p, CEDI, q);
    CharacterInCovered(e, amount, p, LOOKALIKE, q);
    SameFront(b, e, amount, |p| + 1 + |q|);
    CediUnnoticed(b, amount, before, after);
    DifferentInside(before, CEDI, LOOKALIKE, after);
  }

  lemma DifferentInside(before: string, c: char, d: char, after: string)
    requires c != d
    ensures before + [c] + after != before + [d] + after
  {
    assert (before + [c] + after)[|before|] == c && (before + [d] + after)[|before|] == d;
  }

  /** A business called after the sign: two different texts that pass with one checksum. */
  lemma CediAccepted() returns (sent: string, altered: string, crc: string)
    ensures |crc| == 4 && sent != altered
    ensures Verifies(sent + crc) && Verifies(altered + crc)
    ensures sent + crc == Payload(Business(None, Some([CEDI])), None)
  {
    var b := Business(None, Some([CEDI]));
    assert ShortName(b) == "" + [CEDI] + "";
    CediInName(b, None, "", "");
    PayloadVerifies(b, None);
    sent, altered := Covered(b, None), Covered(Renamed(b, "", LOOKALIKE, ""), None);
    crc := ChecksumText(sent);
  }

  lemma CediBytes()
    ensures Utf8.EncodeChar(CEDI) == [0xE2, 0x82, 0xB5]
    ensures Utf8.EncodeChar(LOOKALIKE) == [0xE3, 0x92, 0x94]
  {
  }

  lemma CediConfused()
    ensures ConfusedThree(CEDI, LOOKALIKE)
  {
    var a, b := Utf8.EncodeChar(CEDI), Utf8.EncodeChar(LOOKALIKE);
    DifferInBit0(a[0] as nat, b[0] as nat);
    DifferInBit4(a[1] as nat, b[1] as nat);
    DifferInBits5And0(a[2] as nat, b[2] as nat);
  }

  lemma {:induction false} XorSame(a: nat)
    ensures BitXor(a, a) == 0
  {
    if a > 0 {
      XorSame(a / 2);
    }
  }

  lemma DifferInBit0(a: nat, b: nat)
    requires b == a + 1 && a % 2 == 0
    ensures BitXor(a, b) == 1
  {
    XorSame(a / 2);
    assert b / 2 == a / 2;
  }

  lemma DifferInBit4(a: nat, b: nat)
    requires b == a + 16 && a / 16 % 2 == 0
    ensures BitXor(a, b) == 16
  {
    FourLower(a, b);
    DifferInBit0(a / 16, b / 16);
  }

  /** Two numbers with the same last hexadecimal digit. */
  lemma FourLower(a: nat, b: nat)
    requires a % 16 == b % 16
    ensures BitXor(a, b) == 16 * BitXor(a / 16, b / 16)
  {
    Quarters(a);
    Quarters(b);
    TwoLower(a, b);
    TwoLower(a / 4, b / 4);
  }

  lemma Quarters(a: nat)
    ensures a / 4 / 4 == a / 16 && a / 4 % 4 == a % 16 / 4 && a % 4 == a % 16 % 4
  {
  }

  lemma TwoLower(a: nat, b: nat)
    requires a % 4 == b % 4
    ensures BitXor(a, b) == 4 * BitXor(a / 4, b / 4)
  {
    LowerBit(a, b);
    LowerBit(a / 2, b / 2);
    assert a / 2 / 2 == a / 4 && b / 2 / 2 == b / 4;
  }

  lemma LowerBit(a: nat, b: nat)
    ensures BitXor(a, b) == 2 * BitXor(a / 2, b / 2) + (if a % 2 != b % 2 then 1 else 0)
  {
  }

  lemma DifferInBits5And0(a: nat, b: nat)
    requires a == b + 33 && b % 2 == 0 && b / 32 % 2 == 0
    ensures BitXor(a, b) == 33
  {
    var m, n := a / 2, b / 2;
    LowerBit(a, b);
    assert m == n + 16 && n / 16 % 2 == 0;
    XorSwap(m, n);
    DifferInBit4(n, m);
  }

  lemma {:induction false} XorSwap(a: nat, b: nat)
    ensures BitXor(a, b) == BitXor(b, a)
    decreases a + b
  {
    if a > 0 || b > 0 {
      XorSwap(a / 2, b / 2);
    }
  }
}
