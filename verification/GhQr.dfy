/** The GhQR payload: EMV QR Code Specification for Payment Systems, Merchant-Presented
    Mode, with the checksum of its section 4.7.3. */
module GhQr {
  import opened Bits
  import opened Wrappers
  import opened Crc16
  import opened Tlv
  import CrcRegister
  import CrcDistance
  import Money
  import Numerals
  import Utf8

  /** The two attributes that are read; None stands for an attribute that is missing, and
      for a merchant id that is null. */
  datatype Business = Business(merchantId: Option<string>, name: Option<string>)

  const DEFAULT_ID := "SMEFLOW000001"
  const DEFAULT_NAME := "SME Business"
  const SCHEME := "GH.GHIPSS.GHQR"

  function EffectiveId(b: Business): string {
    match b.merchantId
    case Some(id) => if id == "" then DEFAULT_ID else id
    case None => DEFAULT_ID
  }

  function ShortName(b: Business): (s: string)
    ensures |s| <= 25
  {
    var name := match b.name case Some(n) => n case None => DEFAULT_NAME;
    if |name| <= 25 then name else name[..25]
  }

  function MerchantInfo(b: Business): seq<Field> {
    [Field("00", SCHEME), Field("01", EffectiveId(b))]
  }

  function AmountFields(amount: Option<real>): seq<Field> {
    match amount
    case Some(a) => if a != 0.0 then [Field("54", Money.Fixed2(a))] else []
    case None => []
  }

  function Head(b: Business, amount: Option<real>): seq<Field> {
    [Field("00", "01"),
     Field("01", if amount.Some? then "12" else "11"),
     Field("26", Encode(MerchantInfo(b))),
     Field("52", "5999"),
     Field("53", "936")]
  }

  function Tail(b: Business): seq<Field> {
    [Field("58", "GH"), Field("59", ShortName(b)), Field("60", "ACCRA")]
  }

  /** The fields a reader is to find before the checksum. */
  function Fields(b: Business, amount: Option<real>): seq<Field> {
    Head(b, amount) + AmountFields(amount) + Tail(b)
  }

  /** The text that the checksum covers, up to and including the head of its own field. */
  function Covered(b: Business, amount: Option<real>): string {
    Encode(Fields(b, amount)) + "6304"
  }

  function ChecksumText(covered: string): (s: string)
    ensures |s| == 4
  {
    Hex4(Register(Utf8.Bytes(covered)))
  }

  function ChecksumField(b: Business, amount: Option<real>): Field {
    Field("63", ChecksumText(Covered(b, amount)))
  }

  function Payload(b: Business, amount: Option<real>): string {
    Covered(b, amount) + ChecksumText(Covered(b, amount))
  }

  function Join(parts: seq<string>): string {
    if parts == [] then "" else parts[0] + Join(parts[1..])
  }

  lemma {:induction false} JoinSnoc(parts: seq<string>, p: string)
    ensures Join(parts + [p]) == Join(parts) + p
  {
    if parts == [] {
      assert parts + [p] == [p] && [p][1..] == [];
    } else {
      assert (parts + [p])[1..] == parts[1..] + [p];
      JoinSnoc(parts[1..], p);
    }
  }

  lemma EncodeSnoc(fields: seq<Field>, f: Field)
    ensures Encode(fields + [f]) == Encode(fields) + Print(f)
  {
    EncodeConcat(fields, [f]);
    EncodeOne(f);
  }

  /** Appends one printed field; the ghost list of fields grows with the list of parts. */
  method Append(parts: seq<string>, ghost fields: seq<Field>, tag: string, value: string)
    returns (parts': seq<string>, ghost fields': seq<Field>)
    requires parts == Prints(fields)
    ensures fields' == fields + [Field(tag, value)]
    ensures parts' == Prints(fields')
  {
    parts' := parts + [Print(Field(tag, value))];
    fields' := fields + [Field(tag, value)];
    PrintsSnoc(fields, Field(tag, value));
  }

  /** The fields up to the currency, printed and appended one after the other. */
  method HeadParts(b: Business, amount: Option<real>) returns (parts: seq<string>)
    ensures parts == Prints(Head(b, amount))
  {
    ghost var fields: seq<Field> := [];
    parts := [];
    parts, fields := Append(parts, fields, "00", "01");
    parts, fields := Append(parts, fields, "01", if amount.Some? then "12" else "11");
    var merchantInfo := MerchantInfoText(b);
    parts, fields := Append(parts, fields, "26", merchantInfo);
    parts, fields := Append(parts, fields, "52", "5999");
    parts, fields := Append(parts, fields, "53", "936");
    assert fields == Head(b, amount);
  }

  /** All fields before the checksum; the amount only when there is one and it is not zero. */
  method Parts(b: Business, amount: Option<real>) returns (parts: seq<string>)
    ensures parts == Prints(Fields(b, amount))
  {
    ghost var fields := Head(b, amount);
    parts := HeadParts(b, amount);
    if amount.Some? && amount.value != 0.0 {
      parts, fields := Append(parts, fields, "54", Money.Fixed2(amount.value));
    }
    assert fields == Head(b, amount) + AmountFields(amount);
    ghost var middle := fields;
    parts, fields := Append(parts, fields, "58", "GH");
    parts, fields := Append(parts, fields, "59", ShortName(b));
    parts, fields := Append(parts, fields, "60", "ACCRA");
    assert fields == middle + Tail(b);
  }

  method MerchantInfoText(b: Business) returns (text: string)
    ensures text == Encode(MerchantInfo(b))
  {
    var merchantId := EffectiveId(b);
    text := Print(Field("00", SCHEME)) + Print(Field("01", merchantId));
    MerchantInfoPrints(b);
  }

  /** The generator. A strict reader gets the fields and the checksum back exactly when the
      merchant id has at most 77 characters and the amount prints in at most 99. */
  method Generate(b: Business, amount: Option<real>) returns (payload: string)
    ensures payload == Payload(b, amount)
    ensures Verifies(payload)
    ensures forall r: nat :: ReadHex4(payload[|payload| - 4..]) == Some(r)
                             <==> IsChecksumOf(r, Utf8.Bytes(payload[..|payload| - 4]))
    ensures Parse(payload) == Some(Fields(b, amount) + [ChecksumField(b, amount)])
            <==> IdFits(b) && AmountFits(amount)
  {
    var parts := Parts(b, amount);
    JoinPrints(Fields(b, amount));
    var raw := Join(parts) + "6304";
    var crc := Checksum16(Utf8.Bytes(raw));
    JoinSnoc(parts, Print(Field("63", crc)));
    parts := parts + [Print(Field("63", crc))];
    payload := Join(parts);
    PayloadIsEncoding(b, amount);
    EncodeSnoc(Fields(b, amount), Field("63", crc));
    PayloadVerifies(b, amount);
    VerifiesIff(payload);
    ReadsBackIff(b, amount);
  }

  function Prints(fields: seq<Field>): seq<string> {
    if fields == [] then [] else [Print(fields[0])] + Prints(fields[1..])
  }

  lemma {:induction false} PrintsSnoc(fields: seq<Field>, f: Field)
    ensures Prints(fields + [f]) == Prints(fields) + [Print(f)]
  {
    if fields == [] {
      assert fields + [f] == [f] && [f][1..] == [];
    } else {
      assert (fields + [f])[1..] == fields[1..] + [f];
      PrintsSnoc(fields[1..], f);
    }
  }

  lemma {:induction false} JoinPrints(fields: seq<Field>)
    ensures Join(Prints(fields)) == Encode(fields)
  {
    if fields != [] {
      JoinPrints(fields[1..]);
      assert Prints(fields)[1..] == Prints(fields[1..]);
    }
  }

  lemma MerchantInfoPrints(b: Business)
    ensures Encode(MerchantInfo(b)) == Print(Field("00", SCHEME)) + Print(Field("01", EffectiveId(b)))
  {
    EncodeSnoc([Field("00", SCHEME)], Field("01", EffectiveId(b)));
    EncodeOne(Field("00", SCHEME));
  }

  /** The checksum field, head included, is one more field of the list. */
  lemma PayloadIsEncoding(b: Business, amount: Option<real>)
    ensures Payload(b, amount) == Encode(Fields(b, amount) + [ChecksumField(b, amount)])
  {
    EncodeSnoc(Fields(b, amount), ChecksumField(b, amount));
    assert Numerals.TwoDigits(4) == "04";
    assert "63" + "04" == "6304";
  }

  // ---- Reading back ----

  predicate IdFits(b: Business) {
    b.merchantId.Some? ==> |b.merchantId.value| <= 77
  }

  predicate AmountFits(amount: Option<real>) {
    amount.Some? && amount.value != 0.0 ==> |Money.Fixed2(amount.value)| <= 99
  }

  lemma MerchantInfoLength(b: Business)
    ensures |Encode(MerchantInfo(b))| <= 99 <==> IdFits(b)
    ensures IdFits(b) <==> |EffectiveId(b)| <= 77
  {
    MerchantInfoPrints(b);
    var n := |EffectiveId(b)|;
    assert Numerals.TwoDigits(14) == "14" by { Numerals.TwoDigitsSplit(14); }
    if n < 100 {
      Numerals.TwoDigitsSplit(n);
    }
  }

  /** The strict reader recovers every field exactly when the merchant id and the amount are
      short enough; the column for the id allows 50 characters. */
  lemma ReadsBackIff(b: Business, amount: Option<real>)
    ensures Parse(Payload(b, amount)) == Some(Fields(b, amount) + [ChecksumField(b, amount)])
            <==> IdFits(b) && AmountFits(amount)
  {
    PayloadIsEncoding(b, amount);
    RoundTripIff(Fields(b, amount) + [ChecksumField(b, amount)]);
    WellFormedIff(b, amount);
  }

  lemma WellFormedIff(b: Business, amount: Option<real>)
    ensures AllWellFormed(Fields(b, amount) + [ChecksumField(b, amount)])
            <==> IdFits(b) && AmountFits(amount)
    ensures AllWellFormed(Fields(b, amount)) <==> IdFits(b) && AmountFits(amount)
  {
    var fields := Fields(b, amount);
    var all := fields + [ChecksumField(b, amount)];
    MerchantInfoLength(b);
    assert all[2] == fields[2] == Field("26", Encode(MerchantInfo(b)));
    if amount.Some? && amount.value != 0.0 {
      assert all[5] == fields[5] == Field("54", Money.Fixed2(amount.value));
    }
    WellFormedParts(Head(b, amount), AmountFields(amount));
    WellFormedParts(Head(b, amount) + AmountFields(amount), Tail(b));
    WellFormedParts(fields, [ChecksumField(b, amount)]);
  }

  lemma WellFormedParts(a: seq<Field>, b: seq<Field>)
    ensures AllWellFormed(a + b) <==> AllWellFormed(a) && AllWellFormed(b)
  {
    if AllWellFormed(a + b) {
      forall i | 0 <= i < |a| ensures WellFormed(a[i]) {
        assert (a + b)[i] == a[i];
      }
      forall i | 0 <= i < |b| ensures WellFormed(b[i]) {
        assert (a + b)[|a| + i] == b[i];
      }
    }
  }

  /** The value of tag 26 is itself a list of fields, and reads back under a condition that
      the one above implies. */
  lemma MerchantInfoReadsBack(b: Business)
    ensures Parse(Encode(MerchantInfo(b))) == Some(MerchantInfo(b)) <==> |EffectiveId(b)| <= 99
  {
    RoundTripIff(MerchantInfo(b));
    MerchantInfoLength(b);
    assert MerchantInfo(b)[1] == Field("01", EffectiveId(b));
  }

  /** What a strict reader finds in a readable payload, told from the business and the amount
      alone: every field in its place, the merchant's own id inside tag 26, the first 25
      characters of the name, the amount to the nearest pesewa and the checksum of all the rest. */
  lemma ReaderSees(b: Business, amount: Option<real>)
    returns (info: string, id: string, figure: string, name: string, crc: string)
    requires IdFits(b) && AmountFits(amount)
    ensures Parse(Payload(b, amount)) == Some(Listed(amount, info, figure, name, crc))
    ensures Parse(info) == Some([Field("00", "GH.GHIPSS.GHQR"), Field("01", id)])
    ensures IsIdOf(id, b) && IsNameOf(name, b)
    ensures amount.Some? && amount.value != 0.0 ==> Money.IsFigureOf(figure, amount.value)
    ensures Payload(b, amount) == Covered(b, amount) + crc
    ensures forall r: nat :: ReadHex4(crc) == Some(r) <==> IsChecksumOf(r, Utf8.Bytes(Covered(b, amount)))
  {
    info, id, name, crc := Encode(MerchantInfo(b)), EffectiveId(b), ShortName(b), ChecksumText(Covered(b, amount));
    figure := if amount.None? then "" else Money.Fixed2(amount.value);
    ReadsBackIff(b, amount);
    FieldsListed(b, amount, figure);
    MerchantInfoReadsBack(b);
    OwnIdAndName(b);
    if amount.Some? {
      Money.PrintedReadsBack(amount.value);
    }
    forall r: nat ensures ReadHex4(crc) == Some(r) <==> IsChecksumOf(r, Utf8.Bytes(Covered(b, amount))) {
      PrintedChecksum(Utf8.Bytes(Covered(b, amount)), r);
    }
  }

  /** The ten or nine fields, each with its own tag and value. */
  function Listed(amount: Option<real>, info: string, figure: string, name: string, crc: string): seq<Field> {
    [Field("00", "01"),
     Field("01", if amount.None? then "11" else "12"),
     Field("26", info),
     Field("52", "5999"),
     Field("53", "936")]
    + (if amount.None? || amount.value == 0.0 then [] else [Field("54", figure)])
    + [Field("58", "GH"), Field("59", name), Field("60", "ACCRA"), Field("63", crc)]
  }

  lemma FieldsListed(b: Business, amount: Option<real>, figure: string)
    requires amount.Some? ==> figure == Money.Fixed2(amount.value)
    ensures Fields(b, amount) + [ChecksumField(b, amount)]
         == Listed(amount, Encode(MerchantInfo(b)), figure, ShortName(b), ChecksumText(Covered(b, amount)))
  {
    var crc := ChecksumField(b, amount);
    assert Fields(b, amount) + [crc] == Head(b, amount) + AmountFields(amount) + (Tail(b) + [crc]);
  }

  lemma OwnIdAndName(b: Business)
    ensures IsIdOf(EffectiveId(b), b) && IsNameOf(ShortName(b), b)
  {
  }

  /** The merchant's own id if there is one, and the default id otherwise. */
  ghost predicate IsIdOf(id: string, b: Business) {
    && (forall own :: b.merchantId == Some(own) && own != "" ==> id == own)
    && (b.merchantId in {None, Some("")} ==> id == "SMEFLOW000001")
  }

  /** The whole name if it has at most 25 characters, otherwise its first 25. */
  ghost predicate IsNameOf(name: string, b: Business) {
    && (b.name.None? ==> name == "SME Business")
    && (forall own :: b.name == Some(own) ==> name <= own && |name| == if |own| <= 25 then |own| else 25)
  }

  // ---- The checksum in use ----

  /** The check a reader makes: the last four characters are the checksum of the rest. */
  predicate Verifies(text: string) {
    |text| >= 4 && text[|text| - 4..] == ChecksumText(text[..|text| - 4])
  }

  /** So a text passes exactly when its last four characters read as the remainder of the rest. */
  lemma VerifiesIff(text: string)
    requires |text| >= 4
    ensures
      var front, crc := Utf8.Bytes(text[..|text| - 4]), text[|text| - 4..];
      && (Verifies(text) <==> exists r :: ReadHex4(crc) == Some(r) && IsChecksumOf(r, front))
      && (Verifies(text) ==> forall r: nat :: ReadHex4(crc) == Some(r) <==> IsChecksumOf(r, front))
  {
    var front, crc := Utf8.Bytes(text[..|text| - 4]), text[|text| - 4..];
    forall r: nat ensures ReadHex4(Hex4(Register(front))) == Some(r) <==> IsChecksumOf(r, front) {
      PrintedChecksum(front, r);
    }
    RegisterFits(front);
    HexReadsBack(Register(front), crc);
    HexReadsBack(Register(front), Hex4(Register(front)));
    if r :| ReadHex4(crc) == Some(r) && IsChecksumOf(r, front) {
      assert r == Register(front);
    }
  }

  lemma VerifiesSplit(covered: string, crc: string)
    requires |crc| == 4
    ensures Verifies(covered + crc) <==> crc == ChecksumText(covered)
  {
  }

  lemma PayloadVerifies(b: Business, amount: Option<real>)
    ensures Verifies(Payload(b, amount))
  {
  }

  /** Two covered texts pass with one checksum exactly when their bits have the same
      checksum. */
  lemma SameCheck(s: string, t: string, crc: string)
    requires |crc| == 4 && Verifies(s + crc)
    ensures Verifies(t + crc) <==>
            CrcRegister.Checksum(MessageBits(Utf8.Bytes(s))) == CrcRegister.Checksum(MessageBits(Utf8.Bytes(t)))
  {
    VerifiesSplit(s, crc);
    VerifiesSplit(t, crc);
    SamePrint(Utf8.Bytes(s), Utf8.Bytes(t));
  }

  /** A text that passes stops passing when a stretch of it is replaced by another one of the
      same length in bytes, at most two. So one wrong ASCII character, one two-byte character
      in place of another, or two ASCII characters in the wrong order are always noticed.
      Longer characters are the subject of module WrongCharacters. */
  lemma ReplacementNoticed(before: string, u: string, u': string, after: string, crc: string)
    requires |crc| == 4 && Verifies(before + u + after + crc)
    requires |Utf8.Bytes(u)| == |Utf8.Bytes(u')| <= 2
    ensures Verifies(before + u' + after + crc) <==> u == u'
  {
    var p, w, w', q := Utf8.Bytes(before), Utf8.Bytes(u), Utf8.Bytes(u'), Utf8.Bytes(after);
    SameCheck(before + u + after, before + u' + after, crc);
    BitsOfThree(before, u, after);
    BitsOfThree(before, u', after);
    CrcRegister.BurstDetected(MessageBits(p), MessageBits(w), MessageBits(w'), MessageBits(q));
    MessageBitsInjective(w, w');
    Utf8.BytesInjective(u, u');
  }

  lemma BitsOfThree(s: string, u: string, t: string)
    ensures MessageBits(Utf8.Bytes(s + u + t))
         == MessageBits(Utf8.Bytes(s)) + MessageBits(Utf8.Bytes(u)) + MessageBits(Utf8.Bytes(t))
  {
    Utf8.BytesConcat(s + u, t);
    Utf8.BytesConcat(s, u);
    MessageBitsConcat(Utf8.Bytes(s + u), Utf8.Bytes(t));
    MessageBitsConcat(Utf8.Bytes(s), Utf8.Bytes(u));
  }

  /** How many bits two texts of equal length in bytes differ in. */
  function BitDistance(s: string, t: string): nat
    requires |Utf8.Bytes(s)| == |Utf8.Bytes(t)|
  {
    Weight(Xor(MessageBits(Utf8.Bytes(s)), MessageBits(Utf8.Bytes(t))))
  }

  /** Any odd number of flipped bits is noticed, in a text of any length; one, two or three
      of them when the text has at most 4095 bytes. */
  lemma FlipsNoticed(s: string, t: string, crc: string)
    requires |crc| == 4 && Verifies(s + crc)
    requires |Utf8.Bytes(s)| == |Utf8.Bytes(t)|
    requires || BitDistance(s, t) % 2 == 1
             || (1 <= BitDistance(s, t) <= 3 && |Utf8.Bytes(s)| <= 4095)
    ensures !Verifies(t + crc)
  {
    SameCheck(s, t, crc);
    var a, b := MessageBits(Utf8.Bytes(s)), MessageBits(Utf8.Bytes(t));
    if Weight(Xor(a, b)) % 2 == 1 {
      CrcDistance.OddFlipsDetected(a, b);
    } else {
      CrcDistance.FewFlipsDetected(a, b);
    }
  }

  /** Every readable payload is short enough for that. */
  lemma CoveredIsShort(b: Business, amount: Option<real>)
    requires IdFits(b) && AmountFits(amount)
    ensures |Utf8.Bytes(Covered(b, amount))| <= 4095
  {
    var fields := Fields(b, amount);
    WellFormedIff(b, amount);
    EncodingBound(fields);
    Utf8.BytesBound(Covered(b, amount));
  }

  lemma {:induction false} EncodingBound(fields: seq<Field>)
    requires AllWellFormed(fields)
    ensures |Encode(fields)| <= 103 * |fields|
  {
    if fields != [] {
      assert WellFormed(fields[0]);
      assert AllWellFormed(fields[1..]);
      Numerals.TwoDigitsSplit(|fields[0].value|);
      EncodingBound(fields[1..]);
    }
  }

  /** So up to three flipped bits anywhere in the covered part of a readable payload are
      noticed. */
  lemma PayloadFlipsNoticed(b: Business, amount: Option<real>, t: string)
    requires IdFits(b) && AmountFits(amount)
    requires |Utf8.Bytes(t)| == |Utf8.Bytes(Covered(b, amount))|
    requires 1 <= BitDistance(Covered(b, amount), t) <= 3
    ensures !Verifies(t + ChecksumText(Covered(b, amount)))
  {
    PayloadVerifies(b, amount);
    CoveredIsShort(b, amount);
    FlipsNoticed(Covered(b, amount), t, ChecksumText(Covered(b, amount)));
  }
}
