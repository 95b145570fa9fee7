/** The generator loses nothing, for any merchant id and any amount: also payloads whose
    length digits no strict reader accepts determine what they were made from. */
module PayloadIdentity {
  import opened GhQr
  import opened Numerals
  import opened Tlv
  import opened Wrappers
  import Money

  // ---- Cutting equal texts ----

  lemma CutEqual(a: string, v: string, a': string, v': string)
    requires a + v == a' + v' && |a| == |a'|
    ensures a == a' && v == v'
  {
    assert (a + v)[..|a|] == a && (a + v)[|a|..] == v;
    assert (a' + v')[..|a'|] == a' && (a' + v')[|a'|..] == v';
  }

  predicate StopsAt(stop: char -> bool, u: string, v: string) {
    && (forall i :: 0 <= i < |u| ==> !stop(u[i]))
    && v != ""
    && stop(v[0])
  }

  lemma InFront(u: string, v: string, i: nat)
    requires i < |u|
    ensures (u + v)[i] == u[i]
  {
  }

  lemma FirstBehind(u: string, v: string)
    requires v != ""
    ensures (u + v)[|u|] == v[0]
  {
  }

  lemma StopNotPassed(stop: char -> bool, u: string, v: string, u': string, v': string)
    requires StopsAt(stop, u, v) && StopsAt(stop, u', v') && u + v == u' + v'
    ensures |u'| <= |u|
  {
    if |u| < |u'| {
      InFront(u', v', |u|);
      FirstBehind(u, v);
    }
  }

  /** The place of the first stopping character cuts equal texts alike. */
  lemma CutAtStop(stop: char -> bool, u: string, v: string, u': string, v': string)
    requires StopsAt(stop, u, v) && StopsAt(stop, u', v') && u + v == u' + v'
    ensures u == u' && v == v'
  {
    StopNotPassed(stop, u, v, u', v');
    StopNotPassed(stop, u', v', u, v);
    CutEqual(u, v, u', v');
  }

  // ---- Field by field ----

  /** Equal encodings whose first fields print with one length. */
  lemma Peel(f: Field, r: seq<Field>, g: Field, q: seq<Field>)
    requires Encode([f] + r) == Encode([g] + q) && |Print(f)| == |Print(g)|
    ensures Print(f) == Print(g) && Encode(r) == Encode(q)
  {
    EncodeCons(f, r);
    EncodeCons(g, q);
    CutEqual(Print(f), Encode(r), Print(g), Encode(q));
  }

  lemma SamePrinted(f: Field, g: Field)
    requires Print(f) == Print(g) && |f.tag| == |g.tag|
    ensures f == g
  {
    LengthFromTotal(|f.value|, |g.value|);
    CutEqual(f.tag + TwoDigits(|f.value|), f.value, g.tag + TwoDigits(|g.value|), g.value);
    CutEqual(f.tag, TwoDigits(|f.value|), g.tag, TwoDigits(|g.value|));
  }

  predicate NotDigit(c: char) {
    !IsDigit(c)
  }

  predicate IsPoint(c: char) {
    c == '.'
  }

  // ---- The merchant id ----

  function InfoField(b: Business): Field {
    Field("26", Encode(MerchantInfo(b)))
  }

  /** What tag 26 holds after its first four digits. */
  function InfoRest(b: Business): string {
    SCHEME + Print(Field("01", EffectiveId(b)))
  }

  lemma InfoText(b: Business)
    ensures Encode(MerchantInfo(b)) == "0014" + InfoRest(b)
  {
    MerchantInfoPrints(b);
    SchemePrints();
    Associative("0014", SCHEME, Print(Field("01", EffectiveId(b))));
  }

  lemma SchemePrints()
    ensures Print(Field("00", SCHEME)) == "0014" + SCHEME
  {
    TwoDigitsSplit(14);
    assert "00" + "14" == "0014";
  }

  /** Digits up to the first letter. */
  function InfoDigits(b: Business): string {
    "26" + TwoDigits(4 + |InfoRest(b)|) + "0014"
  }

  lemma Associative(a: string, b: string, c: string)
    ensures (a + b) + c == a + (b + c)
  {
  }

  lemma DigitsThenLetter(tag: string, length: string, front: string, rest: string)
    requires AllDigits(tag) && AllDigits(length) && AllDigits(front)
    requires rest != "" && NotDigit(rest[0])
    ensures StopsAt(NotDigit, tag + length + front, rest)
  {
  }

  lemma InfoSplit(b: Business, r: seq<Field>)
    ensures Encode([InfoField(b)] + r) == InfoDigits(b) + (InfoRest(b) + Encode(r))
    ensures StopsAt(NotDigit, InfoDigits(b), InfoRest(b) + Encode(r))
  {
    InfoPrint(b);
    FrontSplit(InfoField(b), InfoDigits(b), InfoRest(b), r);
    InfoStops(b, Encode(r));
  }

  lemma FrontSplit(f: Field, front: string, back: string, r: seq<Field>)
    requires Print(f) == front + back
    ensures Encode([f] + r) == front + (back + Encode(r))
  {
    EncodeCons(f, r);
    Associative(front, back, Encode(r));
  }

  lemma InfoStops(b: Business, tail: string)
    ensures StopsAt(NotDigit, InfoDigits(b), InfoRest(b) + tail)
  {
    DecimalDigits(4 + |InfoRest(b)|);
    InfoRestStarts(b, tail);
    DigitsThenLetter("26", TwoDigits(4 + |InfoRest(b)|), "0014", InfoRest(b) + tail);
  }

  lemma InfoPrint(b: Business)
    ensures Print(InfoField(b)) == InfoDigits(b) + InfoRest(b)
  {
    InfoText(b);
    PrintParts("26", Encode(MerchantInfo(b)), "0014", InfoRest(b));
  }

  lemma PrintParts(tag: string, value: string, front: string, back: string)
    requires value == front + back
    ensures Print(Field(tag, value)) == tag + TwoDigits(|front| + |back|) + front + back
  {
    Associative(tag + TwoDigits(|value|), front, back);
  }

  lemma InfoRestStarts(b: Business, tail: string)
    ensures InfoRest(b) + tail != "" && (InfoRest(b) + tail)[0] == 'G'
  {
  }

  /** The first letter ends the length digits, so the length of the id is known. */
  lemma SameInfo(b: Business, r: seq<Field>, c: Business, q: seq<Field>)
    requires Encode([InfoField(b)] + r) == Encode([InfoField(c)] + q)
    ensures EffectiveId(b) == EffectiveId(c) && Encode(r) == Encode(q)
  {
    InfoSplit(b, r);
    InfoSplit(c, q);
    CutAtStop(NotDigit, InfoDigits(b), InfoRest(b) + Encode(r), InfoDigits(c), InfoRest(c) + Encode(q));
    SameInfoLength(b, c);
    CutEqual(InfoRest(b), Encode(r), InfoRest(c), Encode(q));
    CutEqual(SCHEME, Print(Field("01", EffectiveId(b))), SCHEME, Print(Field("01", EffectiveId(c))));
    SamePrinted(Field("01", EffectiveId(b)), Field("01", EffectiveId(c)));
  }

  lemma SameInfoLength(b: Business, c: Business)
    requires InfoDigits(b) == InfoDigits(c)
    ensures |InfoRest(b)| == |InfoRest(c)|
  {
    var m, n := 4 + |InfoRest(b)|, 4 + |InfoRest(c)|;
    CutEqual("26" + TwoDigits(m), "0014", "26" + TwoDigits(n), "0014");
    CutEqual("26", TwoDigits(m), "26", TwoDigits(n));
    TwoDigitsInjective(m, n);
  }

  // ---- The amount ----

  function AmountField(x: real): Field {
    Field("54", Money.Fixed2(x))
  }

  /** The field up to the point. */
  function AmountDigits(x: real): string {
    var t := Money.Fixed2(x);
    "54" + TwoDigits(|t|) + t[..|t| - 3]
  }

  function Places(x: real): string {
    var t := Money.Fixed2(x);
    t[|t| - 3..]
  }

  /** A printed amount has one point, three places from its end. */
  lemma PointInAmount(x: real)
    ensures forall i :: 0 <= i < |AmountDigits(x)| ==> !IsPoint(AmountDigits(x)[i])
    ensures |Places(x)| == 3 && Places(x)[0] == '.'
  {
    var t := Money.Fixed2(x);
    var p := Money.Magnitude(x);
    DecimalDigits(p / 100);
    DecimalDigits(|t|);
    var sign := if x < 0.0 then "-" else "";
    assert t[..|t| - 3] == sign + Decimal(p / 100);
    assert t[|t| - 3] == '.';
  }

  lemma AmountPrint(x: real)
    ensures Print(AmountField(x)) == AmountDigits(x) + Places(x)
  {
    var t := Money.Fixed2(x);
    assert t == t[..|t| - 3] + Places(x);
    Associative("54" + TwoDigits(|t|), t[..|t| - 3], Places(x));
  }

  lemma AmountSplit(x: real, r: seq<Field>)
    ensures Encode([AmountField(x)] + r) == AmountDigits(x) + (Places(x) + Encode(r))
    ensures StopsAt(IsPoint, AmountDigits(x), Places(x) + Encode(r))
  {
    AmountPrint(x);
    FrontSplit(AmountField(x), AmountDigits(x), Places(x), r);
    PointInAmount(x);
    InFront(Places(x), Encode(r), 0);
  }

  /** The point fixes where the amount ends, however many digits its length takes. */
  lemma SamePrintedAmount(x: real, r: seq<Field>, y: real, q: seq<Field>)
    requires Encode([AmountField(x)] + r) == Encode([AmountField(y)] + q)
    ensures Money.Fixed2(x) == Money.Fixed2(y) && Encode(r) == Encode(q)
  {
    AmountSplit(x, r);
    AmountSplit(y, q);
    CutAtStop(IsPoint, AmountDigits(x), Places(x) + Encode(r), AmountDigits(y), Places(y) + Encode(q));
    LengthFromTotal(|Money.Fixed2(x)|, |Money.Fixed2(y)|);
    Peel(AmountField(x), r, AmountField(y), q);
    SamePrinted(AmountField(x), AmountField(y));
  }

  /** What the payload says about the amount. */
  datatype AmountShown = NotGiven | Zero | Shown(printed: Money.Signed)

  function AmountOf(amount: Option<real>): AmountShown {
    match amount
    case None => NotGiven
    case Some(a) => if a == 0.0 then Zero else Shown(Money.Signed(a < 0.0, Money.Magnitude(a)))
  }

  predicate Given(amount: Option<real>) {
    amount.Some? && amount.value != 0.0
  }

  lemma SecondCharacter(amount: Option<real>, country: Field, r: seq<Field>)
    requires country.tag == "58"
    ensures
      var text := Encode(AmountFields(amount) + ([country] + r));
      |text| >= 2 && text[1] == if Given(amount) then '4' else '8'
  {
    EncodeCons(country, r);
    if Given(amount) {
      EncodeCons(AmountField(amount.value), [country] + r);
    } else {
      assert AmountFields(amount) + ([country] + r) == [country] + r;
    }
  }

  lemma SameAmount(x: Option<real>, r: seq<Field>, y: Option<real>, q: seq<Field>, country: Field)
    requires country.tag == "58" && x.Some? == y.Some?
    requires Encode(AmountFields(x) + ([country] + r)) == Encode(AmountFields(y) + ([country] + q))
    ensures AmountOf(x) == AmountOf(y) && Encode(r) == Encode(q)
  {
    SecondCharacter(x, country, r);
    SecondCharacter(y, country, q);
    if Given(x) {
      SamePrintedAmount(x.value, [country] + r, y.value, [country] + q);
      Money.PrintedReadsBack(x.value);
      Money.PrintedReadsBack(y.value);
    } else {
      assert AmountFields(x) + ([country] + r) == [country] + r;
      assert AmountFields(y) + ([country] + q) == [country] + q;
    }
    Peel(country, r, country, q);
  }

  // ---- The name ----

  lemma FieldSplit(f: Field, r: seq<Field>)
    requires |f.value| <= 99
    ensures Encode([f] + r) == (f.tag + TwoDigits(|f.value|)) + (f.value + Encode(r))
    ensures |TwoDigits(|f.value|)| == 2
  {
    EncodeCons(f, r);
    TwoDigitsSplit(|f.value|);
    Associative(f.tag + TwoDigits(|f.value|), f.value, Encode(r));
  }

  lemma SameName(f: Field, r: seq<Field>, g: Field, q: seq<Field>)
    requires Encode([f] + r) == Encode([g] + q)
    requires |f.tag| == |g.tag| == 2 && |f.value| <= 99 && |g.value| <= 99
    ensures f == g
  {
    FieldSplit(f, r);
    FieldSplit(g, q);
    CutEqual(f.tag + TwoDigits(|f.value|), f.value + Encode(r), g.tag + TwoDigits(|g.value|), g.value + Encode(q));
    CutEqual(f.tag, TwoDigits(|f.value|), g.tag, TwoDigits(|g.value|));
    TwoDigitsInjective(|f.value|, |g.value|);
    CutEqual(f.value, Encode(r), g.value, Encode(q));
  }

  // ---- The whole payload ----

  const COUNTRY := Field("58", "GH")

  function AfterCountry(b: Business, amount: Option<real>): seq<Field> {
    [Field("59", ShortName(b))] + [Field("60", "ACCRA"), ChecksumField(b, amount)]
  }

  function AfterInfo(b: Business, amount: Option<real>): seq<Field> {
    [Field("52", "5999")] + ([Field("53", "936")] + (AmountFields(amount) + ([COUNTRY] + AfterCountry(b, amount))))
  }

  function Initiation(amount: Option<real>): Field {
    Field("01", if amount.Some? then "12" else "11")
  }

  lemma PayloadFields(b: Business, amount: Option<real>)
    ensures Payload(b, amount)
         == Encode([Field("00", "01")] + ([Initiation(amount)] + ([InfoField(b)] + AfterInfo(b, amount))))
  {
    PayloadIsEncoding(b, amount);
    var h, a, t := Head(b, amount), AmountFields(amount), Tail(b) + [ChecksumField(b, amount)];
    assert Fields(b, amount) + [ChecksumField(b, amount)] == h + (a + t);
    assert t == [COUNTRY] + AfterCountry(b, amount);
    HeadThen(b, amount, a + t);
  }

  lemma HeadThen(b: Business, amount: Option<real>, rest: seq<Field>)
    ensures Head(b, amount) + rest
         == [Field("00", "01")] + ([Initiation(amount)] + ([InfoField(b)]
            + ([Field("52", "5999")] + ([Field("53", "936")] + rest))))
  {
  }

  lemma SameAfterInfo(b: Business, x: Option<real>, c: Business, y: Option<real>)
    requires Encode(AfterInfo(b, x)) == Encode(AfterInfo(c, y)) && x.Some? == y.Some?
    ensures AmountOf(x) == AmountOf(y) && ShortName(b) == ShortName(c)
  {
    var r := AmountFields(x) + ([COUNTRY] + AfterCountry(b, x));
    var q := AmountFields(y) + ([COUNTRY] + AfterCountry(c, y));
    Peel(Field("52", "5999"), [Field("53", "936")] + r, Field("52", "5999"), [Field("53", "936")] + q);
    Peel(Field("53", "936"), r, Field("53", "936"), q);
    SameAmount(x, AfterCountry(b, x), y, AfterCountry(c, y), COUNTRY);
    SameName(Field("59", ShortName(b)), [Field("60", "ACCRA"), ChecksumField(b, x)],
             Field("59", ShortName(c)), [Field("60", "ACCRA"), ChecksumField(c, y)]);
  }

  lemma SameFront(b: Business, x: Option<real>, c: Business, y: Option<real>)
    requires Payload(b, x) == Payload(c, y)
    ensures x.Some? == y.Some?
    ensures Encode([InfoField(b)] + AfterInfo(b, x)) == Encode([InfoField(c)] + AfterInfo(c, y))
  {
    PayloadFields(b, x);
    PayloadFields(c, y);
    var r, q := [InfoField(b)] + AfterInfo(b, x), [InfoField(c)] + AfterInfo(c, y);
    Peel(Field("00", "01"), [Initiation(x)] + r, Field("00", "01"), [Initiation(y)] + q);
    Peel(Initiation(x), r, Initiation(y), q);
    SamePrinted(Initiation(x), Initiation(y));
  }

  lemma SameParts(b: Business, x: Option<real>, c: Business, y: Option<real>)
    requires EffectiveId(b) == EffectiveId(c) && ShortName(b) == ShortName(c) && AmountOf(x) == AmountOf(y)
    ensures Fields(b, x) == Fields(c, y)
  {
    assert AmountFields(x) == AmountFields(y);
  }

  /** Payloads are equal exactly when the effective ids, the first 25 characters of the names
      and the amounts in pesewas are, no amount and amount zero being different. */
  lemma SamePayloadIff(b: Business, x: Option<real>, c: Business, y: Option<real>)
    ensures Payload(b, x) == Payload(c, y)
            <==> && EffectiveId(b) == EffectiveId(c)
                 && ShortName(b) == ShortName(c)
                 && AmountOf(x) == AmountOf(y)
  {
    if Payload(b, x) == Payload(c, y) {
      SameFront(b, x, c, y);
      SameInfo(b, AfterInfo(b, x), c, AfterInfo(c, y));
      SameAfterInfo(b, x, c, y);
    }
    if EffectiveId(b) == EffectiveId(c) && ShortName(b) == ShortName(c) && AmountOf(x) == AmountOf(y) {
      SameParts(b, x, c, y);
    }
  }

  /** Two merchants with ids of their own never have a payload in common, unless the ids are the
      same; a merchant without one shares the payloads of the default id. */
  lemma OwnIdsTell(b: Business, x: Option<real>, c: Business, y: Option<real>)
    requires b.merchantId.Some? && b.merchantId.value != ""
    ensures c.merchantId.Some? && c.merchantId.value != "" && c.merchantId != b.merchantId ==>
              Payload(b, x) != Payload(c, y)
    ensures c.merchantId in {None, Some("")} && b.merchantId != Some("SMEFLOW000001") ==>
              Payload(b, x) != Payload(c, y)
    ensures c.merchantId in {None, Some("")} && b == c.(merchantId := Some("SMEFLOW000001")) ==>
              Payload(b, x) == Payload(c, x)
  {
    SamePayloadIff(b, x, c, y);
    SamePayloadIff(b, x, c, x);
  }
}
