/** Tag-length-value fields: two characters of tag, two digits of length, the value. */
module Tlv {
  import opened Wrappers
  import opened Numerals

  datatype Field = Field(tag: string, value: string)

  /** One field. A value of 100 or more characters prints three digits of length. */
  function Print(f: Field): string {
    f.tag + TwoDigits(|f.value|) + f.value
  }

  function Encode(fields: seq<Field>): string {
    if fields == [] then "" else Print(fields[0]) + Encode(fields[1..])
  }

  predicate WellFormed(f: Field) {
    |f.tag| == 2 && |f.value| <= 99
  }

  predicate AllWellFormed(fields: seq<Field>) {
    forall i :: 0 <= i < |fields| ==> WellFormed(fields[i])
  }

  /** The strict reader: takes fields until the text is used up, and refuses a text that
      ends early or has something other than digits where a length belongs. */
  function Parse(s: string): Option<seq<Field>>
    decreases |s|
  {
    if s == "" then Some([])
    else if |s| < 4 || !IsDigit(s[2]) || !IsDigit(s[3]) then None
    else
      var n := 10 * DigitValue(s[2]) + DigitValue(s[3]);
      if |s| < 4 + n then None
      else match Parse(s[4 + n..])
        case None => None
        case Some(rest) => Some([Field(s[..2], s[4..4 + n])] + rest)
  }

  /** The reader takes one well-formed field off the front. */
  lemma ParseStep(f: Field, tail: string)
    requires WellFormed(f)
    ensures Parse(Print(f) + tail) ==
            match Parse(tail)
              case None => None
              case Some(rest) => Some([f] + rest)
  {
    var n := |f.value|;
    var s := Print(f) + tail;
    TwoDigitsSplit(n);
    assert s[2] == DigitChar(n / 10) && s[3] == DigitChar(n % 10);
    assert s[..2] == f.tag;
    assert s[4..4 + n] == f.value;
    assert s[4 + n..] == tail;
  }

  lemma {:induction false} ParseEncoded(fields: seq<Field>)
    requires AllWellFormed(fields)
    ensures Parse(Encode(fields)) == Some(fields)
    decreases |fields|
  {
    if fields != [] {
      assert AllWellFormed(fields[1..]);
      ParseEncoded(fields[1..]);
      ParseStep(fields[0], Encode(fields[1..]));
      assert [fields[0]] + fields[1..] == fields;
    }
  }

  /** Whatever the reader accepts is the printed form of what it returns. */
  lemma {:induction false} ParsedIsEncoded(s: string)
    requires Parse(s).Some?
    ensures AllWellFormed(Parse(s).value) && Encode(Parse(s).value) == s
    decreases |s|
  {
    if s != "" {
      var n := 10 * DigitValue(s[2]) + DigitValue(s[3]);
      var f := Field(s[..2], s[4..4 + n]);
      ParsedIsEncoded(s[4 + n..]);
      FieldTaken(s, n);
      EncodeCons(f, Parse(s[4 + n..]).value);
    }
  }

  lemma EncodeCons(f: Field, rest: seq<Field>)
    ensures Encode([f] + rest) == Print(f) + Encode(rest)
    ensures AllWellFormed([f] + rest) <==> WellFormed(f) && AllWellFormed(rest)
  {
  }

  lemma FieldTaken(s: string, n: nat)
    requires |s| >= 4 + n && IsDigit(s[2]) && IsDigit(s[3])
    requires n == 10 * DigitValue(s[2]) + DigitValue(s[3])
    ensures s == Print(Field(s[..2], s[4..4 + n])) + s[4 + n..]
  {
    LengthDigits(s[2], s[3]);
    assert s == s[..2] + [s[2], s[3]] + s[4..4 + n] + s[4 + n..];
  }

  lemma LengthDigits(a: char, b: char)
    requires IsDigit(a) && IsDigit(b)
    ensures TwoDigits(10 * DigitValue(a) + DigitValue(b)) == [a, b]
  {
    TwoDigitsSplit(10 * DigitValue(a) + DigitValue(b));
    assert DigitChar(DigitValue(a)) == a && DigitChar(DigitValue(b)) == b;
  }

  /** The reader is exactly the inverse of the printer on lists of well-formed fields. */
  lemma ParseIffEncode(s: string, fields: seq<Field>)
    ensures Parse(s) == Some(fields) <==> AllWellFormed(fields) && Encode(fields) == s
  {
    if Parse(s) == Some(fields) {
      ParsedIsEncoded(s);
    }
    if AllWellFormed(fields) && Encode(fields) == s {
      ParseEncoded(fields);
    }
  }

  /** A list of fields reads back as itself exactly when every tag has two characters and
      every value at most 99. */
  lemma RoundTripIff(fields: seq<Field>)
    ensures Parse(Encode(fields)) == Some(fields) <==> AllWellFormed(fields)
  {
    ParseIffEncode(Encode(fields), fields);
  }

  /** Two lists of well-formed fields never share an encoding. */
  lemma UniqueDecoding(a: seq<Field>, b: seq<Field>)
    requires AllWellFormed(a) && AllWellFormed(b)
    ensures Encode(a) == Encode(b) <==> a == b
  {
    ParseEncoded(a);
    ParseEncoded(b);
  }

  lemma {:induction false} EncodeConcat(a: seq<Field>, b: seq<Field>)
    ensures Encode(a + b) == Encode(a) + Encode(b)
  {
    if a == [] {
      assert a + b == b;
    } else {
      assert (a + b)[1..] == a[1..] + b;
      EncodeConcat(a[1..], b);
    }
  }

  /** With a value of 100 characters decoding is no longer unique: this one prints like two
      other, well-formed fields. */
  lemma LongValueIsAmbiguous() returns (long: Field, short: seq<Field>)
    ensures |long.tag| == 2 && |long.value| == 100
    ensures AllWellFormed(short) && Encode([long]) == Encode(short)
  {
    var zeros, xs := seq(9, _ => '0'), seq(87, _ => 'x');
    long := Field("00", zeros + ("0087" + xs));
    short := [Field("00", zeros + "0")] + [Field("00", xs)];
    SmallNumerals();
    EncodeConcat([short[0]], [short[1]]);
    EncodeOne(long);
    EncodeOne(short[0]);
    EncodeOne(short[1]);
    SamePieces(zeros, xs);
  }

  lemma EncodeOne(f: Field)
    ensures Encode([f]) == Print(f)
  {
  }

  lemma SmallNumerals()
    ensures TwoDigits(10) == "10" && TwoDigits(87) == "87" && TwoDigits(100) == "100"
  {
  }

  lemma SamePieces(zeros: string, xs: string)
    requires |zeros| == 9 && zeros == seq(9, _ => '0')
    ensures "00" + "100" + (zeros + ("0087" + xs)) == ("00" + "10" + (zeros + "0")) + ("00" + "87" + xs)
  {
  }
}
