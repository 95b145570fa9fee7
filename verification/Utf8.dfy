/** The UTF-8 encoding of text. */
module Utf8 {
  import opened Crc16
  import opened Wrappers

  function EncodeChar(c: char): (b: seq<Byte>)
    ensures 1 <= |b| <= 4
  {
    var n := c as int;
    if n < 0x80 then [n as Byte]
    else if n < 0x800 then [(0xC0 + n / 64) as Byte, (0x80 + n % 64) as Byte]
    else if n < 0x10000 then
      [(0xE0 + n / 4096) as Byte, (0x80 + n / 64 % 64) as Byte, (0x80 + n % 64) as Byte]
    else
      [(0xF0 + n / 262144) as Byte, (0x80 + n / 4096 % 64) as Byte,
       (0x80 + n / 64 % 64) as Byte, (0x80 + n % 64) as Byte]
  }

  function Bytes(s: string): (b: seq<Byte>)
    ensures |b| >= |s|
  {
    if s == "" then [] else EncodeChar(s[0]) + Bytes(s[1..])
  }

  lemma {:induction false} BytesConcat(s: string, t: string)
    ensures Bytes(s + t) == Bytes(s) + Bytes(t)
  {
    if s == "" {
      assert s + t == t;
    } else {
      assert (s + t)[1..] == s[1..] + t;
      BytesConcat(s[1..], t);
    }
  }

  lemma {:induction false} BytesBound(s: string)
    ensures |Bytes(s)| <= 4 * |s|
  {
    if s != "" {
      BytesBound(s[1..]);
    }
  }

  // ---- The strict reader ----

  predicate IsTrail(b: Byte) {
    0x80 <= b <= 0xBF
  }

  function TrailValue(b: Byte): int {
    b as int - 0x80
  }

  /** The scalar value of one encoded character, by the syntax of section 4 of RFC 3629: no
      other lengths, no stray bytes, no overlong forms, no surrogates, nothing above 10FFFF. */
  function ReadChar(b: seq<Byte>): Option<int> {
    if |b| == 1 && b[0] <= 0x7F then Some(b[0] as int)
    else if |b| == 2 && 0xC2 <= b[0] <= 0xDF && IsTrail(b[1]) then
      Some(64 * (b[0] as int - 0xC0) + TrailValue(b[1]))
    else if |b| == 3 && 0xE0 <= b[0] <= 0xEF && IsTrail(b[1]) && IsTrail(b[2]) then
      var n := 4096 * (b[0] as int - 0xE0) + 64 * TrailValue(b[1]) + TrailValue(b[2]);
      if n >= 0x800 && !(0xD800 <= n <= 0xDFFF) then Some(n) else None
    else if |b| == 4 && 0xF0 <= b[0] <= 0xF4 && IsTrail(b[1]) && IsTrail(b[2]) && IsTrail(b[3]) then
      var n := 262144 * (b[0] as int - 0xF0) + 4096 * TrailValue(b[1]) + 64 * TrailValue(b[2]) + TrailValue(b[3]);
      if 0x10000 <= n <= 0x10FFFF then Some(n) else None
    else None
  }

  lemma Digits64(n: int)
    requires n >= 0
    ensures n == 64 * (n / 64) + n % 64
    ensures n == 4096 * (n / 4096) + 64 * (n / 64 % 64) + n % 64
    ensures n == 262144 * (n / 262144) + 4096 * (n / 4096 % 64) + 64 * (n / 64 % 64) + n % 64
  {
    var a := n / 64;
    var b := a / 64;
    assert b == n / 4096 && b / 64 == n / 262144;
    assert a == 64 * b + a % 64 && b == 64 * (b / 64) + b % 64;
  }

  /** Every character reads back from its encoding. */
  lemma CharReadsBack(c: char)
    ensures ReadChar(EncodeChar(c)) == Some(c as int)
  {
    Digits64(c as int);
  }

  lemma Parts(n: int, w: int, x: int, y: int, z: int)
    requires 0 <= w && 0 <= x < 64 && 0 <= y < 64 && 0 <= z < 64
    requires n == 262144 * w + 4096 * x + 64 * y + z
    ensures n % 64 == z && n / 64 % 64 == y && n / 4096 % 64 == x
    ensures n / 64 == 4096 * w + 64 * x + y && n / 4096 == 64 * w + x && n / 262144 == w
  {
    assert n / 64 == 4096 * w + 64 * x + y;
    assert n / 64 / 64 == 64 * w + x;
    assert n / 64 / 64 / 64 == w;
  }

  predicate IsScalar(n: int) {
    0 <= n < 0xD800 || 0xE000 <= n < 0x110000
  }

  lemma ReadTwo(b: seq<Byte>)
    requires |b| == 2 && ReadChar(b).Some?
    ensures IsScalar(ReadChar(b).value) && b == EncodeChar(ReadChar(b).value as char)
  {
    Parts(ReadChar(b).value, 0, 0, b[0] as int - 0xC0, TrailValue(b[1]));
  }

  lemma ReadThree(b: seq<Byte>)
    requires |b| == 3 && ReadChar(b).Some?
    ensures IsScalar(ReadChar(b).value) && b == EncodeChar(ReadChar(b).value as char)
  {
    Parts(ReadChar(b).value, 0, b[0] as int - 0xE0, TrailValue(b[1]), TrailValue(b[2]));
  }

  lemma ReadFour(b: seq<Byte>)
    requires |b| == 4 && ReadChar(b).Some?
    ensures IsScalar(ReadChar(b).value) && b == EncodeChar(ReadChar(b).value as char)
  {
    Parts(ReadChar(b).value, b[0] as int - 0xF0, TrailValue(b[1]), TrailValue(b[2]), TrailValue(b[3]));
  }

  /** The strict reader takes exactly the encoding of a character for that character. */
  lemma ReadCharIff(b: seq<Byte>, c: char)
    ensures ReadChar(b) == Some(c as int) <==> b == EncodeChar(c)
  {
    CharReadsBack(c);
    if ReadChar(b).Some? {
      if |b| == 2 {
        ReadTwo(b);
      } else if |b| == 3 {
        ReadThree(b);
      } else if |b| == 4 {
        ReadFour(b);
      }
    }
  }

  /** How many bytes a character takes can be told from the first of them. */
  function CharLength(b: Byte): nat {
    if b < 0x80 then 1 else if b < 0xE0 then 2 else if b < 0xF0 then 3 else 4
  }

  lemma LengthFromFirst(c: char)
    ensures |EncodeChar(c)| == CharLength(EncodeChar(c)[0])
  {
  }

  lemma EncodeCharInjective(c: char, d: char)
    ensures EncodeChar(c) == EncodeChar(d) <==> c == d
  {
    CharReadsBack(c);
    CharReadsBack(d);
  }

  /** Different texts have different encodings. */
  lemma {:induction false} BytesInjective(s: string, t: string)
    ensures Bytes(s) == Bytes(t) <==> s == t
  {
    if Bytes(s) == Bytes(t) {
      if s != "" && t != "" {
        var a, b := EncodeChar(s[0]), EncodeChar(t[0]);
        var u := Bytes(s);
        LengthFromFirst(s[0]);
        LengthFromFirst(t[0]);
        assert u[0] == a[0] && Bytes(t)[0] == b[0];
        assert u[..|a|] == a && Bytes(t)[..|b|] == b;
        EncodeCharInjective(s[0], t[0]);
        assert u[|a|..] == Bytes(s[1..]) && Bytes(t)[|b|..] == Bytes(t[1..]);
        BytesInjective(s[1..], t[1..]);
        assert s == [s[0]] + s[1..] && t == [t[0]] + t[1..];
      }
    }
  }
}
