/** The laws of the checksum, told of the program's own register and bytes. */
module CrcLaws {
  import opened Bits
  import opened BitInts
  import opened CrcRegister
  import opened Crc16

  // ---- Bursts ----

  /** The strings agree outside the n positions from start on. */
  predicate AgreeOutside(a: Bits, b: Bits, start: nat, n: nat) {
    && |a| == |b|
    && start + n <= |a|
    && a[..start] == b[..start]
    && a[start + n..] == b[start + n..]
  }

  lemma WindowedBurst(p: Bits, q: Bits, start: nat, n: nat)
    requires AgreeOutside(p, q, start, n) && n <= 16
    ensures Checksum(p) == Checksum(q) <==> p == q
  {
    var before, a, b, after := p[..start], p[start..start + n], q[start..start + n], p[start + n..];
    assert p == before + a + after;
    assert q == before + b + after;
    BurstDetected(before, a, b, after);
  }

  /** Byte strings of one length that differ only inside a window of at most 16 consecutive
      bits, wherever it starts, leave the same register only if they are equal. */
  lemma RegisterBurst(a: seq<Byte>, b: seq<Byte>, start: nat, n: nat)
    requires |a| == |b| && n <= 16
    requires AgreeOutside(MessageBits(a), MessageBits(b), start, n)
    ensures Register(a) == Register(b) <==> a == b
  {
    SameRegister(a, b);
    MessageBitsInjective(a, b);
    WindowedBurst(MessageBits(a), MessageBits(b), start, n);
  }

  // ---- Residue ----

  lemma {:induction false} LowBitsConcat(m: nat, n: nat, j: nat, k: nat)
    requires Fits(n, k)
    ensures LowBits(ShiftLeft(m, k) + n, j + k) == LowBits(m, j) + LowBits(n, k)
    ensures Fits(m, j) ==> Fits(ShiftLeft(m, k) + n, j + k)
    decreases k
  {
    if k == 0 {
      assert LowBits(m, j) + [] == LowBits(m, j);
    } else {
      LowBitsConcat(m, n / 2, j, k - 1);
      var t := ShiftLeft(m, k) + n;
      assert t / 2 == ShiftLeft(m, k - 1) + n / 2 && t % 2 == n % 2;
      assert LowBits(m, j) + LowBits(n, k)
          == (LowBits(m, j) + LowBits(n / 2, k - 1)) + [n % 2 == 1];
    }
  }

  lemma EightShifts(n: nat)
    ensures ShiftLeft(n, 8) == 256 * n
  {
    ShiftValues(n);
    assert ShiftLeft(n, 8) == 2 * ShiftLeft(n, 7) == 4 * ShiftLeft(n, 6);
  }

  lemma TwoBytes(hi: Byte, lo: Byte)
    ensures MessageBits([hi, lo]) == WordBits(256 * (hi as nat) + lo as nat)
  {
    FitsByte(lo as nat);
    LowBitsConcat(hi as nat, lo as nat, 8, 8);
    EightShifts(hi as nat);
    assert [hi, lo][1..] == [lo] && [lo][1..] == [];
    assert MessageBits([lo]) == ByteBits(lo) + MessageBits([]);
    assert MessageBits([hi, lo]) == ByteBits(hi) + MessageBits([lo]);
  }

  /** Two more bytes bring the register to zero exactly when they are its own high and low
      byte. */
  lemma RegisterResidue(data: seq<Byte>, hi: Byte, lo: Byte)
    ensures Register(data + [hi, lo]) == 0 <==> Register(data) == 256 * (hi as nat) + lo as nat
  {
    var suffix := 256 * (hi as nat) + lo as nat;
    var r, s := Register(data), Register(data + [hi, lo]);
    RegisterIsChecksum(data);
    RegisterIsChecksum(data + [hi, lo]);
    MessageBitsConcat(data, [hi, lo]);
    TwoBytes(hi, lo);
    Residue(MessageBits(data), WordBits(suffix));
    RegisterFits(data);
    RegisterFits(data + [hi, lo]);
    FitsWord(r);
    FitsWord(s);
    FitsWord(suffix);
    FitsWord(0);
    LowBitsZero(16);
    BitInts.SameBits(s, 0, 16);
    BitInts.SameBits(r, suffix, 16);
  }

  // ---- Sums ----

  lemma ByteXorFits(a: Byte, b: Byte)
    ensures BitXor(a as nat, b as nat) < 256
  {
    FitsByte(a as nat);
    FitsByte(b as nat);
    FitsXor(a as nat, b as nat, 8);
    FitsByte(BitXor(a as nat, b as nat));
  }

  function ByteXor(a: Byte, b: Byte): Byte {
    ByteXorFits(a, b);
    BitXor(a as nat, b as nat) as Byte
  }

  /** The sum of two byte strings of one length. */
  function BytesXor(a: seq<Byte>, b: seq<Byte>): (c: seq<Byte>)
    requires |a| == |b|
    ensures |c| == |a|
  {
    if a == [] then [] else [ByteXor(a[0], b[0])] + BytesXor(a[1..], b[1..])
  }

  lemma XorConcat(a: Bits, b: Bits, c: Bits, d: Bits)
    requires |a| == |c| && |b| == |d|
    ensures Xor(a + b, c + d) == Xor(a, c) + Xor(b, d)
  {
  }

  lemma {:induction false} MessageBitsXor(a: seq<Byte>, b: seq<Byte>)
    requires |a| == |b|
    ensures MessageBits(BytesXor(a, b)) == Xor(MessageBits(a), MessageBits(b))
  {
    if a != [] {
      var c := BytesXor(a, b);
      MessageBitsXor(a[1..], b[1..]);
      LowBitsXor(a[0] as nat, b[0] as nat, 8);
      assert c[0] == ByteXor(a[0], b[0]) && c[1..] == BytesXor(a[1..], b[1..]);
      XorConcat(ByteBits(a[0]), MessageBits(a[1..]), ByteBits(b[0]), MessageBits(b[1..]));
    }
  }

  /** The register of the sum of three byte strings of one length is the sum of their
      registers. */
  lemma RegisterAffine(a: seq<Byte>, b: seq<Byte>, c: seq<Byte>)
    requires |a| == |b| == |c|
    ensures Register(BytesXor(BytesXor(a, b), c)) == BitXor(BitXor(Register(a), Register(b)), Register(c))
  {
    var sum := BytesXor(BytesXor(a, b), c);
    var x := BitXor(BitXor(Register(a), Register(b)), Register(c));
    MessageBitsXor(a, b);
    MessageBitsXor(BytesXor(a, b), c);
    ChecksumAffine(MessageBits(a), MessageBits(b), MessageBits(c));
    RegisterIsChecksum(a);
    RegisterIsChecksum(b);
    RegisterIsChecksum(c);
    RegisterIsChecksum(sum);
    LowBitsXor(Register(a), Register(b), 16);
    LowBitsXor(BitXor(Register(a), Register(b)), Register(c), 16);
    AllFit(a, b, c, sum);
    BitInts.SameBits(Register(sum), x, 16);
  }

  lemma AllFit(a: seq<Byte>, b: seq<Byte>, c: seq<Byte>, d: seq<Byte>)
    ensures Fits(BitXor(BitXor(Register(a), Register(b)), Register(c)), 16) && Fits(Register(d), 16)
  {
    RegisterFits(a);
    RegisterFits(b);
    RegisterFits(c);
    RegisterFits(d);
    FitsWord(Register(a));
    FitsWord(Register(b));
    FitsWord(Register(c));
    FitsWord(Register(d));
    FitsXor(Register(a), Register(b), 16);
    FitsXor(BitXor(Register(a), Register(b)), Register(c), 16);
  }

  // ---- Parity ----

  /** The number of ones in the binary form of n is odd. */
  predicate OddOnes(n: nat) {
    if n == 0 then false else (n % 2 == 1) != OddOnes(n / 2)
  }

  function OddOnesIn(data: seq<Byte>): bool {
    if data == [] then false else OddOnes(data[0] as nat) != OddOnesIn(data[1..])
  }

  lemma {:induction false} OddOnesBits(n: nat, k: nat)
    requires Fits(n, k)
    ensures OddOnes(n) == Parity(LowBits(n, k))
    decreases k
  {
    if k > 0 {
      OddOnesBits(n / 2, k - 1);
      ParityAppend(LowBits(n / 2, k - 1), n % 2 == 1);
    }
  }

  lemma {:induction false} ParityConcat(a: Bits, b: Bits)
    ensures Parity(a + b) == (Parity(a) != Parity(b))
  {
    if a == [] {
      assert a + b == b;
    } else {
      assert (a + b)[1..] == a[1..] + b;
      ParityConcat(a[1..], b);
    }
  }

  lemma {:induction false} OddOnesMessage(data: seq<Byte>)
    ensures OddOnesIn(data) == Parity(MessageBits(data))
  {
    if data != [] {
      FitsByte(data[0] as nat);
      OddOnesBits(data[0] as nat, 8);
      OddOnesMessage(data[1..]);
      ParityConcat(ByteBits(data[0]), MessageBits(data[1..]));
    }
  }

  /** The register has an odd number of ones exactly when the message has. */
  lemma RegisterParity(data: seq<Byte>)
    ensures OddOnes(Register(data)) == OddOnesIn(data)
  {
    RegisterIsChecksum(data);
    ChecksumParity(MessageBits(data));
    OddOnesMessage(data);
    RegisterFits(data);
    FitsWord(Register(data));
    OddOnesBits(Register(data), 16);
  }
}
