/**
 The two checksum loops of components/sd_spi_driver/diskio_sd_spi.c, proved to compute
 polynomial remainders (section 4.5 of the SD Physical Layer Simplified Specification).
 */
module Crc {
  import opened Bytes
  import opened Gf2

  /** x^12 + x^5 + 1: what 0x1021 leaves out is the x^16. */
  const CCITT16: Bits := Bits16(0x1021)

  /** x^3 + 1: what 0x09 leaves out is the x^7. */
  const SD7: Bits := [false, false, false, true, false, false, true]

  /** The i-th bit of a word, counted from the top. */
  predicate BitAt16(r: bv16, i: nat)
    requires i < 16
  {
    r & Mask16(i) != 0
  }

  predicate BitAt8(b: byte, i: nat)
    requires i < 8
  {
    b & Mask8(i) != 0
  }

  function Mask16(i: nat): bv16
    requires i < 16
  {
    [0x8000, 0x4000, 0x2000, 0x1000, 0x0800, 0x0400, 0x0200, 0x0100,
     0x0080, 0x0040, 0x0020, 0x0010, 0x0008, 0x0004, 0x0002, 0x0001][i]
  }

  function Mask8(i: nat): byte
    requires i < 8
  {
    [0x80, 0x40, 0x20, 0x10, 0x08, 0x04, 0x02, 0x01][i]
  }

  function Bits16(r: bv16): (s: Bits)
    ensures |s| == 16
  {
    seq(16, i requires 0 <= i < 16 => BitAt16(r, i))
  }

  function Bits8(b: byte): (s: Bits)
    ensures |s| == 8
  {
    seq(8, i requires 0 <= i < 8 => BitAt8(b, i))
  }

  /** The bits of a byte string in the order they travel. */
  function MessageBits(data: seq<byte>): (m: Bits)
    ensures |m| == 8 * |data|
  {
    if data == [] then [] else MessageBits(data[..|data| - 1]) + Bits8(data[|data| - 1])
  }

  ghost function Register16(data: seq<byte>): (r: Bits)
    ensures |r| == 16
  {
    Feed(CCITT16, Zeros(16), MessageBits(data))
  }

  ghost function Register7(data: seq<byte>): (r: Bits)
    ensures |r| == 7
  {
    Feed(SD7, Zeros(7), MessageBits(data))
  }

  // ----- Words as bits -----

  lemma XorAt16(r: bv16, q: bv16, i: nat)
    requires i < 16
    ensures BitAt16(r ^ q, i) == (BitAt16(r, i) != BitAt16(q, i))
  {
    XorUnderMask16(r, q, Mask16(i));
  }

  lemma XorUnderMask16(r: bv16, q: bv16, mask: bv16)
    requires mask & (mask - 1) == 0
    ensures ((r ^ q) & mask != 0) == ((r & mask != 0) != (q & mask != 0))
  {
  }

  lemma XorAt8(r: byte, q: byte, i: nat)
    requires i < 8
    ensures BitAt8(r ^ q, i) == (BitAt8(r, i) != BitAt8(q, i))
  {
    XorUnderMask8(r, q, Mask8(i));
  }

  lemma XorUnderMask8(r: byte, q: byte, mask: byte)
    requires mask & (mask - 1) == 0
    ensures ((r ^ q) & mask != 0) == ((r & mask != 0) != (q & mask != 0))
  {
  }

  lemma XorBits16(r: bv16, q: bv16)
    ensures Bits16(r ^ q) == Xor(Bits16(r), Bits16(q))
  {
    forall i | 0 <= i < 16 ensures Bits16(r ^ q)[i] == (Bits16(r)[i] != Bits16(q)[i]) {
      XorAt16(r, q, i);
    }
  }

  lemma XorBits8(r: byte, q: byte)
    ensures Bits8(r ^ q) == Xor(Bits8(r), Bits8(q))
  {
    forall i | 0 <= i < 8 ensures Bits8(r ^ q)[i] == (Bits8(r)[i] != Bits8(q)[i]) {
      XorAt8(r, q, i);
    }
  }

  lemma ShiftAt16(r: bv16, i: nat)
    requires i < 16
    ensures BitAt16(r << 1, i) == (i < 15 && BitAt16(r, i + 1))
  {
  }

  lemma ShiftAt8(r: byte, i: nat)
    requires i < 8
    ensures BitAt8(r << 1, i) == (i < 7 && BitAt8(r, i + 1))
  {
  }

  lemma ShiftBits16(r: bv16)
    ensures Bits16(r << 1) == Bits16(r)[1..] + [false]
  {
    forall i | 0 <= i < 16 ensures Bits16(r << 1)[i] == (Bits16(r)[1..] + [false])[i] {
      ShiftAt16(r, i);
    }
  }

  lemma ShiftBits8(r: byte)
    ensures Bits8(r << 1) == Bits8(r)[1..] + [false]
  {
    forall i | 0 <= i < 8 ensures Bits8(r << 1)[i] == (Bits8(r)[1..] + [false])[i] {
      ShiftAt8(r, i);
    }
  }

  /** The octet moved to the top half of a word. */
  lemma HighByteBits(b: byte)
    ensures Bits16((b as bv16) << 8) == Bits8(b) + Zeros(8)
  {
    forall i | 0 <= i < 16 ensures Bits16((b as bv16) << 8)[i] == (i < 8 && Bits8(b)[i]) {
      HighByteAt(b, i);
    }
  }

  lemma HighByteAt(b: byte, i: nat)
    requires i < 16
    ensures BitAt16((b as bv16) << 8, i) == (i < 8 && BitAt8(b, i))
  {
  }

  function HighByte(r: bv16): byte {
    (r >> 8) as byte
  }

  function LastByte(r: bv16): byte {
    (r & 0xFF) as byte
  }

  lemma HighByteOfWord(r: bv16, i: nat)
    requires i < 8
    ensures BitAt16(r, i) == BitAt8(HighByte(r), i)
  {
  }

  lemma LastByteOfWord(r: bv16, i: nat)
    requires i < 8
    ensures BitAt16(r, i + 8) == BitAt8(LastByte(r), i)
  {
  }

  /** A word sent as its high octet and then its low octet. */
  lemma WordInTwoBytes(r: bv16)
    ensures Bits16(r) == Bits8(HighByte(r)) + Bits8(LastByte(r))
  {
    forall i | 0 <= i < 16
      ensures Bits16(r)[i] == (Bits8(HighByte(r)) + Bits8(LastByte(r)))[i]
    {
      if i < 8 { HighByteOfWord(r, i); } else { LastByteOfWord(r, i - 8); }
    }
  }

  // ----- The loops -----

  /** crc16(): octets added at the top of the word, then eight clocks each. */
  method Crc16(data: seq<byte>) returns (crc: bv16)
    requires |data| < 0x1_0000
    ensures Bits16(crc) == Register16(data)
  {
    crc := 0;
    assert Bits16(0) == Zeros(16);
    for i := 0 to |data|
      invariant Bits16(crc) == Register16(data[..i])
    {
      ghost var before, bits := Bits16(crc), Bits8(data[i]);
      LoadByte16(crc, data[i]);
      crc := crc ^ ((data[i] as bv16) << 8);
      for j := 0 to 8
        invariant Bits16(crc) == Preloaded(CCITT16, before, bits, j)
      {
        Clock16(crc, before, bits, j);
        if crc & 0x8000 != 0 {
          crc := (crc << 1) ^ 0x1021;
        } else {
          crc := crc << 1;
        }
      }
      ByteDone(CCITT16, Zeros(16), data, i, before);
    }
    assert data[..|data|] == data;
  }

  /** crc7(): the seven-bit register sits one place up, and the stop bit closes the octet. */
  method Crc7(data: seq<byte>) returns (crc: byte)
    requires |data| < 0x100
    ensures Bits8(crc) == Register7(data) + [true]
  {
    crc := 0;
    ghost var wide := SD7 + [false];
    assert Bits8(0) == Zeros(8);
    for i := 0 to |data|
      invariant Bits8(crc) == Feed(wide, Zeros(8), MessageBits(data[..i]))
    {
      ghost var before, bits := Bits8(crc), Bits8(data[i]);
      LoadByte8(crc, data[i]);
      crc := crc ^ data[i];
      for j := 0 to 8
        invariant Bits8(crc) == Preloaded(wide, before, bits, j)
      {
        Clock8(crc, before, bits, j);
        if crc & 0x80 != 0 {
          crc := (crc << 1) ^ 0x12;
        } else {
          crc := crc << 1;
        }
      }
      ByteDone(wide, Zeros(8), data, i, before);
    }
    assert data[..|data|] == data;
    assert Zeros(8) == Zeros(7) + [false];
    WideRegister(SD7, Zeros(7), MessageBits(data));
    StopBit(crc);
    crc := crc | 0x01;
  }

  lemma StopBit(b: byte)
    ensures Bits8(b | 0x01) == Bits8(b)[..7] + [true]
  {
    forall i | 0 <= i < 8 ensures Bits8(b | 0x01)[i] == (i == 7 || Bits8(b)[i]) {
      StopBitAt(b, i);
    }
  }

  lemma StopBitAt(b: byte, i: nat)
    requires i < 8
    ensures BitAt8(b | 0x01, i) == (i == 7 || BitAt8(b, i))
  {
  }

  /** The register after j of the 8 clocks, the octet having been added at the top beforehand. */
  ghost function Preloaded(g: Bits, s: Bits, bits: Bits, j: nat): (x: Bits)
    requires |g| == |s| >= 8 && |bits| == 8 && j <= 8
    ensures |x| == |s|
  {
    Xor(Feed(g, s, bits[..j]), bits[j..] + Zeros(|s| - (8 - j)))
  }

  lemma PreloadedStep(g: Bits, s: Bits, bits: Bits, j: nat)
    requires |g| == |s| >= 8 && |bits| == 8 && j < 8
    ensures var x := Preloaded(g, s, bits, j);
            Preloaded(g, s, bits, j + 1)
            == if x[0] then Xor(x[1..] + [false], g) else x[1..] + [false]
  {
    PreloadedClock(g, Feed(g, s, bits[..j]), bits[j..]);
    assert bits[..j + 1][..j] == bits[..j];
    assert bits[j..][1..] == bits[j + 1..];
  }

  lemma LoadByte16(crc: bv16, b: byte)
    ensures Bits16(crc ^ ((b as bv16) << 8)) == Preloaded(CCITT16, Bits16(crc), Bits8(b), 0)
  {
    XorBits16(crc, (b as bv16) << 8);
    HighByteBits(b);
  }

  lemma LoadByte8(crc: byte, b: byte)
    ensures Bits8(crc ^ b) == Preloaded(SD7 + [false], Bits8(crc), Bits8(b), 0)
  {
    XorBits8(crc, b);
  }

  lemma Clock16(crc: bv16, before: Bits, bits: Bits, j: nat)
    requires |before| == 16 && |bits| == 8 && j < 8
    requires Bits16(crc) == Preloaded(CCITT16, before, bits, j)
    ensures Bits16(if crc & 0x8000 != 0 then (crc << 1) ^ 0x1021 else crc << 1)
         == Preloaded(CCITT16, before, bits, j + 1)
  {
    ShiftBits16(crc);
    XorBits16(crc << 1, 0x1021);
    PreloadedStep(CCITT16, before, bits, j);
    assert Bits16(crc)[0] == BitAt16(crc, 0);
  }

  lemma Clock8(crc: byte, before: Bits, bits: Bits, j: nat)
    requires |before| == 8 && |bits| == 8 && j < 8
    requires Bits8(crc) == Preloaded(SD7 + [false], before, bits, j)
    ensures Bits8(if crc & 0x80 != 0 then (crc << 1) ^ 0x12 else crc << 1)
         == Preloaded(SD7 + [false], before, bits, j + 1)
  {
    ShiftBits8(crc);
    XorBits8(crc << 1, 0x12);
    PreloadedStep(SD7 + [false], before, bits, j);
    assert Bits8(crc)[0] == BitAt8(crc, 0);
    Generator8();
    hide Bits8;
  }

  lemma Generator8()
    ensures SD7 + [false] == Bits8(0x12)
  {
    var s, t := SD7 + [false], Bits8(0x12);
    assert !BitAt8(0x12, 0) && !BitAt8(0x12, 1) && !BitAt8(0x12, 2) && BitAt8(0x12, 3);
    assert !BitAt8(0x12, 4) && !BitAt8(0x12, 5) && BitAt8(0x12, 6) && !BitAt8(0x12, 7);
    hide BitAt8;
    forall i | 0 <= i < 8 ensures s[i] == t[i] {
      assert t[i] == BitAt8(0x12, i);
    }
  }

  /** Eight clocks take in one octet of the message. */
  lemma ByteDone(g: Bits, start: Bits, data: seq<byte>, i: nat, before: Bits)
    requires |g| == |start| >= 8 && i < |data|
    requires before == Feed(g, start, MessageBits(data[..i]))
    ensures Preloaded(g, before, Bits8(data[i]), 8) == Feed(g, start, MessageBits(data[..i + 1]))
  {
    var bits := Bits8(data[i]);
    assert bits[..8] == bits && bits[8..] + Zeros(|g|) == Zeros(|g|);
    FeedConcat(g, start, MessageBits(data[..i]), bits);
    assert data[..i + 1][..i] == data[..i];
    assert MessageBits(data[..i + 1]) == MessageBits(data[..i]) + bits;
  }

  // ----- What the checksums are worth -----

  /** CRC16 is the remainder of message * x^16 modulo x^16 + x^12 + x^5 + 1. */
  lemma Crc16IsTheRemainder(data: seq<byte>, r: Bits)
    ensures IsRemainder(CCITT16, MessageBits(data), r) <==> r == Register16(data)
  {
    RegisterIsTheRemainder(CCITT16, MessageBits(data), r);
  }

  lemma Crc7IsTheRemainder(data: seq<byte>, r: Bits)
    ensures IsRemainder(SD7, MessageBits(data), r) <==> r == Register7(data)
  {
    RegisterIsTheRemainder(SD7, MessageBits(data), r);
  }

  ghost predicate IsCodeword16(bits: Bits) {
    Feed(CCITT16, Zeros(16), bits) == Zeros(16)
  }

  /** The check bits that complete a message are exactly its CRC. */
  lemma CodewordIffCrc(data: seq<byte>, check: Bits)
    requires |check| == 16
    ensures IsCodeword16(MessageBits(data) + check) <==> check == Register16(data)
  {
    var s := Register16(data);
    FeedConcat(CCITT16, Zeros(16), MessageBits(data), check);
    FeedSelfIsZero(CCITT16, check);
    if Feed(CCITT16, s, check) == Zeros(16) {
      ConstantTerm();
      FeedInjective(CCITT16, s, check, check);
    }
  }

  lemma ConstantTerm()
    ensures CCITT16[15]
  {
    assert BitAt16(0x1021, 15);
  }

  /** Any burst of at most 16 wrong bits, in data or check bits, is caught, at any length. */
  lemma Crc16CatchesBursts(data: seq<byte>, error: Bits)
    requires |error| == 8 * |data| + 16
    requires IsBurst(error, 16) && error != Zeros(|error|)
    ensures !IsCodeword16(Xor(MessageBits(data) + Register16(data), error))
  {
    CodewordIffCrc(data, Register16(data));
    ConstantTerm();
    BurstIsDetected(CCITT16, MessageBits(data) + Register16(data), error);
  }

  /** On messages of one length the checksum of a sum is the sum of the checksums. */
  lemma Crc16IsLinear(a: seq<byte>, b: seq<byte>)
    requires |a| == |b|
    ensures Register16(XorBytes(a, b)) == Xor(Register16(a), Register16(b))
  {
    MessageBitsOfXor(a, b);
    assert Xor(Zeros(16), Zeros(16)) == Zeros(16);
    FeedLinear(CCITT16, Zeros(16), Zeros(16), MessageBits(a), MessageBits(b));
  }

  function XorBytes(a: seq<byte>, b: seq<byte>): (c: seq<byte>)
    requires |a| == |b|
    ensures |c| == |a|
  {
    seq(|a|, i requires 0 <= i < |a| => a[i] ^ b[i])
  }

  lemma {:induction false} MessageBitsOfXor(a: seq<byte>, b: seq<byte>)
    requires |a| == |b|
    ensures MessageBits(XorBytes(a, b)) == Xor(MessageBits(a), MessageBits(b))
  {
    if a != [] {
      var k := |a| - 1;
      MessageBitsOfXor(a[..k], b[..k]);
      XorBits8(a[k], b[k]);
      XorBytesLast(a, b);
      XorOfConcat(MessageBits(a[..k]), Bits8(a[k]), MessageBits(b[..k]), Bits8(b[k]));
    }
  }

  lemma XorBytesLast(a: seq<byte>, b: seq<byte>)
    requires |a| == |b| > 0
    ensures var k := |a| - 1;
            MessageBits(XorBytes(a, b)) == MessageBits(XorBytes(a[..k], b[..k])) + Bits8(a[k] ^ b[k])
  {
    hide Bits8, XorBytes;
    XorBytesPrefix(a, b);
  }

  lemma XorBytesPrefix(a: seq<byte>, b: seq<byte>)
    requires |a| == |b| > 0
    ensures var k := |a| - 1;
            XorBytes(a, b)[..k] == XorBytes(a[..k], b[..k]) && XorBytes(a, b)[k] == a[k] ^ b[k]
  {
  }

  lemma XorOfConcat(a: Bits, a': Bits, b: Bits, b': Bits)
    requires |a| == |b| && |a'| == |b'|
    ensures Xor(a + a', b + b') == Xor(a, b) + Xor(a', b')
  {
  }

  lemma {:induction false} MessageBitsConcat(a: seq<byte>, b: seq<byte>)
    ensures MessageBits(a + b) == MessageBits(a) + MessageBits(b)
  {
    if b == [] {
      assert a + b == a;
    } else {
      var k := |b| - 1;
      MessageBitsConcat(a, b[..k]);
      assert (a + b)[..|a + b| - 1] == a + b[..k];
    }
  }

  lemma {:induction false} MessageBitsInjective(a: seq<byte>, b: seq<byte>)
    requires |a| == |b| && MessageBits(a) == MessageBits(b)
    ensures a == b
  {
    if a != [] {
      var k := |a| - 1;
      assert MessageBits(a)[..8 * k] == MessageBits(a[..k]) && MessageBits(b)[..8 * k] == MessageBits(b[..k]);
      assert MessageBits(a)[8 * k..] == Bits8(a[k]) && MessageBits(b)[8 * k..] == Bits8(b[k]);
      MessageBitsInjective(a[..k], b[..k]);
      Bits8Injective(a[k], b[k]);
      assert a == a[..k] + [a[k]] && b == b[..k] + [b[k]];
    }
  }

  lemma Bits8Injective(a: byte, b: byte)
    requires Bits8(a) == Bits8(b)
    ensures a == b
  {
    var u, v := Bits8(a), Bits8(b);
    assert u[0] == v[0] && u[1] == v[1] && u[2] == v[2] && u[3] == v[3];
    assert u[4] == v[4] && u[5] == v[5] && u[6] == v[6] && u[7] == v[7];
    assert BitAt8(a, 0) == BitAt8(b, 0) && BitAt8(a, 1) == BitAt8(b, 1) && BitAt8(a, 2) == BitAt8(b, 2);
    assert BitAt8(a, 3) == BitAt8(b, 3) && BitAt8(a, 4) == BitAt8(b, 4) && BitAt8(a, 5) == BitAt8(b, 5);
    assert BitAt8(a, 6) == BitAt8(b, 6) && BitAt8(a, 7) == BitAt8(b, 7);
  }

  // ----- Data blocks: 512 octets and two check octets -----

  ghost predicate Checks(block: seq<byte>) {
    IsCodeword16(MessageBits(block))
  }

  lemma ChecksIffTrailerIsCrc(data: seq<byte>, hi: byte, lo: byte)
    ensures Checks(data + [hi, lo]) <==> Bits8(hi) + Bits8(lo) == Register16(data)
  {
    MessageBitsOfTrailer(data, hi, lo);
    CodewordIffCrc(data, Bits8(hi) + Bits8(lo));
  }

  lemma MessageBitsOfTrailer(data: seq<byte>, hi: byte, lo: byte)
    ensures MessageBits(data + [hi, lo]) == MessageBits(data) + (Bits8(hi) + Bits8(lo))
  {
    var a := data + [hi, lo];
    assert a[..|a| - 1] == data + [hi] && (data + [hi])[..|data|] == data;
    assert MessageBits(a) == MessageBits(data) + Bits8(hi) + Bits8(lo);
  }

  /** A checked block hit by a burst of at most 16 bits checks only if the burst was empty. */
  lemma BurstOnBlock(block: seq<byte>, flips: seq<byte>)
    requires |flips| == |block| && IsBurst(MessageBits(flips), 16)
    requires Checks(block) && Checks(XorBytes(block, flips))
    ensures XorBytes(block, flips) == block
  {
    MessageBitsOfXor(block, flips);
    ConstantTerm();
    var e := MessageBits(flips);
    if e != Zeros(|e|) {
      BurstIsDetected(CCITT16, MessageBits(block), e);
    }
    assert Xor(MessageBits(block), e) == MessageBits(block);
    MessageBitsInjective(XorBytes(block, flips), block);
  }
}
