/** The codec in its own terms, apart from the functions that compute it: what one bit
    does to the register, where each byte of a frame stands, and a frame in full. */
module QLinkWire {
  import opened Bits
  import opened QLinkCodec

  // ------------------------------------------------------------- the register

  /** One bit changed. */
  function Flip(a: nat, bit: nat): nat
    requires bit > 0
  {
    if a / bit % 2 == 0 then a + bit else AtLeast(a, bit); a - bit
  }

  lemma AtLeast(a: nat, bit: nat)
    requires bit > 0 && a / bit > 0
    ensures a >= bit
  {
    if a < bit {
      QuotientIs(a, bit, 0, a);
    }
  }

  lemma XorOne(a: nat)
    ensures Xor(a, 1) == Flip(a, 1)
  {
    hide Xor;
    XorUnfold(a, 1);
    XorZero(a / 2);
    assert a / 1 == a;
  }

  lemma {:induction false} XorFlips(a: nat, k: nat)
    ensures Xor(a, Pow2(k)) == Flip(a, Pow2(k))
    decreases k
  {
    if k == 0 {
      XorOne(a);
    } else {
      var p := Pow2(k - 1);
      assert Pow2(k) == 2 * p;
      XorFlips(a / 2, k - 1);
      XorUnfold(a, 2 * p);
      hide Xor, Pow2;
      FlipHalves(a, p);
    }
  }

  lemma FlipHalves(a: nat, p: nat)
    requires p > 0
    ensures 2 * p / 2 == p && Flip(a, 2 * p) == 2 * Flip(a / 2, p) + (a + 2 * p) % 2
  {
    HalfOf(a, p);
  }

  lemma HalfOf(a: nat, p: nat)
    requires p > 0
    ensures a / 2 / p == a / (2 * p)
  {
    var q, r := a / (2 * p), a % (2 * p);
    assert a == 2 * p * q + r;
    assert a / 2 == p * q + r / 2 by {
      assert a == 2 * (p * q) + r;
    }
    assert (a / 2) / p == q by {
      QuotientIs(a / 2, p, q, r / 2);
    }
  }

  lemma QuotientIs(a: nat, d: nat, q: nat, r: nat)
    requires r < d && a == d * q + r
    ensures a / d == q
  {
    ModIs(a, d, q, r);
    assert d * (a / d) == d * q;
  }

  lemma Powers()
    ensures Pow2(13) == 0x2000 && Pow2(15) == 0x8000
  {
    assert Pow2(4) == 0x10;
    assert Pow2(8) == 0x100;
    assert Pow2(12) == 0x1000;
  }

  lemma TopFlips(half: nat)
    requires half < 0x8000
    ensures Flip(half, 0x8000) == half + 0x8000
    ensures Flip(0x8000, 0x2000) == 0xA000 && Flip(0xA000, 1) == 0xA001
  {
  }

  lemma PolynomialFlips(half: nat)
    requires half < 0x8000
    ensures Xor(half, 0xA001) == Flip(Flip(half + 0x8000, 0x2000), 1)
  {
    hide Pow2, Xor, Flip;
    Powers();
    TopFlips(half);
    XorFlips(half, 15);
    XorFlips(half + 0x8000, 13);
    XorOne(Flip(half + 0x8000, 0x2000));
    XorFlips(0x8000, 13);
    XorOne(0xA000);
    XorAssoc(half, 0x8000, 0x2000);
    XorAssoc(half, 0xA000, 1);
  }

  /** One bit of a message: the register moves one to the right, and if the bit
      differs from the one that falls out, bit 15 is set and bits 13 and 0 change. */
  lemma AbsorbExactly(crc: Word, b: Byte)
    ensures CrcAbsorb(crc, b)
         == if (crc + b) % 2 == 0 then crc / 2 else Flip(Flip(crc / 2 + 0x8000, 0x2000), 1)
  {
    hide Xor, Flip;
    var x := Xor(crc, b % 2);
    XorWord(crc, b % 2);
    XorStep(crc, b % 2);
    assert b % 2 / 2 == 0;
    XorZero(crc / 2);
    SameParity(crc, b);
    assert x / 2 == crc / 2 && x % 2 == (crc + b) % 2;
    PolynomialFlips(crc / 2);
  }

  lemma SameParity(a: nat, b: nat)
    ensures (a + b % 2) % 2 == (a + b) % 2
  {
  }

  lemma NextBit(crc: Word, b: Byte, k: nat, after: Word)
    requires k > 0
    requires after == if (crc + b) % 2 == 0 then crc / 2 else Flip(Flip(crc / 2 + 0x8000, 0x2000), 1)
    ensures CrcBits(crc, b, k) == CrcBits(after, b / 2, k - 1)
  {
    AbsorbExactly(crc, b);
    hide CrcAbsorb;
  }

  lemma NoBits(crc: Word, b: Byte)
    ensures CrcBits(crc, b, 0) == crc
  {
  }

  // ---------------------------------------------------------------- the frame

  lemma HighNibble(crc: nat)
    ensures crc / 0x100 / 0x10 == crc / 0x1000
  {
    var q, r := crc / 0x1000, crc % 0x1000;
    QuotientIs(crc, 0x100, 0x10 * q + r / 0x100, r % 0x100);
    QuotientIs(crc / 0x100, 0x10, q, r / 0x100);
  }

  lemma LowNibbles(crc: nat)
    ensures crc % 0x100 / 0x10 == crc / 0x10 % 0x10 && crc % 0x100 % 0x10 == crc % 0x10
  {
    var q, r := crc / 0x100, crc % 0x100;
    QuotientIs(crc, 0x10, 0x10 * q + r / 0x10, r % 0x10);
    ModIs(crc / 0x10, 0x10, q, r / 0x10);
    ModIs(crc, 0x10, 0x10 * q + r / 0x10, r % 0x10);
  }

  lemma FieldLayout(crc: Word)
    ensures CrcField(crc) == [crc / 0x1000 * 0x10 + 0x01, 0x40 + crc / 0x100 % 0x10,
                              crc / 0x10 % 0x10 * 0x10 + 0x01, 0x40 + crc % 0x10]
  {
    HighNibble(crc);
    LowNibbles(crc);
  }

  /** The layout of a frame, byte by byte. */
  lemma FrameLayout(cmd: Byte, sendSeq: Byte, recvSeq: Byte, payload: seq<Byte>)
    ensures var frame, crc := Encode(cmd, sendSeq, recvSeq, payload), Crc([sendSeq, recvSeq, cmd] + payload);
            && frame[0] == 0x5A
            && frame[1] == crc / 0x1000 * 0x10 + 0x01 && frame[2] == 0x40 + crc / 0x100 % 0x10
            && frame[3] == crc / 0x10 % 0x10 * 0x10 + 0x01 && frame[4] == 0x40 + crc % 0x10
            && frame[5] == sendSeq && frame[6] == recvSeq && frame[7] == cmd && frame[8..] == payload
  {
    hide Crc, CrcField;
    FieldLayout(Crc([sendSeq, recvSeq, cmd] + payload));
  }

  /** What is no frame at all, and what a frame that is not accepted says. */
  lemma DecodeKinds(frame: seq<Byte>)
    ensures Decode(frame).Malformed? <==> |frame| < 8 || frame[0] != 0x5A
    ensures !Decode(frame).Malformed? ==>
              && Decode(frame).frame == QLinkFrame(frame[7], frame[5], frame[6], frame[8..])
              && (Decode(frame).BadCrc? ==> Decode(frame).calculated == Crc(frame[5..]) != Decode(frame).reported)
  {
    hide Crc, ReportedCrc;
  }

  lemma ShortStaysAsIs(frame: seq<Byte>, recvSeq: Byte)
    requires |frame| < 8
    ensures Refresh(frame, recvSeq) == frame
  {
  }

  // -------------------------------------------------------------- one in full

  lemma FirstByte()
    ensures CrcByte(0x0000, 0x7F) == 0xE041
  {
    hide CrcBits;
    NextBit(0x0000, 0x7F, 8, 0xA001);
    NextBit(0xA001, 0x3F, 7, 0x5000);
    NextBit(0x5000, 0x1F, 6, 0x8801);
    NextBit(0x8801, 0x0F, 5, 0x4400);
    NextBit(0x4400, 0x07, 4, 0x8201);
    NextBit(0x8201, 0x03, 3, 0x4100);
    NextBit(0x4100, 0x01, 2, 0x8081);
    NextBit(0x8081, 0x00, 1, 0xE041);
    NoBits(0xE041, 0);
  }

  lemma SecondByte()
    ensures CrcByte(0xE041, 0x7F) == 0xD061
  {
    hide CrcBits;
    NextBit(0xE041, 0x7F, 8, 0x7020);
    NextBit(0x7020, 0x3F, 7, 0x9811);
    NextBit(0x9811, 0x1F, 6, 0x4C08);
    NextBit(0x4C08, 0x0F, 5, 0x8605);
    NextBit(0x8605, 0x07, 4, 0x4302);
    NextBit(0x4302, 0x03, 3, 0x8180);
    NextBit(0x8180, 0x01, 2, 0xE0C1);
    NextBit(0xE0C1, 0x00, 1, 0xD061);
    NoBits(0xD061, 0);
  }

  lemma ThirdByte()
    ensures CrcByte(0xD061, 0x26) == 0x3290
  {
    hide CrcBits;
    NextBit(0xD061, 0x26, 8, 0xC831);
    NextBit(0xC831, 0x13, 7, 0x6418);
    NextBit(0x6418, 0x09, 6, 0x920D);
    NextBit(0x920D, 0x04, 5, 0xE907);
    NextBit(0xE907, 0x02, 4, 0xD482);
    NextBit(0xD482, 0x01, 3, 0xCA40);
    NextBit(0xCA40, 0x00, 2, 0x6520);
    NextBit(0x6520, 0x00, 1, 0x3290);
    NoBits(0x3290, 0);
  }

  lemma PingCrc()
    ensures Crc([0x7F, 0x7F, 0x26]) == 0x3290
  {
    FirstByte();
    SecondByte();
    ThirdByte();
    hide CrcByte;
    var message: seq<Byte> := [0x7F, 0x7F, 0x26];
    assert message[1..] == [0x7F, 0x26] && message[1..][1..] == [0x26] && message[1..][1..][1..] == [];
  }

  /** The heartbeat of a client that has just connected, as it is on the wire. */
  lemma PingFrame()
    ensures Encode(0x26, 0x7F, 0x7F, []) == [0x5A, 0x31, 0x42, 0x91, 0x40, 0x7F, 0x7F, 0x26]
  {
    hide Crc, Encode;
    PingCrc();
    FrameLayout(0x26, 0x7F, 0x7F, []);
    var message: seq<Byte> := [0x7F, 0x7F, 0x26];
    assert message + [] == message;
    var frame := Encode(0x26, 0x7F, 0x7F, []);
    assert frame == frame[..8] + frame[8..];
  }
}
