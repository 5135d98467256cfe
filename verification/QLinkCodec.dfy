/** The QLink frame codec: CRC-16 over the frame body, sequence numbers, and the
    encoder and decoder of a single frame without its terminator. */
module QLinkCodec {
  import opened Bits

  const CMD_START: Byte := 0x5A
  const FRAME_END: Byte := 0x0D
  const CMD_RESET: Byte := 0x23
  const CMD_ACK: Byte := 0x24
  const CMD_PING: Byte := 0x26
  const CMD_ACTION: Byte := 0x20
  const CMD_SEQ_ERROR: Byte := 0x3F
  const HABITAT_NAK: Byte := 0x25
  const SEQ_DEFAULT: Byte := 0x7F
  const SEQ_LOW: Byte := 0x10
  const HEADER_LEN: nat := 8
  const HABITAT_MNEMONIC: Byte := 0x55
  const POLYNOMIAL: Word := 0xA001

  // ---------------------------------------------------------------- CRC-16

  /** One right shift of the register, folding in the polynomial. */
  function CrcShift(crc: Word): Word
  {
    if crc % 2 != 0 then XorWord(crc / 2, POLYNOMIAL); Xor(crc / 2, POLYNOMIAL) else crc / 2
  }

  /** `crc ^= uint16(b & 1)` followed by a shift. */
  function CrcAbsorb(crc: Word, b: Byte): Word
  {
    XorWord(crc, b % 2);
    CrcShift(Xor(crc, b % 2))
  }

  /** The register after absorbing the k low bits of b. (Naming crc in the
      measure keeps the verifier from unrolling all eight rounds at once.) */
  function CrcBits(crc: Word, b: Byte, k: nat): Word
    decreases k, crc
  {
    if k == 0 then crc else CrcBits(CrcAbsorb(crc, b), b / 2, k - 1)
  }

  function CrcByte(crc: Word, b: Byte): Word
  {
    CrcBits(crc, b, 8)
  }

  function CrcFrom(crc: Word, data: seq<Byte>): Word
    decreases data
  {
    if data == [] then crc else CrcFrom(CrcByte(crc, data[0]), data[1..])
  }

  function Crc(data: seq<Byte>): Word
  {
    CrcFrom(0, data)
  }

  method Crc16Update(crc: Word, b: Byte) returns (r: Word)
    ensures r == CrcByte(crc, b)
  {
    r := crc;
    var rest := b;
    for k := 0 to 8
      invariant CrcBits(r, rest, 8 - k) == CrcByte(crc, b)
    {
      XorWord(r, rest % 2);
      r := Xor(r, rest % 2);
      rest := rest / 2;
      if r % 2 != 0 {
        XorWord(r / 2, POLYNOMIAL);
        r := Xor(r / 2, POLYNOMIAL);
      } else {
        r := r / 2;
      }
    }
  }

  method QLinkCrc16(data: seq<Byte>) returns (crc: Word)
    ensures crc == Crc(data)
  {
    crc := 0;
    for i := 0 to |data|
      invariant CrcFrom(crc, data[i..]) == Crc(data)
    {
      assert data[i..][1..] == data[i + 1..];
      crc := Crc16Update(crc, data[i]);
    }
    assert data[|data|..] == [];
  }

  /** Pointwise exclusive or of two messages of one length. */
  function XorSeq(x: seq<Byte>, y: seq<Byte>): (r: seq<Byte>)
    requires |x| == |y|
  {
    if x == [] then [] else XorByte(x[0], y[0]); [Xor(x[0], y[0])] + XorSeq(x[1..], y[1..])
  }

  lemma CrcShiftLinear(x: Word, y: Word)
    ensures Xor(x, y) < 0x10000
    ensures CrcShift(Xor(x, y)) == Xor(CrcShift(x), CrcShift(y))
  {
    XorWord(x, y);
    XorStep(x, y);
    ShiftOfHalves(x, y, Xor(x, y));
  }

  lemma ShiftOfHalves(x: Word, y: Word, z: Word)
    requires z / 2 == Xor(x / 2, y / 2) && z % 2 == (x + y) % 2
    ensures CrcShift(z) == Xor(CrcShift(x), CrcShift(y))
  {
    hide Xor;
    FoldLinear(x / 2, y / 2, x % 2, y % 2, POLYNOMIAL);
  }

  /** The optional fold of the polynomial distributes over exclusive or. */
  lemma FoldLinear(u: nat, v: nat, s: nat, t: nat, p: nat)
    requires s < 2 && t < 2
    ensures Xor(if s == 1 then Xor(u, p) else u, if t == 1 then Xor(v, p) else v)
         == if s == t then Xor(u, v) else Xor(Xor(u, v), p)
  {
    XorAssoc(u, v, p);
    if s == 1 && t == 1 {
      XorSwap(u, p, v, p);
      XorIsZero(p, p);
      XorZero(Xor(u, v));
    } else if s == 1 {
      XorComm(p, v);
      XorAssoc(u, p, v);
    }
  }

  lemma XorLowBits(a: nat, b: nat)
    ensures Xor(a % 2, b % 2) == (a + b) % 2
  {
    hide Xor;
    XorOfBits(a % 2, b % 2);
  }

  lemma XorOfBits(s: nat, t: nat)
    requires s < 2 && t < 2
    ensures Xor(s, t) == (s + t) % 2
  {
    XorZero(0);
    hide Xor;
    XorUnfold(s, t);
  }

  lemma CrcAbsorbLinear(x: Word, y: Word, a: Byte, b: Byte)
    ensures Xor(x, y) < 0x10000 && Xor(a, b) < 0x100
    ensures CrcAbsorb(Xor(x, y), Xor(a, b)) == Xor(CrcAbsorb(x, a), CrcAbsorb(y, b))
    ensures Xor(a, b) / 2 == Xor(a / 2, b / 2)
  {
    hide Xor, CrcShift;
    XorWord(x, y);
    XorByte(a, b);
    XorStep(a, b);
    XorLowBits(a, b);
    XorSwap(x, y, a % 2, b % 2);
    XorWord(x, a % 2);
    XorWord(y, b % 2);
    CrcShiftLinear(Xor(x, a % 2), Xor(y, b % 2));
  }

  lemma {:induction false} CrcBitsLinear(x: Word, y: Word, a: Byte, b: Byte, k: nat)
    ensures Xor(x, y) < 0x10000 && Xor(a, b) < 0x100
    ensures CrcBits(Xor(x, y), Xor(a, b), k) == Xor(CrcBits(x, a, k), CrcBits(y, b, k))
    decreases k
  {
    CrcAbsorbLinear(x, y, a, b);
    if k != 0 {
      CrcBitsLinear(CrcAbsorb(x, a), CrcAbsorb(y, b), a / 2, b / 2, k - 1);
    }
  }

  lemma {:induction false} CrcFromLinear(s: Word, t: Word, x: seq<Byte>, y: seq<Byte>)
    requires |x| == |y|
    ensures Xor(s, t) < 0x10000
    ensures CrcFrom(Xor(s, t), XorSeq(x, y)) == Xor(CrcFrom(s, x), CrcFrom(t, y))
    decreases x
  {
    hide Xor, CrcBits;
    XorWord(s, t);
    if x != [] {
      CrcBitsLinear(s, t, x[0], y[0], 8);
      assert XorSeq(x, y)[1..] == XorSeq(x[1..], y[1..]);
      CrcFromLinear(CrcByte(s, x[0]), CrcByte(t, y[0]), x[1..], y[1..]);
    }
  }

  /** The CRC is linear over exclusive or, for messages of any one length. */
  lemma CrcLinear(x: seq<Byte>, y: seq<Byte>)
    requires |x| == |y|
    ensures Crc(XorSeq(x, y)) == Xor(Crc(x), Crc(y))
  {
    XorZero(0);
    CrcFromLinear(0, 0, x, y);
  }

  /** Only an even register shifts to a word with a clear top bit. */
  lemma CrcShiftSmall(z: Word)
    requires CrcShift(z) < 0x8000
    ensures z == 2 * CrcShift(z)
  {
    if z % 2 != 0 {
      assert Pow2(15) == 0x8000;
      XorTop(z / 2, POLYNOMIAL, 15);
      assert false;
    }
  }

  /** Running the CRC backwards: a low final register determines the register
      and the bits that led to it. */
  lemma {:induction false} CrcBitsUndo(crc: Word, b: Byte, k: nat)
    requires k <= 8 && CrcBits(crc, b, k) < 0x100
    ensures crc == CrcBits(crc, b, k) * Pow2(k) + b % Pow2(k)
    decreases k
  {
    if k != 0 {
      CrcBitsUndo(CrcAbsorb(crc, b), b / 2, k - 1);
      CrcAbsorbUndo(crc, b, CrcBits(crc, b, k), k - 1);
    }
  }

  lemma CrcAbsorbUndo(crc: Word, b: Byte, v: Byte, k: nat)
    requires k < 8 && CrcAbsorb(crc, b) == v * Pow2(k) + b / 2 % Pow2(k)
    ensures crc == v * Pow2(k + 1) + b % Pow2(k + 1)
  {
    hide Xor, CrcShift, Pow2;
    var z: nat := CrcAbsorb(crc, b);
    assert z < 0x8000 by { LowRegister(v, b, k); }
    XorWord(crc, b % 2);
    assert Xor(crc, b % 2) == 2 * z by { CrcShiftSmall(Xor(crc, b % 2)); }
    assert crc == 2 * z + b % 2 by {
      XorUndoes(crc, b % 2);
      XorIntoEven(z, b % 2);
    }
    Pow2Double(k);
    DoubleRegister(z, v, b, Pow2(k));
  }

  lemma LowRegister(v: Byte, b: Byte, k: nat)
    requires k < 8
    ensures v * Pow2(k) + b / 2 % Pow2(k) < 0x8000
  {
    Pow2Mono(k, 7);
    assert Pow2(7) == 128;
    MulMono(v, 255, Pow2(k));
  }

  lemma DoubleRegister(z: nat, v: nat, b: nat, p: nat)
    requires p > 0 && z == v * p + b / 2 % p
    ensures 2 * z + b % 2 == v * (2 * p) + b % (2 * p)
  {
    ModTwice(b, p);
  }

  lemma Pow2Double(k: nat)
    ensures Pow2(k + 1) == 2 * Pow2(k)
  {
  }

  lemma MulMono(a: nat, b: nat, p: nat)
    requires a <= b
    ensures a * p <= b * p
  {
  }

  lemma XorIntoEven(z: nat, bit: nat)
    requires bit < 2
    ensures Xor(2 * z, bit) == 2 * z + bit
  {
    hide Xor;
    XorUnfold(2 * z, bit);
    XorZero(z);
  }

  lemma ModTwice(b: nat, p: nat)
    requires p > 0
    ensures b % (2 * p) == 2 * (b / 2 % p) + b % 2
  {
    var q, r := b / 2 / p, b / 2 % p;
    assert b == q * (2 * p) + (2 * r + b % 2);
    ModIs(b, 2 * p, q, 2 * r + b % 2);
  }

  lemma CrcByteOfZero(crc: Word, b: Byte)
    requires CrcByte(crc, b) < 0x100
    ensures crc == CrcByte(crc, b) * 0x100 + b
  {
    Pow2Eight();
    hide CrcBits, Pow2;
    CrcBitsUndo(crc, b, 8);
  }

  /** One CRC step is injective in the register and in the byte. */
  lemma CrcByteInjective(s: Word, t: Word, a: Byte, b: Byte)
    requires CrcByte(s, a) == CrcByte(t, b)
    ensures s == t <==> a == b
  {
    hide Xor, CrcBits;
    CrcDifference(s, t, a, b);
    CrcByteOfZero(Xor(s, t), Xor(a, b)) by { XorIsZero(CrcByte(s, a), CrcByte(t, b)); }
    XorIsZero(s, t);
    XorIsZero(a, b);
    XorIsZero(CrcByte(s, a), CrcByte(t, b));
  }

  lemma CrcDifference(s: Word, t: Word, a: Byte, b: Byte)
    ensures Xor(s, t) < 0x10000 && Xor(a, b) < 0x100
    ensures CrcByte(Xor(s, t), Xor(a, b)) == Xor(CrcByte(s, a), CrcByte(t, b))
  {
    hide Xor, CrcBits;
    CrcBitsLinear(s, t, a, b, 8);
  }

  /** Two consecutive bytes enter the register without collisions. */
  lemma CrcTwoBytesInjective(s: Word, a: Byte, b: Byte, c: Byte, d: Byte)
    requires CrcByte(CrcByte(s, a), b) == CrcByte(CrcByte(s, c), d)
    ensures a == c && b == d
  {
    hide Xor, CrcBits;
    var u, v := CrcByte(s, a), CrcByte(s, c);
    CrcDifference(s, s, a, c);
    CrcDifference(u, v, b, d);
    XorIsZero(s, s);
    XorIsZero(CrcByte(u, b), CrcByte(v, d));
    CrcByteOfZero(Xor(u, v), Xor(b, d));
    CrcByteOfZero(0, Xor(a, c));
    XorIsZero(a, c);
    XorIsZero(b, d);
  }

  lemma {:induction false} CrcFromInjective(s: Word, t: Word, data: seq<Byte>)
    requires CrcFrom(s, data) == CrcFrom(t, data)
    ensures s == t
    decreases data
  {
    if data != [] {
      CrcFromInjective(CrcByte(s, data[0]), CrcByte(t, data[0]), data[1..]);
      CrcByteInjective(s, t, data[0], data[0]);
    }
  }

  /** A change confined to two adjacent bytes changes the CRC. */
  lemma {:induction false} CrcSeesBurst(s: Word, x: seq<Byte>, y: seq<Byte>, p: nat)
    requires |x| == |y| && p + 1 < |x| && x != y
    requires forall i | 0 <= i < |x| && i != p && i != p + 1 :: x[i] == y[i]
    ensures CrcFrom(s, x) != CrcFrom(s, y)
    decreases p
  {
    hide CrcBits;
    var x1, y1 := x[1..], y[1..];
    if p == 0 {
      assert x1[1..] == y1[1..];
      var u, v := CrcByte(CrcByte(s, x[0]), x1[0]), CrcByte(CrcByte(s, y[0]), y1[0]);
      assert CrcFrom(s, x) == CrcFrom(CrcByte(s, x[0]), x1) == CrcFrom(u, x1[1..]);
      assert CrcFrom(s, y) == CrcFrom(CrcByte(s, y[0]), y1) == CrcFrom(v, y1[1..]);
      assert x == [x[0], x1[0]] + x1[1..] && y == [y[0], y1[0]] + y1[1..];
      if CrcFrom(s, x) == CrcFrom(s, y) {
        CrcFromInjective(u, v, x1[1..]);
        CrcTwoBytesInjective(s, x[0], x1[0], y[0], y1[0]);
        assert false;
      }
    } else {
      assert x == [x[0]] + x1 && y == [x[0]] + y1;
      forall i | 0 <= i < |x1| && i != p - 1 && i != p ensures x1[i] == y1[i] {
        assert x[i + 1] == y[i + 1];
      }
      CrcSeesBurst(CrcByte(s, x[0]), x1, y1, p - 1);
    }
  }

  // ------------------------------------------------------ sequence numbers

  /** The next sequence number, wrapping 0x7F to 0x10. */
  function IncSeq(s: Byte): Byte
  {
    if s == SEQ_DEFAULT then SEQ_LOW else (s + 1) % 0x100
  }

  // ----------------------------------------------------------------- frames

  datatype QLinkFrame = QLinkFrame(cmd: Byte, sendSeq: Byte, recvSeq: Byte, payload: seq<Byte>)
  {
    predicate IsHabitatAction()
    {
      cmd == CMD_ACTION && |payload| >= 2 && payload[0] == HABITAT_MNEMONIC
    }
  }

  datatype Decoded =
    | Valid(frame: QLinkFrame)
    | BadCrc(frame: QLinkFrame, reported: Word, calculated: Word)
    | Malformed

  /** The bytes a CRC covers: sequence numbers, command and payload. */
  function Body(cmd: Byte, sendSeq: Byte, recvSeq: Byte, payload: seq<Byte>): seq<Byte>
  {
    [sendSeq, recvSeq, cmd] + payload
  }

  /** A byte spread over two, each carrying one nibble beside a sentinel. */
  function SplitNibbles(b: Byte): seq<Byte>
  {
    [b / 0x10 * 0x10 + 0x01, b % 0x10 + 0x40]
  }

  function MergeNibbles(hi: Byte, lo: Byte): Byte
  {
    hi / 0x10 * 0x10 + lo % 0x10
  }

  /** The CRC field of a frame: four bytes with sentinel nibbles. */
  function CrcField(crc: Word): (f: seq<Byte>)
    ensures |f| == 4
  {
    SplitNibbles(crc / 0x100) + SplitNibbles(crc % 0x100)
  }

  function Encode(cmd: Byte, sendSeq: Byte, recvSeq: Byte, payload: seq<Byte>): (frame: seq<Byte>)
    ensures |frame| == HEADER_LEN + |payload|
  {
    var body := Body(cmd, sendSeq, recvSeq, payload);
    [CMD_START] + CrcField(Crc(body)) + body
  }

  function ReportedCrc(frame: seq<Byte>): Word
    requires |frame| >= HEADER_LEN
  {
    var hi: int, lo: int := MergeNibbles(frame[1], frame[2]), MergeNibbles(frame[3], frame[4]);
    hi * 0x100 + lo
  }

  function Decode(frame: seq<Byte>): Decoded
  {
    if |frame| < HEADER_LEN || frame[0] != CMD_START then
      Malformed
    else
      var reported, calculated := ReportedCrc(frame), Crc(frame[5..]);
      var parsed := QLinkFrame(frame[7], frame[5], frame[6], frame[HEADER_LEN..]);
      if reported == calculated then Valid(parsed) else BadCrc(parsed, reported, calculated)
  }

  /** A stored frame with its piggybacked acknowledgement replaced. */
  function Refresh(frame: seq<Byte>, recvSeq: Byte): seq<Byte>
  {
    if |frame| < HEADER_LEN then
      frame
    else
      var body := frame[5..][1 := recvSeq];
      [frame[0]] + CrcField(Crc(body)) + body
  }

  method EncodeQLinkFrame(cmd: Byte, sendSeq: Byte, recvSeq: Byte, payload: seq<Byte>) returns (frame: array<Byte>)
    ensures fresh(frame) && frame[..] == Encode(cmd, sendSeq, recvSeq, payload)
  {
    frame := new Byte[HEADER_LEN + |payload|];
    frame[0], frame[5], frame[6], frame[7] := CMD_START, sendSeq, recvSeq, cmd;
    forall i | 0 <= i < |payload| {
      frame[HEADER_LEN + i] := payload[i];
    }
    assert frame[5..] == Body(cmd, sendSeq, recvSeq, payload);
    StampCrc(frame);
    assert frame[..] == [frame[0]] + frame[1..5] + frame[5..];
  }

  /** Computes the CRC over bytes 5 onwards and stores it in bytes 1 to 4. */
  method StampCrc(frame: array<Byte>)
    requires frame.Length >= HEADER_LEN
    modifies frame
    ensures frame[0] == old(frame[0]) && frame[5..] == old(frame[5..])
    ensures frame[1..5] == CrcField(Crc(frame[5..]))
  {
    var crc := QLinkCrc16(frame[5..]);
    frame[1] := crc / 0x100 / 0x10 * 0x10 + 0x01;
    frame[2] := crc / 0x100 % 0x10 + 0x40;
    frame[3] := crc % 0x100 / 0x10 * 0x10 + 0x01;
    frame[4] := crc % 0x100 % 0x10 + 0x40;
  }

  method RefreshRecvSeq(frame: array<Byte>, recvSeq: Byte) returns (out: array<Byte>)
    ensures out[..] == Refresh(frame[..], recvSeq)
    ensures frame.Length >= HEADER_LEN ==> fresh(out)
  {
    if frame.Length < HEADER_LEN {
      return frame;
    }
    out := new Byte[frame.Length];
    forall i | 0 <= i < frame.Length {
      out[i] := frame[i];
    }
    out[6] := recvSeq;
    assert out[5..] == frame[..][5..][1 := recvSeq];
    StampCrc(out);
    assert out[..] == [out[0]] + out[1..5] + out[5..];
  }

  lemma MergeSplit(b: Byte)
    ensures MergeNibbles(SplitNibbles(b)[0], SplitNibbles(b)[1]) == b
  {
  }

  lemma FieldReports(crc: Word, frame: seq<Byte>)
    requires |frame| >= HEADER_LEN && frame[1..5] == CrcField(crc)
    ensures ReportedCrc(frame) == crc
  {
    assert frame[1] == frame[1..5][0] && frame[2] == frame[1..5][1];
    assert frame[3] == frame[1..5][2] && frame[4] == frame[1..5][3];
    hide SplitNibbles, MergeNibbles;
    MergeSplit(crc / 0x100);
    MergeSplit(crc % 0x100);
  }

  /** Every encoded frame decodes to exactly what was encoded. */
  lemma DecodeEncode(cmd: Byte, sendSeq: Byte, recvSeq: Byte, payload: seq<Byte>)
    ensures Decode(Encode(cmd, sendSeq, recvSeq, payload)) == Valid(QLinkFrame(cmd, sendSeq, recvSeq, payload))
  {
    hide Crc, CrcField, ReportedCrc;
    var body := Body(cmd, sendSeq, recvSeq, payload);
    var frame := Encode(cmd, sendSeq, recvSeq, payload);
    FrameParts(CMD_START, CrcField(Crc(body)), body);
    FieldReports(Crc(body), frame);
    assert frame[HEADER_LEN..] == frame[5..][3..] == payload;
  }

  lemma FrameParts(magic: Byte, field: seq<Byte>, body: seq<Byte>)
    requires |field| == 4
    ensures var frame := [magic] + field + body;
            frame[0] == magic && frame[1..5] == field && frame[5..] == body
  {
  }

  /** A frame with the sentinel nibbles of its CRC field restored. */
  function Canonical(frame: seq<Byte>): seq<Byte>
    requires |frame| >= HEADER_LEN
  {
    [frame[0]] + SplitNibbles(MergeNibbles(frame[1], frame[2]))
    + SplitNibbles(MergeNibbles(frame[3], frame[4])) + frame[5..]
  }

  /** The decoder accepts exactly the encodings, up to the sentinel nibbles that
      carry no information. */
  lemma DecodeAcceptsEncodings(frame: seq<Byte>, f: QLinkFrame)
    ensures Decode(frame) == Valid(f)
       <==> |frame| >= HEADER_LEN && Canonical(frame) == Encode(f.cmd, f.sendSeq, f.recvSeq, f.payload)
  {
    var e := Encode(f.cmd, f.sendSeq, f.recvSeq, f.payload);
    if Decode(frame) == Valid(f) {
      assert frame[5..] == Body(f.cmd, f.sendSeq, f.recvSeq, f.payload);
      CanonicalField(frame);
      assert Canonical(frame) == e;
    } else if |frame| >= HEADER_LEN && Canonical(frame) == e {
      DecodeEncode(f.cmd, f.sendSeq, f.recvSeq, f.payload);
      assert Canonical(frame)[5..] == frame[5..] && e[5..][3..] == f.payload;
      assert frame[5] == e[5] && frame[6] == e[6] && frame[7] == e[7];
      assert e[1..5] == Canonical(frame)[1..5];
      assert frame[0] == e[0] && frame[HEADER_LEN..] == frame[5..][3..];
      CanonicalField(frame);
      assert Canonical(frame)[1..5] == CrcField(ReportedCrc(frame));
      FieldReports(ReportedCrc(frame), e);
      assert false;
    }
  }

  lemma CanonicalField(frame: seq<Byte>)
    requires |frame| >= HEADER_LEN
    ensures Canonical(frame) == [frame[0]] + CrcField(ReportedCrc(frame)) + frame[5..]
  {
    hide SplitNibbles, MergeNibbles;
  }

  /** Refreshing an encoded frame is the same as encoding it afresh. */
  lemma RefreshIsReencode(cmd: Byte, sendSeq: Byte, stale: Byte, payload: seq<Byte>, recvSeq: Byte)
    ensures Refresh(Encode(cmd, sendSeq, stale, payload), recvSeq) == Encode(cmd, sendSeq, recvSeq, payload)
  {
    var frame := Encode(cmd, sendSeq, stale, payload);
    assert frame[5..] == Body(cmd, sendSeq, stale, payload);
    assert frame[5..][1 := recvSeq] == Body(cmd, sendSeq, recvSeq, payload);
  }

  /** An encoded frame contains the terminator exactly when one of its fields
      does: the magic byte and the CRC bytes never do. */
  lemma EncodeHidesFrameEnd(cmd: Byte, sendSeq: Byte, recvSeq: Byte, payload: seq<Byte>)
    ensures FRAME_END in Encode(cmd, sendSeq, recvSeq, payload)
       <==> FRAME_END in [cmd, sendSeq, recvSeq] + payload
  {
    var body := Body(cmd, sendSeq, recvSeq, payload);
    var head := [CMD_START] + CrcField(Crc(body));
    assert FRAME_END !in head by { FieldHidesFrameEnd(Crc(body)); }
    assert Encode(cmd, sendSeq, recvSeq, payload) == head + body;
    assert FRAME_END in body <==> FRAME_END in [cmd, sendSeq, recvSeq] || FRAME_END in payload;
  }

  lemma FieldHidesFrameEnd(crc: Word)
    ensures FRAME_END !in CrcField(crc)
  {
    assert forall h: nat :: h * 0x10 + 0x01 != 0x0D;
  }

  /** A change confined to one byte or two adjacent bytes of the CRC-covered
      part of a valid frame is always reported as a CRC error. */
  lemma DecodeDetectsBurst(frame: seq<Byte>, bad: seq<Byte>, p: nat)
    requires Decode(frame).Valid?
    requires |bad| == |frame| && bad != frame && 5 <= p < |frame| - 1
    requires forall i | 0 <= i < |frame| && i != p && i != p + 1 :: bad[i] == frame[i]
    ensures Decode(bad).BadCrc?
  {
    assert frame == frame[..5] + frame[5..] && bad == bad[..5] + bad[5..];
    assert frame[..5] == bad[..5];
    CrcSeesBurst(0, frame[5..], bad[5..], p - 5);
    assert ReportedCrc(bad) == ReportedCrc(frame);
  }
}
