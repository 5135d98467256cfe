/** Habitat packets above the link: headers, splitting into chunks of at most 100
    payload bytes, and the reassembly of split WRITE requests. */
module HabitatPackets {
  import opened Bits
  import opened HabitatEscape
  import opened Options

  const MAX_PACKET_SIZE: nat := 100
  const MICROCOSM_ID_BYTE: Byte := 0x55
  const SPLIT_START: Byte := 0x20
  const SPLIT_MIDDLE: Byte := 0x40
  const SPLIT_END: Byte := 0x80
  const HEADER: nat := 4

  /** `seqByte & SPLIT_MASK` */
  function LowFive(seqByte: Byte): Byte
  {
    seqByte % 0x20
  }

  /** The sequence byte of a chunk: low five bits kept, flags by position. */
  function ChunkSeqByte(seqByte: Byte, first: bool, last: bool): Byte
  {
    LowFive(seqByte) + SPLIT_MIDDLE + (if first then SPLIT_START else 0) + (if last then SPLIT_END else 0)
  }

  /** A packet header; of the last argument only the first two bytes are used. */
  function MakeHabitatPacketHeader(start: bool, end: bool, seqNo: Byte, noidAndReqnum: seq<Byte>): (header: seq<Byte>)
    ensures 2 <= |header| <= HEADER
  {
    var ended := if end then WithFlag(seqNo, SPLIT_END) else seqNo;
    var middle := WithFlag(ended, SPLIT_MIDDLE);
    [MICROCOSM_ID_BYTE, if start then WithFlag(middle, SPLIT_START) else middle]
    + (if |noidAndReqnum| > 2 then noidAndReqnum[..2] else noidAndReqnum)
  }

  function ChunkSize(payload: seq<Byte>): (n: nat)
    ensures n <= |payload| && n <= MAX_PACKET_SIZE
    ensures payload != [] ==> n > 0
  {
    if |payload| < MAX_PACKET_SIZE then |payload| else MAX_PACKET_SIZE
  }

  /** The chunks of a payload behind copies of one header. */
  function Chunks(header: seq<Byte>, payload: seq<Byte>, first: bool): seq<seq<Byte>>
    requires |header| == HEADER
    decreases |payload|
  {
    if payload == [] then [] else
      var n := ChunkSize(payload);
      [header[1 := ChunkSeqByte(header[1], first, n == |payload|)] + payload[..n]]
      + Chunks(header, payload[n..], false)
  }

  function SplitPackets(data: seq<Byte>): seq<seq<Byte>>
    requires |data| >= HEADER
  {
    Chunks(data[..HEADER], data[HEADER..], true)
  }

  function Framed(prefix: seq<Byte>, packets: seq<seq<Byte>>): seq<seq<Byte>>
  {
    if packets == [] then [] else [prefix + packets[0] + [END_OF_MESSAGE]] + Framed(prefix, packets[1..])
  }

  lemma {:induction false} FramedAppend(prefix: seq<Byte>, a: seq<seq<Byte>>, b: seq<seq<Byte>>)
    ensures Framed(prefix, a + b) == Framed(prefix, a) + Framed(prefix, b)
  {
    if a == [] {
      assert a + b == b;
    } else {
      assert (a + b)[1..] == a[1..] + b;
      FramedAppend(prefix, a[1..], b);
    }
  }

  /** Overwrites the sequence byte of the packet in the buffer for one chunk. */
  method StampSeqByte(data: array<Byte>, first: bool, last: bool)
    requires data.Length >= HEADER
    modifies data
    ensures data[..] == old(data[..])[1 := ChunkSeqByte(old(data[1]), first, last)]
  {
    var seqByte := data[1] % 0x20;
    if first {
      seqByte := seqByte + SPLIT_START;
    }
    seqByte := seqByte + SPLIT_MIDDLE;
    if last {
      seqByte := seqByte + SPLIT_END;
    }
    data[1] := seqByte;
  }

  method LegacyPacket(packetPrefix: seq<Byte>, header: seq<Byte>, chunk: seq<Byte>) returns (packet: seq<Byte>)
    ensures packet == packetPrefix + (header + chunk) + [END_OF_MESSAGE]
  {
    packet := packetPrefix;
    packet := packet + header;
    packet := packet + chunk;
    packet := packet + [END_OF_MESSAGE];
  }

  /** The legacy sender's split loop. The header is the front of the data buffer
      itself, and its sequence byte is overwritten on every round. */
  method SendSplitLegacy(packetPrefix: seq<Byte>, data: array<Byte>) returns (written: seq<seq<Byte>>)
    requires data.Length >= HEADER
    modifies data
    ensures written == Framed(packetPrefix, SplitPackets(old(data[..])))
    ensures data[..] == old(data[..])[1 := data[1]] && LowFive(data[1]) == LowFive(old(data[1]))
    ensures data.Length == HEADER ==> data[1] == old(data[1])
  {
    hide Chunks, Framed, ChunkSeqByte, LowFive;
    written := [];
    var start := HEADER;
    ghost var original := data[..];
    ghost var header, payload := original[..HEADER], original[HEADER..];
    ghost var packets := [];
    FramedNone(packetPrefix);
    while start < data.Length
      invariant HEADER <= start <= data.Length
      invariant data[..] == original[1 := data[1]] && LowFive(data[1]) == LowFive(header[1])
      invariant start == HEADER ==> data[1] == header[1]
      invariant packets + Chunks(header, payload[start - HEADER..], start == HEADER) == Chunks(header, payload, true)
      invariant written == Framed(packetPrefix, packets)
    {
      ghost var rest, first := payload[start - HEADER..], start == HEADER;
      var remaining := data.Length - start;
      var size := if MAX_PACKET_SIZE < remaining then MAX_PACKET_SIZE else remaining;
      SameChunkByte(data[1], header[1], first, size == remaining);
      StampSeqByte(data, start == HEADER, size == remaining);
      var chunkHeader, chunk := data[..HEADER], data[start..start + size];
      var packet := LegacyPacket(packetPrefix, chunkHeader, chunk);
      ChunkRound(header, rest, first, chunkHeader, chunk) by {
        assert data[..] == original[1 := data[1]];
        assert chunkHeader == header[1 := data[1]];
        assert chunk == rest[..size];
      }
      assert rest[size..] == payload[start + size - HEADER..];
      assert packets + Chunks(header, rest, first)
          == packets + [chunkHeader + chunk] + Chunks(header, payload[start + size - HEADER..], false);
      FramedSnoc(packetPrefix, packets, chunkHeader + chunk);
      packets := packets + [chunkHeader + chunk];
      written := written + [packet];
      start := start + size;
    }
    ChunksNone(header, payload[start - HEADER..]);
    assert packets == Chunks(header, payload, true);
  }

  lemma FramedNone(prefix: seq<Byte>)
    ensures Framed(prefix, []) == []
  {
  }

  lemma ChunksNone(header: seq<Byte>, payload: seq<Byte>)
    requires |header| == HEADER && payload == []
    ensures Chunks(header, payload, true) == Chunks(header, payload, false) == []
  {
  }

  lemma SameChunkByte(a: Byte, b: Byte, first: bool, last: bool)
    requires LowFive(a) == LowFive(b)
    ensures ChunkSeqByte(a, first, last) == ChunkSeqByte(b, first, last)
    ensures LowFive(ChunkSeqByte(a, first, last)) == LowFive(b)
  {
  }

  lemma FramedSnoc(prefix: seq<Byte>, packets: seq<seq<Byte>>, packet: seq<Byte>)
    ensures Framed(prefix, packets + [packet]) == Framed(prefix, packets) + [prefix + packet + [END_OF_MESSAGE]]
  {
    FramedAppend(prefix, packets, [packet]);
    assert [packet][1..] == [];
  }

  lemma ChunkRound(header: seq<Byte>, rest: seq<Byte>, first: bool, rewritten: seq<Byte>, body: seq<Byte>)
    requires |header| == HEADER && rest != []
    requires rewritten == header[1 := ChunkSeqByte(header[1], first, ChunkSize(rest) == |rest|)]
    requires body == rest[..ChunkSize(rest)]
    ensures Chunks(header, rest, first) == [rewritten + body] + Chunks(header, rest[ChunkSize(rest)..], false)
  {
  }

  // -------------------------------------------------- what splitting means

  function Payload(packet: seq<Byte>): seq<Byte>
  {
    if |packet| > HEADER then packet[HEADER..] else []
  }

  function Joined(packets: seq<seq<Byte>>): seq<Byte>
  {
    if packets == [] then [] else Payload(packets[0]) + Joined(packets[1..])
  }

  /** One chunk of several: the header's noid, request number and low five
      sequence bits, START only on the first and END only on the last, and between
      1 and 100 payload bytes, exactly 100 unless it is the last. */
  predicate IsChunk(header: seq<Byte>, packet: seq<Byte>, first: bool, last: bool)
    requires |header| == HEADER
  {
    && HEADER < |packet| <= HEADER + MAX_PACKET_SIZE
    && (!last ==> |packet| == HEADER + MAX_PACKET_SIZE)
    && packet[0] == header[0] && packet[2..HEADER] == header[2..]
    && LowFive(packet[1]) == LowFive(header[1])
    && HasFlag(packet[1], SPLIT_MIDDLE)
    && HasFlag(packet[1], SPLIT_START) == first
    && HasFlag(packet[1], SPLIT_END) == last
  }

  lemma {:induction false} ChunksShape(header: seq<Byte>, payload: seq<Byte>, first: bool)
    requires |header| == HEADER
    ensures var packets := Chunks(header, payload, first);
            && Joined(packets) == payload
            && |packets| == (|payload| + MAX_PACKET_SIZE - 1) / MAX_PACKET_SIZE
            && forall i | 0 <= i < |packets| :: IsChunk(header, packets[i], first && i == 0, i == |packets| - 1)
    decreases |payload|
  {
    if payload != [] {
      var n := ChunkSize(payload);
      var last := n == |payload|;
      var head := header[1 := ChunkSeqByte(header[1], first, last)] + payload[..n];
      var rest := payload[n..];
      ChunksShape(header, rest, false);
      var tail := Chunks(header, rest, false);
      ChunkFlags(header[1], first, last);
      var packets := Chunks(header, payload, first);
      assert packets == [head] + tail;
      assert IsChunk(header, head, first, last);
      assert packets[1..] == tail && Payload(head) == payload[..n];
    }
  }

  lemma ChunkFlags(seqByte: Byte, first: bool, last: bool)
    ensures var b := ChunkSeqByte(seqByte, first, last);
            && LowFive(b) == LowFive(seqByte) && HasFlag(b, SPLIT_MIDDLE)
            && HasFlag(b, SPLIT_START) == first && HasFlag(b, SPLIT_END) == last
  {
  }

  /** Splitting conserves the payload, in chunks of the promised shape. */
  lemma SplitShape(data: seq<Byte>)
    requires |data| >= HEADER
    ensures var packets := SplitPackets(data);
            && Joined(packets) == data[HEADER..]
            && |packets| == (|data| - HEADER + MAX_PACKET_SIZE - 1) / MAX_PACKET_SIZE
            && forall i | 0 <= i < |packets| :: IsChunk(data[..HEADER], packets[i], i == 0, i == |packets| - 1)
  {
    ChunksShape(data[..HEADER], data[HEADER..], true);
  }

  /** A packet of 5 to 104 bytes behind a header with both flags is its own and only
      chunk, however many bytes the header was given. */
  lemma SmallPacketIsOneChunk(seqNo: Byte, noidAndReqnum: seq<Byte>, payload: seq<Byte>)
    ensures var data := MakeHabitatPacketHeader(true, true, seqNo, noidAndReqnum) + payload;
            HEADER < |data| <= HEADER + MAX_PACKET_SIZE ==> SplitPackets(data) == [data]
  {
    var data := MakeHabitatPacketHeader(true, true, seqNo, noidAndReqnum) + payload;
    BothFlags(seqNo, noidAndReqnum);
    if HEADER < |data| <= HEADER + MAX_PACKET_SIZE {
      hide MakeHabitatPacketHeader;
      FlaggedIsOneChunk(data);
    }
  }

  lemma FlaggedIsOneChunk(data: seq<Byte>)
    requires HEADER < |data| <= HEADER + MAX_PACKET_SIZE && ChunkSeqByte(data[1], true, true) == data[1]
    ensures SplitPackets(data) == [data]
  {
    var header, payload := data[..HEADER], data[HEADER..];
    assert header[1 := header[1]] == header && payload[..|payload|] == payload;
    ChunksNone(header, payload[|payload|..]);
    assert header + payload == data;
  }

  lemma BothFlags(seqNo: Byte, noidAndReqnum: seq<Byte>)
    ensures var header := MakeHabitatPacketHeader(true, true, seqNo, noidAndReqnum);
            ChunkSeqByte(header[1], true, true) == header[1] && LowFive(header[1]) == LowFive(seqNo)
  {
    SetEnd(seqNo);
    SetMiddle(WithFlag(seqNo, SPLIT_END));
    SetStart(WithFlag(WithFlag(seqNo, SPLIT_END), SPLIT_MIDDLE));
  }

  lemma SetEnd(v: Byte)
    ensures WithFlag(v, SPLIT_END) >= 0x80 && WithFlag(v, SPLIT_END) % 0x80 == v % 0x80
  {
  }

  lemma SetMiddle(v: Byte)
    requires v >= 0x80
    ensures WithFlag(v, SPLIT_MIDDLE) >= 0xC0 && WithFlag(v, SPLIT_MIDDLE) % 0x40 == v % 0x40
  {
  }

  lemma SetStart(v: Byte)
    requires v >= 0xC0
    ensures WithFlag(v, SPLIT_START) >= 0xE0 && WithFlag(v, SPLIT_START) % 0x20 == v % 0x20
  {
  }

  // ------------------------------------------------------------- receiving

  /** The fields the bridge reads from a descaped Habitat packet. */
  datatype HabitatMessage = HabitatMessage(
    seqNo: Byte, start: bool, end: bool, noid: Byte, reqNum: Byte, args: seq<Byte>)

  function ParsePacket(packet: seq<Byte>): HabitatMessage
    requires |packet| >= 2
  {
    HabitatMessage(
      packet[1] % 0x10,
      HasFlag(packet[1], SPLIT_START),
      HasFlag(packet[1], SPLIT_END),
      if |packet| > 2 then packet[2] else 0,
      if |packet| > 3 then packet[3] else 0,
      Payload(packet))
  }

  /** The fields of a packet: its sequence number is the low nibble of the second
      byte, START bit 5 and END bit 7; what the packet is too short for is 0. */
  lemma FieldsExactly(packet: seq<Byte>)
    requires |packet| >= 2
    ensures var m := ParsePacket(packet);
            && m.seqNo == packet[1] % 16
            && (m.start <==> packet[1] / 32 % 2 == 1) && (m.end <==> packet[1] / 128 == 1)
            && m.noid == (if |packet| >= 3 then packet[2] else 0)
            && m.reqNum == (if |packet| >= 4 then packet[3] else 0)
            && m.args == (if |packet| >= 5 then packet[4..] else [])
  {
  }

  /** A header starts with 0x55 and the sequence byte with bit 6 set, and END and START
      as asked for or already set; at most two of the other bytes follow. */
  lemma HeaderExactly(start: bool, end: bool, seqNo: Byte, noidAndReqnum: seq<Byte>)
    ensures var header, n := MakeHabitatPacketHeader(start, end, seqNo, noidAndReqnum), |noidAndReqnum|;
            && header[0] == 0x55 && header[1] % 32 == seqNo % 32 && header[1] / 64 % 2 == 1
            && (header[1] / 32 % 2 == 1 <==> start || seqNo / 32 % 2 == 1)
            && (header[1] / 128 == 1 <==> end || seqNo / 128 == 1)
            && header[2..] == if n > 2 then noidAndReqnum[..2] else noidAndReqnum
  {
    SetBits(seqNo, start, end);
  }

  lemma SetBits(v: Byte, start: bool, end: bool)
    ensures var ended := if end then WithFlag(v, SPLIT_END) else v;
            var middle := WithFlag(ended, SPLIT_MIDDLE);
            var b := if start then WithFlag(middle, SPLIT_START) else middle;
            && b % 32 == v % 32 && b / 64 % 2 == 1
            && (b / 32 % 2 == 1 <==> start || v / 32 % 2 == 1) && (b / 128 == 1 <==> end || v / 128 == 1)
  {
    var ended := if end then WithFlag(v, SPLIT_END) else v;
    EndSet(v);
    MiddleSet(ended);
    StartSet(WithFlag(ended, SPLIT_MIDDLE));
    hide WithFlag;
  }

  lemma EndSet(v: Byte)
    ensures var b := WithFlag(v, SPLIT_END); b / 128 == 1 && b % 32 == v % 32 && b / 32 % 2 == v / 32 % 2
  {
  }

  lemma MiddleSet(v: Byte)
    ensures var b := WithFlag(v, SPLIT_MIDDLE);
            b / 64 % 2 == 1 && b % 32 == v % 32 && b / 32 % 2 == v / 32 % 2 && b / 128 == v / 128
  {
  }

  lemma StartSet(v: Byte)
    ensures var b := WithFlag(v, SPLIT_START);
            b / 32 % 2 == 1 && b % 32 == v % 32 && b / 64 % 2 == v / 64 % 2 && b / 128 == v / 128
  {
  }

  /** A header with both flags reads back as what it was made of. */
  lemma HeaderReads(seqNo: Byte, noid: Byte, reqNum: Byte, payload: seq<Byte>)
    ensures var header := MakeHabitatPacketHeader(true, true, seqNo, [noid, reqNum]);
            && |header| == 4 && header[0] == 0x55
            && ParsePacket(header + payload) == HabitatMessage(seqNo % 16, true, true, noid, reqNum, payload)
  {
    var header := MakeHabitatPacketHeader(true, true, seqNo, [noid, reqNum]);
    HeaderExactly(true, true, seqNo, [noid, reqNum]);
    hide MakeHabitatPacketHeader;
    FieldsExactly(header + payload);
    SameLowNibble(header[1], seqNo);
    hide ParsePacket;
    assert header[2..][0] == noid && header[2..][1] == reqNum;
    assert (header + payload)[4..] == payload;
  }

  lemma SameLowNibble(a: Byte, b: Byte)
    requires LowFive(a) == LowFive(b)
    ensures a % 16 == b % 16
  {
    NibbleOf(a);
    NibbleOf(b);
  }

  lemma NibbleOf(a: nat)
    ensures a % 16 == a % 32 % 16
  {
    var r := a % 32;
    ModIs(a, 16, 2 * (a / 32) + r / 16, r % 16);
  }

  /** One chunk of a WRITE: the cache after it, and the complete request when the
      chunk ends one. */
  datatype WriteResult = WriteResult(cache: seq<Byte>, request: Option<seq<Byte>>)

  function WriteChunk(cache: seq<Byte>, args: seq<Byte>, start: bool, end: bool): WriteResult
  {
    var grown := (if start then [] else cache) + args;
    if end then WriteResult([], Some(grown)) else WriteResult(grown, None)
  }

  class RequestCache {
    var largeRequestCache: seq<Byte>

    constructor (cache: seq<Byte>)
      ensures largeRequestCache == cache
    {
      largeRequestCache := cache;
    }

    /** The WRITE translator; a missing request means the reply is suppressed and
        nothing is sent to the server. */
    method Write(args: seq<Byte>, start: bool, end: bool) returns (requestAscii: Option<seq<int>>)
      modifies this
      ensures var w := WriteChunk(old(largeRequestCache), args, start, end);
              largeRequestCache == w.cache && requestAscii == w.request
    {
      requestAscii := None;
      if start {
        largeRequestCache := [];
      }
      largeRequestCache := largeRequestCache + args;
      if end {
        var ints: seq<int> := [];
        for i := 0 to |largeRequestCache|
          invariant ints == largeRequestCache[..i]
          invariant largeRequestCache == (if start then [] else old(largeRequestCache)) + args
        {
          ints := ints + [largeRequestCache[i]];
        }
        assert ints == largeRequestCache;
        requestAscii := Some(ints);
        largeRequestCache := [];
      }
    }
  }
}
