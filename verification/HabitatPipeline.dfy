/** The whole path of a split packet: chunking, escaping, QLink framing and the
    byte stream on one side; reading, decoding, descaping, header parsing and
    request reassembly on the other. */
module HabitatPipeline {
  import opened Bits
  import opened Options
  import opened QLinkCodec
  import opened HabitatEscape
  import opened HabitatPackets
  import opened QLinkSession
  import opened QLinkFraming

  /** What a received frame body is to the Habitat layer. The header parser reads
      the second descaped byte without looking at the length. */
  datatype Received = NotHabitat | OutOfRange | Message(message: HabitatMessage)

  /** The Habitat message inside a received frame body, descaped from behind the
      QLink header. */
  function ReceiveBody(body: seq<Byte>): Received
  {
    if !Decode(body).Valid? || !Decode(body).frame.IsHabitatAction() then NotHabitat
    else if |DescapeSeq(body[HEADER_LEN..])| < 2 then OutOfRange
    else Message(ParsePacket(DescapeSeq(body[HEADER_LEN..])))
  }

  /** The parser's index is out of range, which panics, for exactly one payload:
      the Habitat mnemonic and a lone escape marker. */
  lemma OutOfRangeExactly(body: seq<Byte>)
    ensures ReceiveBody(body) == OutOfRange <==>
              Decode(body).Valid? && Decode(body).frame.cmd == CMD_ACTION
              && Decode(body).frame.payload == [HABITAT_MNEMONIC, ESCAPE_CHAR]
  {
    if Decode(body).Valid? && Decode(body).frame.IsHabitatAction() {
      assert Decode(body).frame.payload == body[HEADER_LEN..];
      hide Decode;
      ShortDescaped(body[HEADER_LEN..]);
    }
  }

  lemma ShortDescaped(payload: seq<Byte>)
    requires |payload| >= 2 && payload[0] == HABITAT_MNEMONIC
    ensures |DescapeSeq(payload)| < 2 <==> payload == [HABITAT_MNEMONIC, ESCAPE_CHAR]
  {
    hide XorMask;
    assert payload == [HABITAT_MNEMONIC] + payload[1..];
    assert |payload| == 2 ==> payload == [payload[0], payload[1]];
    assert DescapeSeq(payload) == [payload[0]] + DescapeSeq(payload[1..]);
  }

  datatype Reassembly = Reassembly(requests: seq<Option<seq<Byte>>>, cache: seq<Byte>)

  /** Runs the request accumulator over the messages in the given bodies; each
      body yields the request it completes, if it completes one. A panic ends it. */
  function Reassemble(bodies: seq<seq<Byte>>, cache: seq<Byte>): Reassembly
    decreases bodies
  {
    if bodies == [] || ReceiveBody(bodies[0]).OutOfRange? then Reassembly([], cache) else
      var w := match ReceiveBody(bodies[0])
               case Message(m) => WriteChunk(cache, m.args, m.start, m.end)
               case _ => WriteResult(cache, None);
      var rest := Reassemble(bodies[1..], w.cache);
      Reassembly([w.request] + rest.requests, rest.cache)
  }

  function Nones(n: nat): seq<Option<seq<Byte>>>
  {
    if n == 0 then [] else [None] + Nones(n - 1)
  }

  /** The requests that were completed, in order. */
  function Completed(requests: seq<Option<seq<Byte>>>): seq<seq<Byte>>
    decreases requests
  {
    if requests == [] then []
    else (match requests[0] case None => [] case Some(r) => [r]) + Completed(requests[1..])
  }

  /** A frame without a Habitat message, corrupt or not, between the chunks of a
      request changes neither what is completed nor what is gathered. */
  lemma {:induction false} OthersBetween(a: seq<seq<Byte>>, body: seq<Byte>, b: seq<seq<Byte>>, cache: seq<Byte>)
    requires ReceiveBody(body).NotHabitat?
    ensures var with, without := Reassemble(a + [body] + b, cache), Reassemble(a + b, cache);
            Completed(with.requests) == Completed(without.requests) && with.cache == without.cache
    decreases a
  {
    hide ReceiveBody;
    if a == [] {
      assert [] + [body] + b == [body] + b && ([body] + b)[1..] == b && [] + b == b;
    } else {
      assert (a + [body] + b)[1..] == a[1..] + [body] + b && (a + b)[1..] == a[1..] + b;
      var w := match ReceiveBody(a[0])
               case Message(m) => WriteChunk(cache, m.args, m.start, m.end)
               case _ => WriteResult(cache, None);
      OthersBetween(a[1..], body, b, w.cache);
    }
  }

  /** One packet through escaping, encoding, decoding and descaping. */
  lemma PacketArrives(link: Link, packet: seq<Byte>)
    requires |packet| >= 2 && packet[0] == MICROCOSM_ID_BYTE
    ensures |SendHabitat(link, packet).out| == 1
    ensures ReceiveBody(SendHabitat(link, packet).out[0]) == Message(ParsePacket(packet))
  {
    hide Encode, Decode, EscapeSeq, DescapeSeq;
    var escaped := EscapeSeq(packet);
    var frame := SendHabitat(link, packet).out[0];
    DecodeEncode(CMD_ACTION, IncSeq(link.outSeq), link.inSeq, escaped);
    EscapeRoundTrip(packet);
    EscapeLength(packet);
    PayloadBehindHeader(CMD_ACTION, IncSeq(link.outSeq), link.inSeq, escaped);
  }

  lemma PayloadBehindHeader(cmd: Byte, sendSeq: Byte, recvSeq: Byte, payload: seq<Byte>)
    ensures Encode(cmd, sendSeq, recvSeq, payload)[HEADER_LEN..] == payload
  {
  }

  lemma ChunkParses(header: seq<Byte>, packet: seq<Byte>, first: bool, last: bool)
    requires |header| == HEADER && IsChunk(header, packet, first, last)
    ensures ParsePacket(packet) == HabitatMessage(header[1] % 0x10, first, last, header[2], header[3], packet[HEADER..])
  {
    SameFields(header, packet);
    SameLowNibble(header[1], packet[1]);
    hide HasFlag, LowFive;
  }

  lemma SameFields(header: seq<Byte>, packet: seq<Byte>)
    requires |header| == HEADER < |packet| && packet[2..HEADER] == header[2..]
    ensures packet[2] == header[2] && packet[3] == header[3]
  {
    assert packet[2..HEADER][0] == header[2..][0] && packet[2..HEADER][1] == header[2..][1];
  }

  function Head(header: seq<Byte>, payload: seq<Byte>, first: bool): seq<Byte>
    requires |header| == HEADER && payload != []
  {
    header[1 := ChunkSeqByte(header[1], first, ChunkSize(payload) == |payload|)] + payload[..ChunkSize(payload)]
  }

  /** The first chunk of a payload arrives with its flags and its bytes. */
  lemma HeadArrives(link: Link, header: seq<Byte>, payload: seq<Byte>, first: bool)
    requires |header| == HEADER && header[0] == MICROCOSM_ID_BYTE && payload != []
    ensures var n, out := ChunkSize(payload), SendHabitat(link, Head(header, payload, first)).out;
            && |out| == 1
            && ReceiveBody(out[0])
            == Message(HabitatMessage(header[1] % 0x10, first, n == |payload|, header[2], header[3], payload[..n]))
  {
    hide SendHabitat, ReceiveBody, IsChunk;
    var n, head := ChunkSize(payload), Head(header, payload, first);
    HeadIsChunk(header, payload, first);
    ChunkParses(header, head, first, n == |payload|);
    PacketArrives(link, head);
    assert head[HEADER..] == payload[..n];
  }

  lemma ReassembleOne(body: seq<Byte>, m: HabitatMessage, more: seq<seq<Byte>>, cache: seq<Byte>)
    requires ReceiveBody(body) == Message(m)
    ensures var w := WriteChunk(cache, m.args, m.start, m.end);
            var rest := Reassemble(more, w.cache);
            Reassemble([body] + more, cache) == Reassembly([w.request] + rest.requests, rest.cache)
  {
    hide ReceiveBody;
    assert ([body] + more)[1..] == more;
  }

  lemma SendChunks(link: Link, header: seq<Byte>, payload: seq<Byte>, first: bool)
    requires |header| == HEADER && payload != []
    ensures var head, more := Head(header, payload, first), Chunks(header, payload[ChunkSize(payload)..], false);
            var sent := SendHabitat(link, head);
            && Chunks(header, payload, first) == [head] + more
            && SendPackets(link, [head] + more).out == sent.out + SendPackets(sent.link, more).out
  {
    hide SendHabitat;
    var head, more := Head(header, payload, first), Chunks(header, payload[ChunkSize(payload)..], false);
    assert ([head] + more)[1..] == more;
  }

  lemma {:induction false} ChunksReassemble(link: Link, header: seq<Byte>, payload: seq<Byte>,
                                            first: bool, cache: seq<Byte>)
    requires |header| == HEADER && header[0] == MICROCOSM_ID_BYTE && payload != []
    ensures var packets := Chunks(header, payload, first);
            var bodies := SendPackets(link, packets).out;
            && |bodies| == |packets| > 0
            && Reassemble(bodies, cache)
            == Reassembly(Nones(|packets| - 1) + [Some((if first then [] else cache) + payload)], [])
    decreases |payload|
  {
    hide SendHabitat, ReceiveBody, Chunks, SendPackets, Reassemble, Head;
    var n := ChunkSize(payload);
    var held, rest := if first then [] else cache, payload[n..];
    HeadArrives(link, header, payload, first);
    SendChunks(link, header, payload, first);
    var sent := SendHabitat(link, Head(header, payload, first));
    var more := Chunks(header, rest, false);
    var tail := SendPackets(sent.link, more).out;
    var m := HabitatMessage(header[1] % 0x10, first, n == |payload|, header[2], header[3], payload[..n]);
    ReassembleOne(sent.out[0], m, tail, cache);
    assert sent.out == [sent.out[0]];
    if n == |payload| {
      ChunksNone(header, rest);
      NothingMore(sent.link);
      assert payload[..n] == payload;
    } else {
      ChunksReassemble(sent.link, header, rest, false, held + payload[..n]);
      assert held + payload[..n] + rest == held + payload;
      assert Nones(|more|) == [None] + Nones(|more| - 1);
    }
  }

  lemma NothingMore(link: Link)
    ensures SendPackets(link, []).out == []
    ensures forall cache :: Reassemble([], cache) == Reassembly([], cache)
  {
  }

  lemma HeadIsChunk(header: seq<Byte>, payload: seq<Byte>, first: bool)
    requires |header| == HEADER && payload != []
    ensures var n := ChunkSize(payload);
            var head := header[1 := ChunkSeqByte(header[1], first, n == |payload|)] + payload[..n];
            IsChunk(header, head, first, n == |payload|) && head[0] == header[0]
  {
    ChunkFlags(header[1], first, ChunkSize(payload) == |payload|);
  }

  lemma {:induction false} SendPacketsClean(link: Link, packets: seq<seq<Byte>>)
    requires Clean(link)
    ensures Clean(SendPackets(link, packets).link) && TerminatorFree(SendPackets(link, packets).out)
    decreases packets
  {
    hide Clean, SendPayload;
    if packets != [] {
      EscapeHidesFrameEnd(packets[0]);
      SendIsClean(link, EscapeSeq(packets[0]));
      SendPacketsClean(SendHabitat(link, packets[0]).link, packets[1..]);
    }
  }

  /** A split packet crosses the wire and comes out as exactly one request, the
      original payload: every earlier chunk is suppressed, and whatever the cache
      held before is discarded. */
  lemma PipelineRoundTrip(link: Link, data: seq<Byte>, cache: seq<Byte>)
    requires Clean(link) && |data| > HEADER && data[0] == MICROCOSM_ID_BYTE
    ensures var out := SendSplit(link, data).out;
            && |out| > 0
            && Reassemble(ReadAll(Terminated(out)), cache)
            == Reassembly(Nones(|out| - 1) + [Some(data[HEADER..])], [])
  {
    hide Chunks, SendPackets, Reassemble, ReadAll, Terminated, Clean;
    var packets := SplitPackets(data);
    SendPacketsClean(link, packets);
    FramesSurvive(SendPackets(link, packets).out);
    ChunksReassemble(link, data[..HEADER], data[HEADER..], true, cache);
    assert [] + data[HEADER..] == data[HEADER..];
  }

  // ---------------------------------------------------------- whole or split

  /** What a frame carries for the Habitat layer of the client. */
  function Carried(frame: seq<Byte>): seq<Byte>
  {
    match Decode(frame) case Valid(f) => DescapeSeq(f.payload) case _ => []
  }

  predicate IsActionFrame(frame: seq<Byte>)
  {
    Decode(frame).Valid? && Decode(frame).frame.cmd == 0x20
  }

  lemma FrameCarries(link: Link, packet: seq<Byte>)
    ensures var out := SendHabitat(link, packet).out;
            |out| == 1 && IsActionFrame(out[0]) && Carried(out[0]) == packet
  {
    DecodeEncode(CMD_ACTION, IncSeq(link.outSeq), link.inSeq, EscapeSeq(packet));
    EscapeRoundTrip(packet);
    hide Encode, Decode, EscapeSeq, DescapeSeq, IncSeq, Trim;
  }

  lemma {:induction false} FramesCarry(link: Link, packets: seq<seq<Byte>>)
    ensures var out := SendPackets(link, packets).out;
            |out| == |packets| && forall i | 0 <= i < |out| :: IsActionFrame(out[i]) && Carried(out[i]) == packets[i]
    decreases packets
  {
    hide SendHabitat, Carried, IsActionFrame;
    if packets != [] {
      var first := SendHabitat(link, packets[0]);
      FrameCarries(link, packets[0]);
      FramesCarry(first.link, packets[1..]);
      var rest, out := SendPackets(first.link, packets[1..]).out, SendPackets(link, packets).out;
      assert out == first.out + rest;
      forall i | 0 <= i < |out| ensures IsActionFrame(out[i]) && Carried(out[i]) == packets[i] {
        if i > 0 {
          assert out[i] == rest[i - 1] && packets[i] == packets[1..][i - 1];
        }
      }
    }
  }

  /** A packet goes out whole in one frame when it is not to be split or has at most
      104 bytes, and otherwise in one frame for every 100 bytes behind its header,
      none of which carries more than 104. */
  lemma WholeOrSplit(link: Link, data: seq<Byte>, split: bool)
    ensures var out := ToClient(link, data, split).out;
            && (forall i | 0 <= i < |out| :: IsActionFrame(out[i]))
            && (split ==> forall i | 0 <= i < |out| :: |Carried(out[i])| <= 104)
            && if split && |data| > 104 then |out| == (|data| + 95) / 100
               else |out| == 1 && Carried(out[0]) == data
  {
    hide Carried, IsActionFrame;
    if split && |data| > 104 {
      hide SendHabitat, SendPackets, SplitPackets, HasFlag, LowFive;
      SplitShape(data);
      FramesCarry(link, SplitPackets(data));
    } else {
      hide SendSplit, SendHabitat;
      FrameCarries(link, data);
    }
  }

  /** And then its chunks come out as exactly one request, the bytes behind the
      header. */
  lemma SplitArrives(link: Link, data: seq<Byte>, cache: seq<Byte>)
    requires Clean(link) && |data| > 104 && data[0] == 0x55
    ensures var out := ToClient(link, data, true).out;
            && |out| > 0
            && Reassemble(ReadAll(Terminated(out)), cache) == Reassembly(Nones(|out| - 1) + [Some(data[4..])], [])
  {
    hide Clean, SendSplit, SendHabitat, Reassemble, ReadAll, Terminated;
    PipelineRoundTrip(link, data, cache);
  }
}
