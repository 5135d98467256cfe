/** One side of the QLink link layer: the bridge's retransmit window, sequence
    bookkeeping, acknowledgements and NAK debouncing. The functions say what each
    handler does to the link as a value; the class updates its fields in place and
    is proved against them. */
module QLinkSession {
  import opened Bits
  import opened Options
  import opened QLinkCodec
  import opened HabitatEscape
  import HabitatPackets

  const SEQ_SPAN: nat := 112
  const MAX_WINDOW: nat := 64
  const RESEND_INTERVAL: nat := 3000

  /** An unacknowledged Action frame kept for retransmission. */
  datatype SentFrame = SentFrame(seqNo: Byte, frame: seq<Byte>)

  datatype Link = Link(
    window: seq<SentFrame>,
    lastRecv: Byte,
    inSeq: Byte,
    outSeq: Byte,
    lastResend: Option<nat>,
    nakSent: bool)

  /** A link after a step, with the frames the step wrote and the frame body, if
      any, that it handed to the Habitat layer above. */
  datatype Effect = Effect(link: Link, out: seq<seq<Byte>>, delivered: Option<seq<Byte>>)

  // ------------------------------------------------- sequence arithmetic

  /** Go's remainder, which takes the sign of the dividend. */
  function TruncatedMod(a: int, n: nat): int
    requires n > 0
  {
    if a >= 0 then a % n else -(-a % n)
  }

  /** Increments from `from` to `to` in the circular sequence space. */
  function SeqForward(from: Byte, to: Byte): (d: nat)
    ensures d == (to - from) % SEQ_SPAN
  {
    var d := TruncatedMod(to - from, SEQ_SPAN);
    if d < 0 then d + SEQ_SPAN else d
  }

  predicate AckCovers(seqNo: Byte, recvSeq: Byte)
  {
    SeqForward(seqNo, recvSeq) <= SEQ_SPAN / 2
  }

  // -------------------------------------------------------- link handlers

  function Trim(window: seq<SentFrame>): seq<SentFrame>
  {
    if |window| > MAX_WINDOW then window[|window| - MAX_WINDOW..] else window
  }

  /** The window without the leading frames that recvSeq covers. */
  function FreeAcked(window: seq<SentFrame>, recvSeq: Byte): seq<SentFrame>
  {
    if window != [] && AckCovers(window[0].seqNo, recvSeq) then FreeAcked(window[1..], recvSeq) else window
  }

  function Quiet(link: Link): Effect
  {
    Effect(link, [], None)
  }

  /** Sends an Action frame and keeps it for retransmission. */
  function SendPayload(link: Link, payload: seq<Byte>): Effect
  {
    var seqNo := IncSeq(link.outSeq);
    var frame := Encode(CMD_ACTION, seqNo, link.inSeq, payload);
    Effect(link.(outSeq := seqNo, window := Trim(link.window + [SentFrame(seqNo, frame)])), [frame], None)
  }

  function SendHabitat(link: Link, packet: seq<Byte>): Effect
  {
    SendPayload(link, EscapeSeq(packet))
  }

  /** Header-only frames consume no sequence number and are not kept. */
  function SendControl(link: Link, cmd: Byte): Effect
  {
    Effect(link, [Encode(cmd, link.outSeq, link.inSeq, [])], None)
  }

  function SendNakOnce(link: Link): Effect
  {
    if link.nakSent then Quiet(link) else SendControl(link.(nakSent := true), HABITAT_NAK)
  }

  predicate ResendDue(link: Link, now: nat)
  {
    link.lastResend == None || now - link.lastResend.value >= RESEND_INTERVAL
  }

  /** Go-back-1: the oldest unacknowledged frame with a fresh acknowledgement. */
  function ResendOldest(link: Link, now: nat): Effect
  {
    if link.window == [] then Quiet(link)
    else Effect(link.(lastResend := Some(now)), [Refresh(link.window[0].frame, link.inSeq)], None)
  }

  function ProcessAck(link: Link, frame: QLinkFrame, now: nat): Effect
  {
    if frame.cmd == CMD_RESET then
      Quiet(link.(window := [], lastRecv := SEQ_LOW))
    else if frame.cmd == CMD_SEQ_ERROR || frame.cmd == HABITAT_NAK then
      ResendOldest(link, now)
    else if SeqForward(link.lastRecv, frame.recvSeq) <= SEQ_SPAN / 2 then
      var stuck := frame.recvSeq == link.lastRecv && ResendDue(link, now);
      var acked := link.(window := FreeAcked(link.window, frame.recvSeq), lastRecv := frame.recvSeq);
      if stuck then ResendOldest(acked, now) else Quiet(acked)
    else
      Quiet(link)
  }

  const SYNC_MNEMONIC: seq<Byte> := [0x53, 0x53]

  /** The dispatch on a valid frame, after its acknowledgement was processed. */
  function Dispatch(link: Link, frame: QLinkFrame, body: seq<Byte>): Effect
  {
    if frame.cmd == CMD_RESET then
      SendControl(link.(inSeq := SEQ_LOW, outSeq := SEQ_LOW), CMD_ACK)
    else if frame.cmd == CMD_PING then
      SendControl(link, CMD_ACK)
    else if frame.cmd == CMD_ACTION then
      var acked := link.(inSeq := frame.sendSeq);
      if frame.IsHabitatAction() then Effect(acked, [], Some(body))
      else if SYNC_MNEMONIC <= frame.payload then SendPayload(acked, SYNC_MNEMONIC)
      else Quiet(acked)
    else
      Quiet(link)
  }

  function HandleBody(link: Link, body: seq<Byte>, now: nat): Effect
  {
    match Decode(body)
    case Malformed => Quiet(link)
    case BadCrc(_, _, _) => SendNakOnce(link)
    case Valid(frame) =>
      var first := ProcessAck(link.(nakSent := false), frame, now);
      var second := Dispatch(first.link, frame, body);
      Effect(second.link, first.out + second.out, second.delivered)
  }

  /** Frames as they go on the wire, each followed by the terminator. */
  function Terminated(frames: seq<seq<Byte>>): seq<Byte>
  {
    if frames == [] then [] else frames[0] + [FRAME_END] + Terminated(frames[1..])
  }

  lemma {:induction false} TerminatedAppend(a: seq<seq<Byte>>, b: seq<seq<Byte>>)
    ensures Terminated(a + b) == Terminated(a) + Terminated(b)
  {
    if a == [] {
      assert a + b == b;
    } else {
      assert (a + b)[1..] == a[1..] + b;
      TerminatedAppend(a[1..], b);
    }
  }

  lemma WireGrows(written: seq<Byte>, a: seq<seq<Byte>>, b: seq<seq<Byte>>)
    ensures written + Terminated(a) + Terminated(b) == written + Terminated(a + b)
  {
    TerminatedAppend(a, b);
    hide Terminated;
  }

  /** Sends packets one after the other, each in its own Action frame. */
  function SendPackets(link: Link, packets: seq<seq<Byte>>): Effect
    decreases packets
  {
    if packets == [] then Quiet(link) else
      var first := SendHabitat(link, packets[0]);
      var rest := SendPackets(first.link, packets[1..]);
      Effect(rest.link, first.out + rest.out, None)
  }

  lemma {:induction false} SendPacketsSnoc(link: Link, packets: seq<seq<Byte>>, packet: seq<Byte>)
    ensures var before, last := SendPackets(link, packets), SendHabitat(SendPackets(link, packets).link, packet);
            SendPackets(link, packets + [packet]) == Effect(last.link, before.out + last.out, None)
    decreases packets
  {
    hide SendHabitat;
    if packets == [] {
      assert packets + [packet] == [packet] && [packet][1..] == [];
    } else {
      assert (packets + [packet])[1..] == packets[1..] + [packet];
      SendPacketsSnoc(SendHabitat(link, packets[0]).link, packets[1..], packet);
    }
  }

  function SendSplit(link: Link, data: seq<Byte>): Effect
  {
    if |data| < HabitatPackets.HEADER then SendHabitat(link, data)
    else SendPackets(link, HabitatPackets.SplitPackets(data))
  }

  /** Packets of at most 104 bytes, and those not to be split, go out whole. */
  function ToClient(link: Link, data: seq<Byte>, split: bool): Effect
  {
    if !split || |data| <= HabitatPackets.HEADER + HabitatPackets.MAX_PACKET_SIZE then SendHabitat(link, data)
    else SendSplit(link, data)
  }

  /** What a freshly connected session looks like before the client's Reset. */
  const NEW_LINK := Link([], 0, SEQ_LOW, SEQ_LOW, None, false)

  /** A session handed to another process keeps its own two positions; the window
      and the last acknowledgement heard are not part of the snapshot. */
  function RestoredLink(inSeq: Byte, outSeq: Byte): Link
  {
    Link([], 0, inSeq, outSeq, None, false)
  }

  // ---------------------------------------------------------------- class

  class ClientSession {
    var qlinkSentWindow: seq<SentFrame>
    var qlinkLastRecv: Byte
    var qlinkInSeq: Byte
    var qlinkOutSeq: Byte
    var qlinkLastResend: Option<nat>
    var qlinkNakSent: bool
    /** Every byte written to the client connection so far. */
    var wire: seq<Byte>

    function State(): Link
      reads this
    {
      Link(qlinkSentWindow, qlinkLastRecv, qlinkInSeq, qlinkOutSeq, qlinkLastResend, qlinkNakSent)
    }

    constructor ()
      ensures State() == NEW_LINK && wire == []
    {
      qlinkSentWindow, qlinkLastRecv, qlinkInSeq, qlinkOutSeq := [], 0, SEQ_LOW, SEQ_LOW;
      qlinkLastResend, qlinkNakSent, wire := None, false, [];
    }

    constructor FromSnapshot(inSeq: Byte, outSeq: Byte)
      ensures State() == RestoredLink(inSeq, outSeq) && wire == []
    {
      qlinkSentWindow, qlinkLastRecv, qlinkInSeq, qlinkOutSeq := [], 0, inSeq, outSeq;
      qlinkLastResend, qlinkNakSent, wire := None, false, [];
    }

    method WriteQLinkFrameBytes(frame: seq<Byte>)
      modifies this`wire
      ensures wire == old(wire) + Terminated([frame])
    {
      var out := frame;
      out := out + [FRAME_END];
      wire := wire + out;
    }

    method QLinkRecordSent(seqNo: Byte, frame: seq<Byte>)
      modifies this`qlinkSentWindow
      ensures qlinkSentWindow == Trim(old(qlinkSentWindow) + [SentFrame(seqNo, frame)])
    {
      qlinkSentWindow := qlinkSentWindow + [SentFrame(seqNo, frame)];
      if |qlinkSentWindow| > MAX_WINDOW {
        qlinkSentWindow := qlinkSentWindow[|qlinkSentWindow| - MAX_WINDOW..];
      }
    }

    method QLinkProcessAck(frame: QLinkFrame, now: nat) returns (resend: seq<seq<Byte>>)
      modifies this
      ensures wire == old(wire)
      ensures var e := ProcessAck(old(State()), frame, now); State() == e.link && resend == e.out
    {
      hide Refresh, SeqForward, AckCovers;
      if frame.cmd == CMD_RESET {
        qlinkSentWindow, qlinkLastRecv := [], SEQ_LOW;
        return [];
      }
      var again := false;
      if frame.cmd == CMD_SEQ_ERROR || frame.cmd == HABITAT_NAK {
        again := true;
      } else if SeqForward(qlinkLastRecv, frame.recvSeq) <= SEQ_SPAN / 2 {
        while |qlinkSentWindow| > 0 && AckCovers(qlinkSentWindow[0].seqNo, frame.recvSeq)
          invariant FreeAcked(qlinkSentWindow, frame.recvSeq) == FreeAcked(old(qlinkSentWindow), frame.recvSeq)
          invariant State() == old(State()).(window := qlinkSentWindow) && wire == old(wire)
          decreases |qlinkSentWindow|
        {
          qlinkSentWindow := qlinkSentWindow[1..];
        }
        if frame.recvSeq == qlinkLastRecv && ResendDue(State(), now) {
          again := true;
        }
        qlinkLastRecv := frame.recvSeq;
      }
      if |qlinkSentWindow| == 0 || !again {
        return [];
      }
      qlinkLastResend := Some(now);
      var oldest := qlinkSentWindow[0].frame;
      var stored := new Byte[|oldest|](i requires 0 <= i < |oldest| => oldest[i]);
      assert stored[..] == oldest;
      var resent := RefreshRecvSeq(stored, qlinkInSeq);
      return [resent[..]];
    }

    method SendQLinkAckLikeFrame(cmd: Byte)
      modifies this`wire
      ensures wire == old(wire) + Terminated(SendControl(old(State()), cmd).out)
    {
      var frame := EncodeQLinkFrame(cmd, qlinkOutSeq, qlinkInSeq, []);
      WriteQLinkFrameBytes(frame[..]);
    }

    method SendQLinkNak()
      modifies this`wire, this`qlinkNakSent
      ensures var e := SendNakOnce(old(State())); State() == e.link && wire == old(wire) + Terminated(e.out)
    {
      if qlinkNakSent {
        return;
      }
      qlinkNakSent := true;
      var frame := EncodeQLinkFrame(HABITAT_NAK, qlinkOutSeq, qlinkInSeq, []);
      WriteQLinkFrameBytes(frame[..]);
    }

    method SendQLinkHabitatAction(habitatPkt: seq<Byte>)
      modifies this
      ensures var e := SendHabitat(old(State()), habitatPkt); State() == e.link && wire == old(wire) + Terminated(e.out)
    {
      var escaped := Escape(habitatPkt);
      qlinkOutSeq := IncSeq(qlinkOutSeq);
      var frame := EncodeQLinkFrame(CMD_ACTION, qlinkOutSeq, qlinkInSeq, escaped);
      QLinkRecordSent(qlinkOutSeq, frame[..]);
      WriteQLinkFrameBytes(frame[..]);
    }

    /** Each chunk goes out with its own copy of the packet's header. */
    method SendSplitHabitatAction(data: seq<Byte>)
      modifies this
      ensures var e := SendSplit(old(State()), data); State() == e.link && wire == old(wire) + Terminated(e.out)
    {
      hide HabitatPackets.Chunks, SendHabitat;
      if |data| < 4 {
        SendQLinkHabitatAction(data);
        return;
      }
      var header, payload := data[..4], data[4..];
      var start := 0;
      ghost var packets: seq<seq<Byte>> := [];
      while start < |payload|
        invariant 0 <= start <= |payload|
        invariant packets + HabitatPackets.Chunks(header, payload[start..], start == 0)
               == HabitatPackets.SplitPackets(data)
        invariant var e := SendPackets(old(State()), packets);
                  State() == e.link && wire == old(wire) + Terminated(e.out)
      {
        var size := |payload| - start;
        if size > HabitatPackets.MAX_PACKET_SIZE {
          size := HabitatPackets.MAX_PACKET_SIZE;
        }
        var seqByte := header[1] % 0x20 + HabitatPackets.SPLIT_MIDDLE;
        if start == 0 {
          seqByte := seqByte + HabitatPackets.SPLIT_START;
        }
        if start + size >= |payload| {
          seqByte := seqByte + HabitatPackets.SPLIT_END;
        }
        var chunkHeader: seq<Byte> := header[1 := seqByte];
        var pkt: seq<Byte> := chunkHeader;
        pkt := pkt + payload[start..start + size];
        HabitatPackets.ChunkRound(header, payload[start..], start == 0, chunkHeader, payload[start..start + size]);
        assert payload[start..][size..] == payload[start + size..];
        assert packets + HabitatPackets.Chunks(header, payload[start..], start == 0)
            == packets + [pkt] + HabitatPackets.Chunks(header, payload[start + size..], false);
        SendOneMore(packets, pkt, old(State()), old(wire));
        packets := packets + [pkt];
        start := start + size;
      }
      HabitatPackets.ChunksNone(header, payload[start..]);
      assert packets == HabitatPackets.SplitPackets(data);
    }

    method SendOneMore(ghost packets: seq<seq<Byte>>, packet: seq<Byte>, ghost link: Link, ghost written: seq<Byte>)
      requires var e := SendPackets(link, packets);
               State() == e.link && wire == written + Terminated(e.out)
      modifies this
      ensures var e := SendPackets(link, packets + [packet]);
              State() == e.link && wire == written + Terminated(e.out)
    {
      hide SendHabitat, SendPackets, Terminated;
      SendPacketsSnoc(link, packets, packet);
      WireGrows(written, SendPackets(link, packets).out, SendHabitat(State(), packet).out);
      SendQLinkHabitatAction(packet);
    }

    method SendToClient(data: seq<Byte>, split: bool)
      modifies this
      ensures var e := ToClient(old(State()), data, split);
              State() == e.link && wire == old(wire) + Terminated(e.out)
    {
      hide SendHabitat, SendSplit;
      if !split || |data| <= 4 + HabitatPackets.MAX_PACKET_SIZE {
        SendQLinkHabitatAction(data);
      } else {
        SendSplitHabitatAction(data);
      }
    }

    method SendHabitatFlowControl(m0: Byte, m1: Byte)
      modifies this
      ensures var e := SendPayload(old(State()), [m0, m1]); State() == e.link && wire == old(wire) + Terminated(e.out)
    {
      qlinkOutSeq := IncSeq(qlinkOutSeq);
      var frame := EncodeQLinkFrame(CMD_ACTION, qlinkOutSeq, qlinkInSeq, [m0, m1]);
      QLinkRecordSent(qlinkOutSeq, frame[..]);
      WriteQLinkFrameBytes(frame[..]);
    }

    /** Handles one frame body; returns the body when it carries a Habitat packet
        for the layer above. */
    method HandleQLinkFrame(body: seq<Byte>, now: nat) returns (delivered: Option<seq<Byte>>)
      modifies this
      ensures var e := HandleBody(old(State()), body, now);
              State() == e.link && delivered == e.delivered && wire == old(wire) + Terminated(e.out)
    {
      hide Decode, ProcessAck, Dispatch, Encode;
      delivered := None;
      var decoded := Decode(body);
      if decoded.BadCrc? {
        SendQLinkNak();
        return;
      }
      if decoded.Malformed? {
        assert wire == old(wire) + Terminated([]);
        return;
      }
      qlinkNakSent := false;
      ghost var link := State();
      var resend := QLinkProcessAck(decoded.frame, now);
      ghost var acked := State();
      WriteAll(resend);
      delivered := DispatchQLinkFrame(decoded.frame, body);
      TerminatedAppend(resend, Dispatch(acked, decoded.frame, body).out);
    }

    method WriteAll(frames: seq<seq<Byte>>)
      modifies this`wire
      ensures wire == old(wire) + Terminated(frames)
    {
      for i := 0 to |frames|
        invariant wire == old(wire) + Terminated(frames[..i])
      {
        TerminatedAppend(frames[..i], [frames[i]]);
        assert frames[..i] + [frames[i]] == frames[..i + 1];
        WriteQLinkFrameBytes(frames[i]);
      }
      assert frames[..|frames|] == frames;
    }

    /** The switch on the command of a valid frame. */
    method DispatchQLinkFrame(frame: QLinkFrame, body: seq<Byte>) returns (delivered: Option<seq<Byte>>)
      modifies this
      ensures var e := Dispatch(old(State()), frame, body);
              State() == e.link && delivered == e.delivered && wire == old(wire) + Terminated(e.out)
    {
      hide Encode, IncSeq, Trim;
      delivered := None;
      if frame.cmd == CMD_RESET {
        qlinkInSeq, qlinkOutSeq := SEQ_LOW, SEQ_LOW;
        SendQLinkAckLikeFrame(CMD_ACK);
      } else if frame.cmd == CMD_PING {
        SendQLinkAckLikeFrame(CMD_ACK);
      } else if frame.cmd == CMD_ACTION {
        qlinkInSeq := frame.sendSeq;
        if !frame.IsHabitatAction() {
          var mnemonic := frame.payload[..if |frame.payload| < 2 then |frame.payload| else 2];
          if mnemonic == SYNC_MNEMONIC {
            SendHabitatFlowControl(0x53, 0x53);
          } else {
            assert !(SYNC_MNEMONIC <= frame.payload);
          }
          return;
        }
        return Some(body);
      }
    }
  }
}
