/** The byte stream around the link: reading frames terminated by 0x0D, the
    transparency of everything the bridge writes, and the NAK debounce, over
    arbitrary runs of a session from its construction. */
module QLinkFraming {
  import opened Bits
  import opened Options
  import opened QLinkCodec
  import opened HabitatEscape
  import opened QLinkSession

  // ---------------------------------------------------------------- reading

  datatype ReadResult = ReadBody(body: seq<Byte>, rest: seq<Byte>) | EndOfStream

  /** The bytes before the first terminator, and what follows it. */
  function ReadQLinkFrame(stream: seq<Byte>): ReadResult
  {
    if stream == [] then EndOfStream
    else if stream[0] == FRAME_END then ReadBody([], stream[1..])
    else
      match ReadQLinkFrame(stream[1..])
      case EndOfStream => EndOfStream
      case ReadBody(body, rest) => ReadBody([stream[0]] + body, rest)
  }

  lemma {:induction false} ReadOne(stream: seq<Byte>)
    ensures match ReadQLinkFrame(stream)
            case EndOfStream => FRAME_END !in stream
            case ReadBody(body, rest) => stream == body + [FRAME_END] + rest && FRAME_END !in body
  {
    if stream != [] && stream[0] != FRAME_END {
      ReadOne(stream[1..]);
      assert stream == [stream[0]] + stream[1..];
    }
  }

  lemma {:induction false} ReadBack(body: seq<Byte>, rest: seq<Byte>)
    requires FRAME_END !in body
    ensures ReadQLinkFrame(body + [FRAME_END] + rest) == ReadBody(body, rest)
  {
    var stream := body + [FRAME_END] + rest;
    if body == [] {
      assert stream[1..] == rest;
    } else {
      ReadBack(body[1..], rest);
      assert stream[1..] == body[1..] + [FRAME_END] + rest;
    }
  }

  /** Every complete frame body on the stream, in order. */
  function ReadAll(stream: seq<Byte>): seq<seq<Byte>>
    decreases |stream|
  {
    match ReadQLinkFrame(stream)
    case EndOfStream => []
    case ReadBody(body, rest) => ReadOne(stream); [body] + ReadAll(rest)
  }

  /** Reading is exact: the bodies contain no terminator and, put back on the
      wire, give the stream up to its last, incomplete frame. */
  lemma {:induction false} ReadAllExact(stream: seq<Byte>) returns (partial: seq<Byte>)
    ensures stream == Terminated(ReadAll(stream)) + partial && FRAME_END !in partial
    ensures forall i | 0 <= i < |ReadAll(stream)| :: FRAME_END !in ReadAll(stream)[i]
    decreases |stream|
  {
    ReadOne(stream);
    match ReadQLinkFrame(stream)
    case EndOfStream => partial := stream;
    case ReadBody(body, rest) =>
      partial := ReadAllExact(rest);
      var bodies := ReadAll(rest);
      assert ReadAll(stream) == [body] + bodies && ([body] + bodies)[1..] == bodies;
      assert stream == body + [FRAME_END] + (Terminated(bodies) + partial);
  }

  predicate TerminatorFree(frames: seq<seq<Byte>>)
  {
    forall i | 0 <= i < |frames| :: FRAME_END !in frames[i]
  }

  /** A sequence of frames survives the wire exactly when none of them contains
      the terminator. */
  lemma {:induction false} FramesSurvive(frames: seq<seq<Byte>>)
    ensures ReadAll(Terminated(frames)) == frames <==> TerminatorFree(frames)
  {
    var bodies := ReadAll(Terminated(frames));
    var partial := ReadAllExact(Terminated(frames));
    if TerminatorFree(frames) {
      FramesReadBack(frames);
    }
  }

  lemma {:induction false} FramesReadBack(frames: seq<seq<Byte>>)
    requires TerminatorFree(frames)
    ensures ReadAll(Terminated(frames)) == frames
  {
    if frames != [] {
      assert TerminatorFree(frames[1..]) by {
        forall i | 0 <= i < |frames| - 1 ensures FRAME_END !in frames[1..][i] {
          assert frames[1..][i] == frames[i + 1];
        }
      }
      FramesReadBack(frames[1..]);
      ReadBack(frames[0], Terminated(frames[1..]));
    }
  }

  // ------------------------------------------------------------------- runs

  /** What can happen to a session's link. */
  datatype LinkEvent =
    | Heard(body: seq<Byte>, now: nat)
    | Sent(packet: seq<Byte>)
    | SentFlow(m0: Byte, m1: Byte)

  function Step(link: Link, event: LinkEvent): Effect
  {
    match event
    case Heard(body, now) => HandleBody(link, body, now)
    case Sent(packet) => SendHabitat(link, packet)
    case SentFlow(m0, m1) => SendPayload(link, [m0, m1])
  }

  function LinkAfter(link: Link, events: seq<LinkEvent>): Link
    decreases events
  {
    if events == [] then link else LinkAfter(Step(link, events[0]).link, events[1..])
  }

  /** Every frame written during the run, in order. */
  function Written(link: Link, events: seq<LinkEvent>): seq<seq<Byte>>
    decreases events
  {
    if events == [] then [] else Step(link, events[0]).out + Written(Step(link, events[0]).link, events[1..])
  }

  /** Frames are written in the order of what happens to the link. */
  lemma {:induction false} WrittenSnoc(link: Link, events: seq<LinkEvent>, event: LinkEvent)
    ensures Written(link, events + [event]) == Written(link, events) + Step(LinkAfter(link, events), event).out
    decreases events
  {
    hide Step;
    if events == [] {
      assert events + [event] == [event] && [event][1..] == [];
    } else {
      assert (events + [event])[1..] == events[1..] + [event];
      WrittenSnoc(Step(link, events[0]).link, events[1..], event);
    }
  }

  /** No stored frame and no sequence number of the link contains a terminator. */
  predicate Clean(link: Link)
  {
    && link.inSeq != FRAME_END
    && SEQ_LOW <= link.outSeq <= SEQ_DEFAULT
    && forall i | 0 <= i < |link.window| :: CleanFrame(link.window[i].frame)
  }

  predicate CleanFrame(frame: seq<Byte>)
  {
    FRAME_END !in frame && |frame| >= HEADER_LEN && frame == Encode(CMD_ACTION, frame[5], frame[6], frame[HEADER_LEN..])
  }

  /** Bodies come from the frame reader, so they contain no terminator; flow
      control packets are sent without escaping. */
  predicate CleanEvent(event: LinkEvent)
  {
    match event
    case Heard(body, _) => FRAME_END !in body
    case Sent(_) => true
    case SentFlow(m0, m1) => m0 != FRAME_END && m1 != FRAME_END
  }

  lemma CleanEncoding(cmd: Byte, sendSeq: Byte, recvSeq: Byte, payload: seq<Byte>)
    requires FRAME_END !in payload && cmd != FRAME_END && sendSeq != FRAME_END && recvSeq != FRAME_END
    ensures FRAME_END !in Encode(cmd, sendSeq, recvSeq, payload)
    ensures cmd == CMD_ACTION ==> CleanFrame(Encode(cmd, sendSeq, recvSeq, payload))
  {
    EncodeHidesFrameEnd(cmd, sendSeq, recvSeq, payload);
    EncodedFields(cmd, sendSeq, recvSeq, payload);
    hide Encode;
  }

  lemma EncodedFields(cmd: Byte, sendSeq: Byte, recvSeq: Byte, payload: seq<Byte>)
    ensures var frame := Encode(cmd, sendSeq, recvSeq, payload);
            frame[5] == sendSeq && frame[6] == recvSeq && frame[HEADER_LEN..] == payload
  {
    hide Crc, CrcField;
  }

  lemma SendIsClean(link: Link, payload: seq<Byte>)
    requires Clean(link) && FRAME_END !in payload
    ensures Clean(SendPayload(link, payload).link) && TerminatorFree(SendPayload(link, payload).out)
  {
    hide Encode, CleanFrame;
    CleanEncoding(CMD_ACTION, IncSeq(link.outSeq), link.inSeq, payload);
    var w := SendPayload(link, payload).link.window;
    var frame := Encode(CMD_ACTION, IncSeq(link.outSeq), link.inSeq, payload);
    var long := link.window + [SentFrame(IncSeq(link.outSeq), frame)];
    assert forall i | 0 <= i < |long| :: CleanFrame(long[i].frame);
    forall i | 0 <= i < |w| ensures CleanFrame(w[i].frame) {
      assert w[i] == long[i + |long| - |w|];
    }
  }

  lemma ControlIsClean(link: Link, cmd: Byte)
    requires Clean(link) && cmd != FRAME_END
    ensures TerminatorFree(SendControl(link, cmd).out)
  {
    CleanEncoding(cmd, link.outSeq, link.inSeq, []);
  }

  lemma {:induction false} FreeKeepsClean(window: seq<SentFrame>, recvSeq: Byte)
    requires forall i | 0 <= i < |window| :: CleanFrame(window[i].frame)
    ensures forall i | 0 <= i < |FreeAcked(window, recvSeq)| :: CleanFrame(FreeAcked(window, recvSeq)[i].frame)
  {
    hide CleanFrame, AckCovers;
    if window != [] && AckCovers(window[0].seqNo, recvSeq) {
      forall i | 0 <= i < |window| - 1 ensures CleanFrame(window[1..][i].frame) {
        assert window[1..][i] == window[i + 1];
      }
      FreeKeepsClean(window[1..], recvSeq);
    }
  }

  lemma ResendIsClean(link: Link, now: nat)
    requires Clean(link)
    ensures Clean(ResendOldest(link, now).link) && TerminatorFree(ResendOldest(link, now).out)
  {
    if link.window != [] {
      var f := link.window[0].frame;
      assert CleanFrame(f);
      var payload := f[HEADER_LEN..];
      EncodeHidesFrameEnd(CMD_ACTION, f[5], f[6], payload);
      RefreshIsReencode(CMD_ACTION, f[5], f[6], payload, link.inSeq);
      hide Encode, Refresh, CleanFrame;
      assert f[5] in f && forall b | b in payload :: b in f;
      CleanEncoding(CMD_ACTION, f[5], link.inSeq, payload);
    }
  }

  lemma AckIsClean(link: Link, frame: QLinkFrame, now: nat)
    requires Clean(link)
    ensures Clean(ProcessAck(link, frame, now).link) && TerminatorFree(ProcessAck(link, frame, now).out)
  {
    hide SeqForward, CleanFrame, Refresh, FreeAcked;
    FreeKeepsClean(link.window, frame.recvSeq);
    ResendIsClean(link, now);
    ResendIsClean(link.(window := FreeAcked(link.window, frame.recvSeq), lastRecv := frame.recvSeq), now);
  }

  lemma HandleIsClean(link: Link, body: seq<Byte>, now: nat)
    requires Clean(link) && FRAME_END !in body
    ensures Clean(HandleBody(link, body, now).link) && TerminatorFree(HandleBody(link, body, now).out)
  {
    match Decode(body)
    case Malformed =>
    case BadCrc(_, _, _) => ControlIsClean(link, HABITAT_NAK);
    case Valid(frame) =>
      assert frame.sendSeq == body[5];
      hide Decode, Encode, CleanFrame, ProcessAck, SendPayload;
      var first := ProcessAck(link.(nakSent := false), frame, now);
      AckIsClean(link.(nakSent := false), frame, now);
      DispatchIsClean(first.link, frame, body);
  }

  lemma DispatchIsClean(link: Link, frame: QLinkFrame, body: seq<Byte>)
    requires Clean(link) && frame.sendSeq != FRAME_END
    ensures Clean(Dispatch(link, frame, body).link) && TerminatorFree(Dispatch(link, frame, body).out)
  {
    hide Encode, CleanFrame, SendPayload;
    ControlIsClean(link.(inSeq := SEQ_LOW, outSeq := SEQ_LOW), CMD_ACK);
    ControlIsClean(link, CMD_ACK);
    SendIsClean(link.(inSeq := frame.sendSeq), SYNC_MNEMONIC);
  }

  lemma StepIsClean(link: Link, event: LinkEvent)
    requires Clean(link) && CleanEvent(event)
    ensures Clean(Step(link, event).link) && TerminatorFree(Step(link, event).out)
  {
    hide Clean, HandleBody, SendPayload, EscapeSeq;
    match event
    case Heard(body, now) => HandleIsClean(link, body, now);
    case Sent(packet) => EscapeHidesFrameEnd(packet); SendIsClean(link, EscapeSeq(packet));
    case SentFlow(m0, m1) => SendIsClean(link, [m0, m1]);
  }

  lemma {:induction false} RunIsClean(link: Link, events: seq<LinkEvent>)
    requires Clean(link) && forall i | 0 <= i < |events| :: CleanEvent(events[i])
    ensures TerminatorFree(Written(link, events)) && Clean(LinkAfter(link, events))
    decreases events
  {
    hide Clean, Step;
    if events != [] {
      StepIsClean(link, events[0]);
      RunIsClean(Step(link, events[0]).link, events[1..]);
    }
  }

  /** Bodies are read off the client's byte stream; the only flow control packet
      the bridge sends is the synchronisation reply. */
  predicate FromStream(incoming: seq<Byte>, event: LinkEvent)
  {
    match event
    case Heard(body, _) => body in ReadAll(incoming)
    case Sent(_) => true
    case SentFlow(m0, m1) => [m0, m1] == SYNC_MNEMONIC
  }

  lemma FromStreamIsClean(incoming: seq<Byte>, event: LinkEvent)
    requires FromStream(incoming, event)
    ensures CleanEvent(event)
  {
    hide ReadAll;
    var partial := ReadAllExact(incoming);
  }

  /** Whatever a session hears and sends from its construction on, the bytes it
      has written split back into exactly the frames it wrote, in order. */
  lemma Transparent(incoming: seq<Byte>, events: seq<LinkEvent>)
    requires forall i | 0 <= i < |events| :: FromStream(incoming, events[i])
    ensures ReadAll(Terminated(Written(NEW_LINK, events))) == Written(NEW_LINK, events)
  {
    hide Step, Written, ReadAll, CleanFrame;
    forall i | 0 <= i < |events| ensures CleanEvent(events[i]) {
      assert FromStream(incoming, events[i]);
      FromStreamIsClean(incoming, events[i]);
    }
    RunIsClean(NEW_LINK, events);
    FramesSurvive(Written(NEW_LINK, events));
  }

  // ----------------------------------------------------------- NAK debounce

  predicate HeardValid(event: LinkEvent)
  {
    event.Heard? && Decode(event.body).Valid?
  }

  /** The event makes the bridge send a NAK for a corrupt frame. */
  predicate Naks(link: Link, event: LinkEvent)
  {
    event.Heard? && Decode(event.body).BadCrc? && Step(link, event).out != []
  }

  /** NAKs never advance the send sequence or enter the window. */
  lemma NoiseKeepsWindow(link: Link, body: seq<Byte>, now: nat)
    requires !Decode(body).Valid?
    ensures HandleBody(link, body, now).link.(nakSent := link.nakSent) == link
    ensures HandleBody(link, body, now).delivered == None
    ensures |HandleBody(link, body, now).out| == if Decode(body).BadCrc? && !link.nakSent then 1 else 0
  {
    hide Encode;
  }

  lemma {:induction false} StaysSilent(link: Link, events: seq<LinkEvent>)
    requires link.nakSent && forall i | 0 <= i < |events| :: !HeardValid(events[i])
    ensures LinkAfter(link, events).nakSent
    decreases events
  {
    if events != [] {
      StaysSilent(Step(link, events[0]).link, events[1..]);
    }
  }

  lemma {:induction false} LinkAfterSplit(link: Link, a: seq<LinkEvent>, b: seq<LinkEvent>)
    ensures LinkAfter(link, a + b) == LinkAfter(LinkAfter(link, a), b)
    decreases a
  {
    hide Step;
    if a == [] {
      assert a + b == b;
    } else {
      assert (a + b)[1..] == a[1..] + b;
      LinkAfterSplit(Step(link, a[0]).link, a[1..], b);
    }
  }

  lemma NakArms(link: Link, event: LinkEvent)
    requires Naks(link, event)
    ensures Step(link, event).link.nakSent
  {
    hide Encode;
  }

  lemma NakNeedsSilence(link: Link, event: LinkEvent)
    ensures Naks(link, event) ==> !link.nakSent
  {
  }

  /** Between any two NAKs sent for corrupt frames, at least one valid frame was
      heard. */
  lemma NakDebounce(link: Link, events: seq<LinkEvent>, i: nat, j: nat)
    requires i < j < |events|
    ensures Naks(LinkAfter(link, events[..i]), events[i]) && Naks(LinkAfter(link, events[..j]), events[j]) ==>
              exists m | i < m < j :: HeardValid(events[m])
  {
    hide Decode, HandleBody, SendPayload;
    var between := events[i + 1..j];
    var before := LinkAfter(link, events[..i]);
    assert events[..i + 1] == events[..i] + [events[i]] && events[..j] == events[..i + 1] + between;
    LinkAfterSplit(link, events[..i], [events[i]]);
    LinkAfterSplit(link, events[..i + 1], between);
    var after := LinkAfter(link, events[..i + 1]);
    assert after == Step(before, events[i]).link by { assert [events[i]][1..] == []; }
    if Naks(before, events[i]) && forall m | i < m < j :: !HeardValid(events[m]) {
      forall m | 0 <= m < |between| ensures !HeardValid(between[m]) {
        assert between[m] == events[i + 1 + m];
      }
      NakArms(before, events[i]);
      StaysSilent(after, between);
      NakNeedsSilence(LinkAfter(link, events[..j]), events[j]);
    }
  }
}
