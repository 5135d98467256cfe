/** What the bridge writes when it hears a frame: when it retransmits, how often, and
    what else it answers. */
module QLinkReplies {
  import opened Bits
  import opened Options
  import opened QLinkCodec
  import opened QLinkSession
  import opened QLinkFraming

  // ------------------------------------------------------- retransmissions

  /** The client rejects what it got: a sequence error or a Habitat NAK. */
  predicate Rejects(f: QLinkFrame)
  {
    f.cmd == 0x3F || f.cmd == 0x25
  }

  /** An acknowledgement part of hearing a frame writes something exactly when payloads
      stay outstanding and the frame rejects, or repeats the last acknowledgement with
      no retransmission in the 3000 milliseconds before; only then the time of the
      last retransmission moves. */
  lemma RetransmitsExactly(link: Link, f: QLinkFrame, now: nat)
    requires f.cmd != 0x23
    ensures var e := ProcessAck(link, f, now);
            && (e.out != [] <==>
                  e.link.window != []
                  && (Rejects(f) || (f.recvSeq == link.lastRecv
                                     && (link.lastResend == None || now >= link.lastResend.value + 3000))))
            && e.link.lastResend == (if e.out != [] then Some(now) else link.lastResend)
            && |e.out| <= 1
  {
    hide FreeAcked, Refresh;
  }

  /** A Reset draws no retransmission, and does not forget the time of the last. */
  lemma ResetResendsNothing(link: Link, f: QLinkFrame, now: nat)
    requires f.cmd == 0x23
    ensures var e := ProcessAck(link, f, now);
            e.out == [] && e.link.window == [] && e.link.lastResend == link.lastResend
  {
  }

  ghost predicate Retransmits(link: Link, event: LinkEvent)
  {
    && event.Heard? && Decode(event.body).Valid?
    && ProcessAck(link.(nakSent := false), Decode(event.body).frame, event.now).out != []
  }

  /** Drawn by anything but a rejection. */
  ghost predicate RetransmitsUnasked(link: Link, event: LinkEvent)
  {
    Retransmits(link, event) && !Rejects(Decode(event.body).frame)
  }

  /** The times of what is heard do not run backwards. */
  ghost predicate Timed(events: seq<LinkEvent>)
  {
    forall i, j | 0 <= i < j < |events| && events[i].Heard? && events[j].Heard? :: events[i].now <= events[j].now
  }

  lemma DispatchKeepsTime(link: Link, f: QLinkFrame, body: seq<Byte>)
    ensures Dispatch(link, f, body).link.lastResend == link.lastResend
  {
    hide Encode;
  }

  lemma StepTime(link: Link, event: LinkEvent)
    ensures Step(link, event).link.lastResend == if Retransmits(link, event) then Some(event.now) else link.lastResend
  {
    hide Decode, Encode, ProcessAck, Dispatch;
    if event.Heard? && Decode(event.body).Valid? {
      var f, l := Decode(event.body).frame, link.(nakSent := false);
      if f.cmd == 0x23 {
        ResetResendsNothing(l, f, event.now);
      } else {
        RetransmitsExactly(l, f, event.now);
      }
      DispatchKeepsTime(ProcessAck(l, f, event.now).link, f, event.body);
    }
  }

  lemma AfterOneMore(link: Link, events: seq<LinkEvent>, m: nat)
    requires m < |events|
    ensures LinkAfter(link, events[..m + 1]) == Step(LinkAfter(link, events[..m]), events[m]).link
  {
    hide Step;
    assert events[..m + 1] == events[..m] + [events[m]] && [events[m]][1..] == [];
    LinkAfterSplit(link, events[..m], [events[m]]);
  }

  lemma {:induction false} ResendRemembered(link: Link, events: seq<LinkEvent>, i: nat, m: nat)
    requires Timed(events) && i < m <= |events| && Retransmits(LinkAfter(link, events[..i]), events[i])
    ensures var last := LinkAfter(link, events[..m]).lastResend;
            last.Some? && last.value >= events[i].now
    decreases m
  {
    hide LinkAfter, Step, Retransmits;
    AfterOneMore(link, events, m - 1);
    StepTime(LinkAfter(link, events[..m - 1]), events[m - 1]);
    if i < m - 1 {
      ResendRemembered(link, events, i, m - 1);
      HeardIfRetransmits(LinkAfter(link, events[..m - 1]), events[m - 1]);
    }
    HeardIfRetransmits(LinkAfter(link, events[..i]), events[i]);
  }

  lemma HeardIfRetransmits(link: Link, event: LinkEvent)
    ensures Retransmits(link, event) ==> event.Heard?
  {
  }

  /** Over every run whose clock does not run backwards, a retransmission that nobody
      asked for comes at least 3000 milliseconds after any earlier one, with Resets
      and rejections in between or not. */
  lemma ResendsPaced(link: Link, events: seq<LinkEvent>, i: nat, j: nat)
    requires Timed(events) && i < j < |events|
    requires Retransmits(LinkAfter(link, events[..i]), events[i])
    requires RetransmitsUnasked(LinkAfter(link, events[..j]), events[j])
    ensures events[j].now >= events[i].now + 3000
  {
    var before := LinkAfter(link, events[..j]);
    ResendRemembered(link, events, i, j);
    var f := Decode(events[j].body).frame;
    hide LinkAfter, Decode, ProcessAck;
    if f.cmd == 0x23 {
      ResetResendsNothing(before.(nakSent := false), f, events[j].now);
    } else {
      RetransmitsExactly(before.(nakSent := false), f, events[j].now);
    }
  }

  // ---------------------------------------------------------------- answers

  /** What a corrupt frame draws: a NAK with the current numbers, once. */
  lemma NakFrame(link: Link, body: seq<Byte>, now: nat)
    requires Decode(body).BadCrc?
    ensures var out := HandleBody(link, body, now).out;
            if link.nakSent then out == []
            else |out| == 1 && Decode(out[0]) == Valid(QLinkFrame(0x25, link.outSeq, link.inSeq, []))
  {
    DecodeEncode(0x25, link.outSeq, link.inSeq, []);
    hide Decode, Encode;
  }

  predicate HeardCorrupt(event: LinkEvent)
  {
    event.Heard? && Decode(event.body).BadCrc?
  }

  /** Every valid frame arms the next NAK, and every corrupt one disarms it. */
  lemma ArmsExactly(link: Link, event: LinkEvent)
    ensures Step(link, event).link.nakSent
            <==> if HeardValid(event) then false else HeardCorrupt(event) || link.nakSent
  {
    hide Decode, Encode, Refresh, FreeAcked, SeqForward, IncSeq, Trim;
  }

  /** A corrupt frame came after the last valid one. */
  ghost predicate Disarmed(events: seq<LinkEvent>)
  {
    exists i | 0 <= i < |events| :: HeardCorrupt(events[i]) && forall m | i < m < |events| :: !HeardValid(events[m])
  }

  lemma {:induction false} DisarmedExactly(events: seq<LinkEvent>)
    ensures LinkAfter(NEW_LINK, events).nakSent <==> Disarmed(events)
    decreases |events|
  {
    hide HeardValid, HeardCorrupt, Step;
    if events == [] {
    } else {
      hide LinkAfter, Disarmed;
      var k := |events| - 1;
      DisarmedExactly(events[..k]);
      AfterOneMore(NEW_LINK, events, k);
      assert events[..k + 1] == events;
      ArmsExactly(LinkAfter(NEW_LINK, events[..k]), events[k]);
      ValidOrCorrupt(events[k]);
      DisarmedSnoc(events[..k], events[k]);
      assert events == events[..k] + [events[k]];
    }
  }

  lemma ValidOrCorrupt(event: LinkEvent)
    ensures !(HeardValid(event) && HeardCorrupt(event))
  {
  }

  lemma DisarmedSnoc(events: seq<LinkEvent>, event: LinkEvent)
    requires !(HeardValid(event) && HeardCorrupt(event))
    ensures Disarmed(events + [event]) <==> !HeardValid(event) && (HeardCorrupt(event) || Disarmed(events))
  {
    hide HeardValid, HeardCorrupt;
    var all := events + [event];
    assert all[|events|] == event && forall i | 0 <= i < |events| :: all[i] == events[i];
    if Disarmed(events) && !HeardValid(event) {
      var i :| 0 <= i < |events| && HeardCorrupt(events[i]) && forall m | i < m < |events| :: !HeardValid(events[m]);
      assert HeardCorrupt(all[i]);
    }
  }

  /** Over every run of a session, a corrupt frame draws a NAK exactly when no other
      came since the last valid one. */
  lemma NaksExactly(events: seq<LinkEvent>, j: nat)
    requires j < |events| && HeardCorrupt(events[j])
    ensures Step(LinkAfter(NEW_LINK, events[..j]), events[j]).out != [] <==> !Disarmed(events[..j])
  {
    DisarmedExactly(events[..j]);
    NakFrame(LinkAfter(NEW_LINK, events[..j]), events[j].body, events[j].now);
    hide LinkAfter, Decode, Disarmed;
  }

  /** What a valid frame is answered with, besides retransmissions: a Reset and a Ping
      with an empty acknowledgement, an Action that starts with the synchronisation
      mnemonic with an Action of the same, and nothing else with anything. */
  lemma AnswersExactly(link: Link, f: QLinkFrame, body: seq<Byte>)
    ensures var out := Dispatch(link, f, body).out;
            if f.cmd == 0x23 then |out| == 1 && Decode(out[0]) == Valid(QLinkFrame(0x24, 0x10, 0x10, []))
            else if f.cmd == 0x26 then
              |out| == 1 && Decode(out[0]) == Valid(QLinkFrame(0x24, link.outSeq, link.inSeq, []))
            else if f.cmd == 0x20 && [0x53, 0x53] <= f.payload then
              |out| == 1 && Decode(out[0]) == Valid(QLinkFrame(0x20, IncSeq(link.outSeq), f.sendSeq, [0x53, 0x53]))
            else out == []
  {
    DecodeEncode(0x24, 0x10, 0x10, []);
    DecodeEncode(0x24, link.outSeq, link.inSeq, []);
    DecodeEncode(0x20, IncSeq(link.outSeq), f.sendSeq, [0x53, 0x53]);
    hide Decode, Encode, IncSeq, Trim;
  }

  /** Every Action is acknowledged, whether the Habitat layer wants it or not: only an
      Action and a Reset set the number that the bridge acknowledges, and only a Reset
      and the answer to the synchronisation mnemonic its own. What is handed up is an
      Action of at least two bytes that starts with 0x55, as it came. */
  lemma NumbersExactly(link: Link, f: QLinkFrame, body: seq<Byte>)
    ensures var e := Dispatch(link, f, body);
            && e.link.inSeq == (if f.cmd == 0x20 then f.sendSeq else if f.cmd == 0x23 then 0x10 else link.inSeq)
            && e.link.outSeq == (if f.cmd == 0x20 && [0x53, 0x53] <= f.payload then IncSeq(link.outSeq)
                                 else if f.cmd == 0x23 then 0x10 else link.outSeq)
            && (e.delivered == if f.cmd == 0x20 && |f.payload| >= 2 && f.payload[0] == 0x55 then Some(body) else None)
  {
    hide Encode, IncSeq, Trim;
  }

  /** A valid Action or Reset sets the acknowledgement. */
  predicate SetsNumber(event: LinkEvent)
  {
    HeardValid(event) && Decode(event.body).frame.cmd in {0x20, 0x23}
  }

  lemma StepNumber(link: Link, event: LinkEvent)
    ensures Step(link, event).link.inSeq
            == if !SetsNumber(event) then link.inSeq
               else if Decode(event.body).frame.cmd == 0x20 then Decode(event.body).frame.sendSeq else 0x10
  {
    hide Decode, Encode, IncSeq, Trim, Dispatch, Refresh, FreeAcked;
    if event.Heard? && Decode(event.body).Valid? {
      var f := Decode(event.body).frame;
      NumbersExactly(ProcessAck(link.(nakSent := false), f, event.now).link, f, event.body);
    }
  }

  /** Over every run the bridge acknowledges the last Action it heard since the last
      Reset, of whatever kind. */
  lemma {:induction false} AcknowledgesLast(link: Link, events: seq<LinkEvent>, i: nat)
    requires i < |events| && SetsNumber(events[i])
    requires forall j | i < j < |events| :: !SetsNumber(events[j])
    ensures var f := Decode(events[i].body).frame;
            LinkAfter(link, events).inSeq == if f.cmd == 0x20 then f.sendSeq else 0x10
    decreases |events|
  {
    hide LinkAfter, Step, Decode;
    var k := |events| - 1;
    AfterOneMore(link, events, k);
    assert events[..k + 1] == events;
    StepNumber(LinkAfter(link, events[..k]), events[k]);
    if i < k {
      AcknowledgesLast(link, events[..k], i);
    }
  }

  /** What is sent goes out under the next number with the current acknowledgement, and
      stays among the newest 64 until it is acknowledged. */
  lemma SendExactly(link: Link, payload: seq<Byte>)
    ensures var e, kept, seqNo := SendPayload(link, payload), |link.window|, IncSeq(link.outSeq);
            && |e.out| == 1 && Decode(e.out[0]) == Valid(QLinkFrame(0x20, seqNo, link.inSeq, payload))
            && e.link.outSeq == seqNo && e.link.inSeq == link.inSeq
            && e.link.window == (if kept < 64 then link.window else link.window[kept - 63..])
                                + [SentFrame(seqNo, e.out[0])]
  {
    DecodeEncode(0x20, IncSeq(link.outSeq), link.inSeq, payload);
    hide Decode, Encode, IncSeq;
  }
}
