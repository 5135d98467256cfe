/** The link of a session handed to another process: it starts with an empty window
    and without a last acknowledgement, in the middle of the numbering. */
module QLinkRestore {
  import opened Bits
  import opened QLinkCodec
  import opened QLinkSession
  import opened QLinkArq
  import opened QLinkRecovery
  import opened QLinkLimits
  import opened QLinkFraming

  function Handover(s: System): System
  {
    s.(link := RestoredLink(s.link.inSeq, s.link.outSeq))
  }

  /** A handover is safe exactly when the client has accepted all that was sent;
      otherwise what it still waits for is nowhere any more. */
  lemma HandoverSafeExactly(s: System, idx: seq<nat>)
    requires Coherent(s, idx)
    ensures Safe(Handover(s)) <==> s.client.accepted == s.sent
  {
    assert s.client.accepted <= s.sent by { CoherentIsSafe(s, idx); }
    hide Coherent;
    if s.client.accepted != s.sent {
      assert |s.client.accepted| < |s.sent|;
      assert !Retransmittable(Handover(s), |s.sent|);
    }
  }

  /** A restored link hears a report exactly when its number is at most 56 or at
      least 112; the range between reads as lying behind number 0. */
  lemma RestoredHearsExactly(link: Link, frame: QLinkFrame, now: nat)
    requires link.lastRecv == 0 && CarriesAck(frame) && SEQ_LOW <= frame.recvSeq <= SEQ_DEFAULT
    ensures var e := ProcessAck(link, frame, now);
            && (e.link.lastRecv == frame.recvSeq <==> frame.recvSeq <= 56 || frame.recvSeq >= 112)
            && (57 <= frame.recvSeq < 112 ==> e == Quiet(link))
  {
    hide FreeAcked, Refresh;
  }

  /** A link that never heard a Reset, new or handed over, is in that state, with nothing
      to retransmit; it goes on from its own positions, a new one from 0x10. */
  lemma StartsDeaf(inSeq: Byte, outSeq: Byte, payload: seq<Byte>)
    ensures NEW_LINK == RestoredLink(0x10, 0x10)
    ensures var link := RestoredLink(inSeq, outSeq);
            && link.lastRecv == 0 && link.window == []
            && Decode(SendPayload(link, payload).out[0]) == Valid(QLinkFrame(0x20, IncSeq(outSeq), inSeq, payload))
  {
    DecodeEncode(0x20, IncSeq(outSeq), inSeq, payload);
    hide Decode, Encode, IncSeq;
  }

  /** In step but for the last acknowledgement, which is not known yet. */
  predicate Unsynced(link: Link, sent: seq<seq<Byte>>, acked: nat)
  {
    link.lastRecv == 0 && InStep(link.(lastRecv := SeqAt(acked)), sent, acked)
  }

  lemma HandoverUnsynced(s: System, idx: seq<nat>)
    requires Coherent(s, idx)
    ensures Unsynced(Handover(s).link, s.sent, |s.sent|)
  {
    hide InFlight, SeqAt;
  }

  /** The first report heard puts the link in step again, and nothing is resent for
      it; a report in the deaf range changes nothing. */
  lemma FirstReport(link: Link, sent: seq<seq<Byte>>, acked: nat, frame: QLinkFrame, a: nat, now: nat)
    requires Unsynced(link, sent, acked) && CarriesAck(frame) && frame.recvSeq == SeqAt(a)
    requires acked <= a <= acked + SEQ_SPAN / 2 && a <= |sent|
    ensures var e := ProcessAck(link, frame, now);
            && e.out == []
            && if 57 <= SeqAt(a) < 112 then e.link == link else InStep(e.link, sent, a)
  {
    RestoredHearsExactly(link, frame, now);
    var known := link.(lastRecv := SeqAt(acked));
    InStepNumbered(known, sent, acked);
    FreeExactly(link.window, acked, a);
    QLinkArq.SuffixHolds(known, sent, acked, a);
    assert SeqAt(a) >= SEQ_LOW;
    hide Refresh, SeqAt, FreeAcked, Holds;
  }

  // ------------------------------------------------------- late first reports

  /** Freeing alone, without the gate before it: a report is read right from 54
      behind to 57 ahead, and frees nothing beyond. */
  lemma FreeWithin(window: seq<SentFrame>, acked: nat, a: nat)
    requires Numbered(window, acked) && acked - 54 <= a <= acked + MAX_WINDOW
    ensures FreeAcked(window, SeqAt(a))
         == if acked <= a <= acked + SEQ_SPAN / 2 + 1 then window[Min(a - acked, |window|)..] else window
  {
    if acked <= a <= acked + SEQ_SPAN / 2 + 1 {
      FreeExactly(window, acked, a);
    } else if window != [] {
      ForwardAt(acked + 1, a);
      FarAway(acked + 1, a);
    }
  }

  lemma FarAway(j: nat, k: nat)
    requires j - 55 <= k < j - 1 || j + SEQ_SPAN / 2 < k < j + MAX_WINDOW
    ensures (k - j) % SEQ_SPAN > SEQ_SPAN / 2
  {
    if k < j {
      assert (k - j) % SEQ_SPAN == k - j + SEQ_SPAN;
    }
  }

  lemma LateFrees(window: seq<SentFrame>, acked: nat, d: nat)
    requires Numbered(window, acked) && 1 <= d < SEQ_SPAN && d <= acked
    ensures FreeAcked(window, SeqAt(acked - d)) == if d <= 54 then window else window[Min(SEQ_SPAN - d, |window|)..]
  {
    if d <= 54 {
      FreeWithin(window, acked, acked - d);
    } else {
      StaleReadsAs(acked, d);
      FreeExactly(window, acked, acked + SEQ_SPAN - d);
    }
    hide SeqAt, FreeAcked, Numbered;
  }

  /** A late first report leaves a restored link's window alone exactly when it lags
      by at most 54 or is not heard at all; a running link allows 55. */
  lemma LateFirstReport(link: Link, sent: seq<seq<Byte>>, acked: nat, frame: QLinkFrame, d: nat, now: nat)
    requires Unsynced(link, sent, acked) && CarriesAck(frame)
    requires 1 <= d < SEQ_SPAN && d <= acked && frame.recvSeq == SeqAt(acked - d)
    ensures var w, deaf := ProcessAck(link, frame, now).link.window, 57 <= frame.recvSeq < 112;
            && (w == link.window <==> d <= 54 || deaf || link.window == [])
            && (d > 54 && !deaf ==> w == link.window[Min(SEQ_SPAN - d, |link.window|)..])
  {
    InStepNumbered(link.(lastRecv := SeqAt(acked)), sent, acked);
    hide FreeAcked, InStep, ProcessAck, Numbered;
    assert SEQ_LOW <= SeqAt(acked - d) <= SEQ_DEFAULT;
    HeardFrees(link, frame, now);
    LateFrees(link.window, acked, d);
    ShorterSuffix(link.window, Min(SEQ_SPAN - d, |link.window|));
    hide SeqAt;
  }

  lemma HeardFrees(link: Link, frame: QLinkFrame, now: nat)
    requires CarriesAck(frame) && link.lastRecv == 0 && SEQ_LOW <= frame.recvSeq <= SEQ_DEFAULT
    ensures ProcessAck(link, frame, now).link.window
         == if 57 <= frame.recvSeq < 112 then link.window else FreeAcked(link.window, frame.recvSeq)
  {
    hide FreeAcked, Refresh;
  }

  /** So from a lag of 55 on it keeps safety exactly when the client has accepted all
      it frees. */
  lemma LateReportUnsafe(s: System, idx: seq<nat>, f: QLinkFrame, d: nat, now: nat)
    requires Loose(s, idx) && s.link.lastRecv == 0 && CarriesAck(f)
    requires 54 < d < SEQ_SPAN && d <= Acked(s) && f.recvSeq == SeqAt(Acked(s) - d) && !(57 <= f.recvSeq < 112)
    ensures Safe(Emit(s, ProcessAck(s.link, f, now), []))
            <==> |s.client.accepted| - Acked(s) >= Min(SEQ_SPAN - d, |s.link.window|)
  {
    hide ProcessAck, Holds, InStep, InFlight, SeqAt, Safe;
    var t := Emit(s, ProcessAck(s.link, f, now), []);
    var acked, n := Acked(s), Min(SEQ_SPAN - d, |s.link.window|);
    LateFirstReport(s.link, s.sent, acked, f, d, now);
    CoherentHolds(Known(s), idx);
    hide Coherent;
    QLinkLimits.SuffixHolds(Known(s), t, acked, n);
    SafeExactly(t, acked + n);
  }

  // ------------------------------------------------- runs of a restored link

  /** The same system with the last acknowledgement that its window stands for. */
  function Known(s: System): System
    requires Acked(s) >= 0
  {
    s.(link := s.link.(lastRecv := SeqAt(Acked(s))))
  }

  /** Coherent whatever acknowledgement was heard last, if any. */
  predicate Loose(s: System, idx: seq<nat>)
  {
    Acked(s) >= 0 && Coherent(Known(s), idx)
  }

  /** A report lags by at most 54 behind what is freed. */
  predicate Timely(s: System, event: Event)
  {
    event.Hear? && Decode(event.body).Valid? && CarriesAck(Decode(event.body).frame) ==>
      TimelyAck(s, Decode(event.body).frame.recvSeq)
  }

  predicate TimelyAck(s: System, recvSeq: Byte)
  {
    exists a: nat | a <= |s.client.accepted| :: Acked(s) - 54 <= a && recvSeq == SeqAt(a)
  }

  predicate TimelyRun(s: System, events: seq<Event>)
    requires Admissible(s, events)
    decreases events
  {
    events != [] ==> Timely(s, events[0]) && TimelyRun(Apply(s, events[0]), events[1..])
  }

  /** An acknowledgement frees or not, and resends or not. */
  lemma AckOutcome(link: Link, f: QLinkFrame, now: nat)
    requires f.cmd != CMD_RESET
    ensures var e := ProcessAck(link, f, now);
            var heard := link.(window := e.link.window, lastRecv := e.link.lastRecv);
            && (e == Quiet(heard) || e == ResendOldest(heard, now))
            && (e.link.window == link.window || (CarriesAck(f) && e.link.window == FreeAcked(link.window, f.recvSeq)))
  {
    hide FreeAcked, Refresh, SeqForward;
  }

  /** What a timely report frees was acknowledged. */
  lemma FreesInStep(link: Link, sent: seq<seq<Byte>>, acked: nat, a: nat)
    requires InStep(link.(lastRecv := SeqAt(acked)), sent, acked) && acked - 54 <= a <= |sent|
    ensures var w := FreeAcked(link.window, SeqAt(a));
            && |w| <= |link.window|
            && var freed := acked + |link.window| - |w|;
            InStep(link.(window := w, lastRecv := SeqAt(freed)), sent, freed) && (freed == acked || freed <= a)
  {
    hide SeqAt, FreeAcked, Holds, Numbered;
    var known := link.(lastRecv := SeqAt(acked));
    InStepNumbered(known, sent, acked);
    FreeWithin(link.window, acked, a);
    if acked <= a <= acked + SEQ_SPAN / 2 + 1 {
      QLinkArq.SuffixHolds(known, sent, acked, a);
    }
  }

  lemma LooseFrees(s: System, idx: seq<nat>, lastRecv: Byte, a: nat)
    requires Loose(s, idx) && Acked(s) - 54 <= a <= |s.client.accepted|
    ensures Loose(s.(link := s.link.(window := FreeAcked(s.link.window, SeqAt(a)), lastRecv := lastRecv)), idx)
  {
    hide InStep, InFlight, SeqAt, FreeAcked;
    PrefixIsShorter(s.client, s.sent);
    FreesInStep(s.link, s.sent, Acked(s), a);
  }

  lemma LooseAck(s: System, idx: seq<nat>, f: QLinkFrame, now: nat) returns (idx': seq<nat>)
    requires Loose(s, idx) && f.cmd != CMD_RESET && (CarriesAck(f) ==> TimelyAck(s, f.recvSeq))
    ensures Loose(Emit(s, ProcessAck(s.link, f, now), []), idx')
  {
    AckOutcome(s.link, f, now);
    hide ProcessAck, FreeAcked, ResendOldest, Coherent, SeqAt;
    var e := ProcessAck(s.link, f, now);
    var t := s.(link := s.link.(window := e.link.window, lastRecv := e.link.lastRecv));
    if e.link.window == s.link.window {
      assert Known(t) == Known(s);
    } else {
      var a: nat :| a <= |s.client.accepted| && Acked(s) - 54 <= a && f.recvSeq == SeqAt(a);
      LooseFrees(s, idx, e.link.lastRecv, a);
    }
    hide Known;
    if e == Quiet(t.link) {
      idx' := idx;
      NothingEmitted(t);
    } else {
      idx' := LooseResend(t, idx, now);
    }
  }

  lemma NothingEmitted(s: System)
    ensures Emit(s, Quiet(s.link), []) == s
  {
    assert s.sent + [] == s.sent && s.channel + [] == s.channel;
  }

  lemma LooseResend(s: System, idx: seq<nat>, now: nat) returns (idx': seq<nat>)
    requires Loose(s, idx)
    ensures Loose(Emit(s, ResendOldest(s.link, now), []), idx')
  {
    hide Coherent, Refresh, SeqAt;
    assert s.sent + [] == s.sent;
    idx' := ResendKeeps(Known(s), idx, now);
    assert Known(Emit(s, ResendOldest(s.link, now), [])) == Emit(Known(s), ResendOldest(Known(s).link, now), []);
  }

  /** The dispatch does not look at the last acknowledgement. */
  lemma DispatchKnown(link: Link, f: QLinkFrame, body: seq<Byte>, lastRecv: Byte)
    requires f.cmd != CMD_RESET
    ensures var e := Dispatch(link, f, body);
            Dispatch(link.(lastRecv := lastRecv), f, body) == e.(link := e.link.(lastRecv := lastRecv))
  {
    hide Encode;
  }

  lemma LooseDispatch(s: System, idx: seq<nat>, body: seq<Byte>) returns (idx': seq<nat>)
    requires Loose(s, idx) && Decode(body).Valid? && Decode(body).frame.cmd != CMD_RESET
    requires AsksForSync(body) ==> |s.link.window| < MAX_WINDOW
    ensures var e := Dispatch(s.link, Decode(body).frame, body);
            Loose(Emit(s, e, if AsksForSync(body) then [SYNC_MNEMONIC] else []), idx')
  {
    var f, payloads := Decode(body).frame, if AsksForSync(body) then [SYNC_MNEMONIC] else [];
    DispatchKnown(s.link, f, body, SeqAt(Acked(s)));
    DispatchWindow(s.link, f, body);
    hide Decode, Coherent, SeqAt, Dispatch, AsksForSync;
    idx' := DispatchKeeps(Known(s), idx, body);
    var t := Emit(s, Dispatch(s.link, f, body), payloads);
    assert Acked(t) == Acked(s);
    assert Known(t) == Emit(Known(s), Dispatch(Known(s).link, f, body), payloads);
  }

  lemma LooseHear(s: System, idx: seq<nat>, body: seq<Byte>, now: nat) returns (idx': seq<nat>)
    requires Loose(s, idx) && Enabled(s, Hear(body, now)) && Timely(s, Hear(body, now))
    ensures Loose(Apply(s, Hear(body, now)), idx')
  {
    hide Encode, Decode, Coherent, SeqAt, ProcessAck, Dispatch;
    assert s.sent + [] == s.sent && s.channel + [] == s.channel;
    match Decode(body)
    case Malformed => idx' := idx;
    case BadCrc(_, _, _) =>
      idx' := HearKeeps(Known(s), idx, body, now);
      assert Known(Apply(s, Hear(body, now))) == Apply(Known(s), Hear(body, now));
    case Valid(f) =>
      var t := s.(link := s.link.(nakSent := false));
      LooseNak(s, idx);
      assert CarriesAck(f) ==> TimelyAck(t, f.recvSeq);
      var first := ProcessAck(t.link, f, now);
      var u := Emit(t, first, []);
      idx' := LooseAck(t, idx, f, now);
      var second := Dispatch(u.link, f, body);
      idx' := LooseDispatch(u, idx', body);
      assert s.channel + (first.out + second.out) == s.channel + first.out + second.out;
  }

  lemma LooseNak(s: System, idx: seq<nat>)
    requires Loose(s, idx)
    ensures Loose(s.(link := s.link.(nakSent := false)), idx)
  {
    hide Holds, InFlight, SeqAt;
  }

  lemma LooseStep(s: System, idx: seq<nat>, event: Event) returns (idx': seq<nat>)
    requires Loose(s, idx) && Enabled(s, event) && Timely(s, event)
    ensures Loose(Apply(s, event), idx')
  {
    if event.Hear? {
      idx' := LooseHear(s, idx, event.body, event.now);
    } else {
      hide Coherent, Encode, Decode, ClientReceive, SeqAt;
      idx' := StepKeeps(Known(s), idx, event);
      assert Known(Apply(s, event)) == Apply(Known(s), event);
    }
  }

  lemma {:induction false} LooseRun(s: System, idx: seq<nat>, events: seq<Event>) returns (idx': seq<nat>)
    requires Loose(s, idx) && Admissible(s, events) && TimelyRun(s, events)
    ensures Loose(Run(s, events), idx')
    decreases events
  {
    hide Loose, Enabled, Apply, Timely;
    if events == [] {
      idx' := idx;
    } else {
      idx' := LooseStep(s, idx, events[0]);
      idx' := LooseRun(Apply(s, events[0]), idx', events[1..]);
    }
  }

  lemma LooseIsSafe(s: System, idx: seq<nat>)
    requires Loose(s, idx)
    ensures Safe(s)
  {
    CoherentIsSafe(Known(s), idx);
    hide Coherent, Decode;
    assert forall k | 0 < k <= |s.sent| :: Retransmittable(Known(s), k) == Retransmittable(s, k);
  }

  /** Every run of a link handed over safely is safe while reports lag by at most 54,
      though it never knew what was acknowledged before. */
  lemma RestoredSafety(s: System, idx: seq<nat>, events: seq<Event>)
    requires Coherent(s, idx) && s.client.accepted == s.sent
    requires Admissible(Handover(s), events) && TimelyRun(Handover(s), events)
    ensures Safe(Run(Handover(s), events))
  {
    HandoverLoose(s, idx);
    hide Coherent, Handover, Loose, Enabled, Apply, Safe;
    var idx' := LooseRun(Handover(s), idx, events);
    LooseIsSafe(Run(Handover(s), events), idx');
  }

  lemma HandoverLoose(s: System, idx: seq<nat>)
    requires Coherent(s, idx) && s.client.accepted == s.sent
    ensures Loose(Handover(s), idx)
  {
    hide InFlight, SeqAt, Holds;
  }

  // ---------------------------------------------------------- the deaf range

  /** A valid frame that asks for nothing and reports a number in the deaf range. */
  predicate Deaf(event: LinkEvent)
  {
    event.Heard? && Decode(event.body).Valid? ==>
      CarriesAck(Decode(event.body).frame) && 57 <= Decode(event.body).frame.recvSeq < 112
  }

  lemma DeafStep(link: Link, event: LinkEvent)
    requires link.lastRecv == 0 && Deaf(event)
    ensures var t := Step(link, event).link; t.lastRecv == 0 && t.lastResend == link.lastResend
  {
    hide Decode, Encode, ProcessAck, IncSeq;
    if event.Heard? && Decode(event.body).Valid? {
      RestoredHearsExactly(link.(nakSent := false), Decode(event.body).frame, event.now);
    }
  }

  /** While the client's reports stay in the deaf range the restored link retransmits
      nothing at all, however long the client waits for a lost frame. */
  lemma {:induction false} NothingResent(link: Link, events: seq<LinkEvent>)
    requires link.lastRecv == 0 && forall i | 0 <= i < |events| :: Deaf(events[i])
    ensures LinkAfter(link, events).lastRecv == 0 && LinkAfter(link, events).lastResend == link.lastResend
    decreases events
  {
    hide Deaf, Step;
    if events != [] {
      DeafStep(link, events[0]);
      NothingResent(Step(link, events[0]).link, events[1..]);
    }
  }

  // ------------------------------------------------- the bytes over handovers

  /** The link that takes over from a given one. */
  function Successor(link: Link): Link
  {
    RestoredLink(link.inSeq, link.outSeq)
  }

  /** Every frame written over several processes, each but the first taking over from
      the one before. */
  function WrittenOver(link: Link, legs: seq<seq<LinkEvent>>): seq<seq<Byte>>
    decreases legs
  {
    if legs == [] then []
    else Written(link, legs[0]) + WrittenOver(Successor(LinkAfter(link, legs[0])), legs[1..])
  }

  lemma {:induction false} LegsAreClean(link: Link, incoming: seq<Byte>, legs: seq<seq<LinkEvent>>)
    requires Clean(link)
    requires forall l, i | 0 <= l < |legs| && 0 <= i < |legs[l]| :: FromStream(incoming, legs[l][i])
    ensures TerminatorFree(WrittenOver(link, legs))
    decreases legs
  {
    hide Step, Written, CleanFrame, LinkAfter, FromStream;
    if legs != [] {
      var events, rest := legs[0], legs[1..];
      forall i | 0 <= i < |events| ensures CleanEvent(events[i]) {
        assert FromStream(incoming, legs[0][i]);
        FromStreamIsClean(incoming, events[i]);
      }
      RunIsClean(link, events);
      forall l, i | 0 <= l < |rest| && 0 <= i < |rest[l]| ensures FromStream(incoming, rest[l][i]) {
        assert rest[l] == legs[l + 1];
      }
      LegsAreClean(Successor(LinkAfter(link, events)), incoming, rest);
    }
  }

  /** Over any number of handovers the bytes written split back into exactly the
      frames written, in order. */
  lemma HandoverTransparent(incoming: seq<Byte>, legs: seq<seq<LinkEvent>>)
    requires forall l, i | 0 <= l < |legs| && 0 <= i < |legs[l]| :: FromStream(incoming, legs[l][i])
    ensures ReadAll(Terminated(WrittenOver(NEW_LINK, legs))) == WrittenOver(NEW_LINK, legs)
  {
    LegsAreClean(NEW_LINK, incoming, legs);
    hide WrittenOver, ReadAll, Terminated, FromStream;
    FramesSurvive(WrittenOver(NEW_LINK, legs));
  }
}
