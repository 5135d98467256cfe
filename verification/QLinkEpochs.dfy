/** Runs over several Resets. The client forgets its position when it sends a
    Reset; the bridge goes on in the old numbering until it hears one, if ever, and
    restarts while frames of the old numbering may still be on their way. */
module QLinkEpochs {
  import opened Bits
  import opened QLinkCodec
  import opened QLinkSession
  import opened QLinkArq

  /** A Reset puts any link, in any state, at the start of a new run. */
  lemma ResetStarts(link: Link, sendSeq: Byte, recvSeq: Byte, payload: seq<Byte>, now: nat)
    ensures var e := HandleBody(link, Encode(CMD_RESET, sendSeq, recvSeq, payload), now);
            && Start(System(e.link, [], e.out, NEW_CLIENT))
            && Coherent(System(e.link, [], e.out, NEW_CLIENT), [0])
            && e.link.inSeq == SEQ_LOW
            && e.out == [Encode(CMD_ACK, SEQ_LOW, SEQ_LOW, [])]
  {
    DecodeEncode(CMD_RESET, sendSeq, recvSeq, payload);
    ControlIsNoAction(CMD_ACK, SEQ_LOW, SEQ_LOW, []);
    hide Encode, Decode;
    var e := HandleBody(link, Encode(CMD_RESET, sendSeq, recvSeq, payload), now);
    var s := System(e.link, [], e.out, NEW_CLIENT);
    assert Start(s);
    StartCoherent(s);
    assert NoPayloads(1) == [0];
  }

  /** An old frame that a client just reset would take for its first. */
  predicate Mistaken(body: seq<Byte>)
  {
    IsAction(body) && Decode(body).frame.sendSeq == NEW_CLIENT.next
  }

  predicate NoneMistaken(channel: seq<seq<Byte>>)
  {
    forall i | 0 <= i < |channel| :: !Mistaken(channel[i])
  }

  /** `awaiting` from the client's Reset until the bridge hears one. */
  datatype Epochs = Epochs(system: System, awaiting: bool)

  datatype EpochEvent =
    | Within(event: Event)
    | ClientResets
    | ResetHeard(sendSeq: Byte, recvSeq: Byte, payload: seq<Byte>, now: nat)

  /** The bridge hears a Reset: its link and the list of payloads start over, and
      the answer follows what is still on the way. */
  function Restart(s: System, sendSeq: Byte, recvSeq: Byte, payload: seq<Byte>, now: nat): System
  {
    var e := HandleBody(s.link, Encode(CMD_RESET, sendSeq, recvSeq, payload), now);
    System(e.link, [], s.channel + e.out, NEW_CLIENT)
  }

  predicate IsReset(body: seq<Byte>)
  {
    Decode(body).Valid? && Decode(body).frame.cmd == CMD_RESET
  }

  /** Until the bridge hears of the Reset it may send and hear anything else at all,
      with any window; what reaches the client must not be taken for its first. */
  predicate GapEnabled(s: System, event: Event)
  {
    match event
    case SendPacket(_) => true
    case SendFlow(_, _) => true
    case Hear(body, _) => !IsReset(body)
    case Deliver => s.channel != [] && !Mistaken(s.channel[0])
    case Lose(i) => i < |s.channel|
    case Corrupt(i, noise) => i < |s.channel| && !Decode(noise).Valid?
  }

  /** Payloads of the old numbering do not belong to the new epoch. */
  function GapApply(s: System, event: Event): System
    requires GapEnabled(s, event)
  {
    match event
    case SendPacket(packet) => Emit(s, SendHabitat(s.link, packet), [])
    case SendFlow(m0, m1) => Emit(s, SendPayload(s.link, [m0, m1]), [])
    case Hear(body, now) => Emit(s, HandleBody(s.link, body, now), [])
    case _ => Apply(s, event)
  }

  /** The client may reset at any time and as often as it likes; a Reset is heard
      by a bridge whose client has taken nothing since and will mistake nothing. */
  predicate EpochEnabled(s: Epochs, e: EpochEvent)
  {
    match e
    case Within(event) => if s.awaiting then GapEnabled(s.system, event) else Enabled(s.system, event)
    case ClientResets => true
    case ResetHeard(_, _, _, _) => s.system.client == NEW_CLIENT && NoneMistaken(s.system.channel)
  }

  function EpochApply(s: Epochs, e: EpochEvent): Epochs
    requires EpochEnabled(s, e)
  {
    match e
    case Within(event) => s.(system := if s.awaiting then GapApply(s.system, event) else Apply(s.system, event))
    case ClientResets => Epochs(s.system.(sent := [], client := NEW_CLIENT), true)
    case ResetHeard(sendSeq, recvSeq, payload, now) =>
      Epochs(Restart(s.system, sendSeq, recvSeq, payload, now), false)
  }

  predicate EpochAdmissible(s: Epochs, events: seq<EpochEvent>)
    decreases events
  {
    events != [] ==> EpochEnabled(s, events[0]) && EpochAdmissible(EpochApply(s, events[0]), events[1..])
  }

  function EpochRun(s: Epochs, events: seq<EpochEvent>): Epochs
    requires EpochAdmissible(s, events)
    decreases events
  {
    if events == [] then s else EpochRun(EpochApply(s, events[0]), events[1..])
  }

  function Since(s: System, past: nat): System
    requires past <= |s.channel|
  {
    s.(channel := s.channel[past..])
  }

  /** The first `past` frames in flight are of earlier epochs: none will be mistaken,
      and until they are through the client has nothing of the new one. */
  predicate Restarted(s: System, past: nat, idx: seq<nat>)
  {
    && past <= |s.channel| && Coherent(Since(s, past), idx)
    && NoneMistaken(s.channel[..past])
    && (past > 0 ==> s.client == NEW_CLIENT)
  }

  lemma RestartedIsSafe(s: System, past: nat, idx: seq<nat>)
    requires Restarted(s, past, idx)
    ensures Safe(s)
  {
    CoherentIsSafe(Since(s, past), idx);
    hide Coherent, Decode;
    assert forall k | 0 < k <= |s.sent| :: Retransmittable(Since(s, past), k) == Retransmittable(s, k);
  }

  /** A client that has just reset ignores exactly the frames it cannot mistake. */
  lemma IgnoresOld(body: seq<Byte>)
    ensures ClientReceive(NEW_CLIENT, body) == NEW_CLIENT <==> !Mistaken(body)
  {
    hide Decode;
  }

  /** Steps that only add to the channel do not care what was there before. */
  lemma EmitSince(s: System, past: nat, event: Event)
    requires past <= |s.channel| && Enabled(s, event) && (event.SendPacket? || event.SendFlow? || event.Hear?)
    ensures Enabled(Since(s, past), event)
    ensures var t := Apply(s, event);
            && |t.channel| >= |s.channel| && t.channel[..past] == s.channel[..past]
            && t.client == s.client && Apply(Since(s, past), event) == t.(channel := t.channel[past..])
  {
    hide Decode, HandleBody, SendPayload, ProcessAck;
  }

  lemma OldStep(s: System, past: nat, event: Event)
    requires 0 < past <= |s.channel| && Enabled(s, event) && NoneMistaken(s.channel[..past]) && s.client == NEW_CLIENT
    requires event == Deliver || (event.Lose? && event.i < past) || (event.Corrupt? && event.i < past)
    ensures var t, left := Apply(s, event), if event.Corrupt? then past else past - 1;
            && left <= |t.channel| && Since(t, left) == Since(s, past)
            && NoneMistaken(t.channel[..left]) && t.client == NEW_CLIENT
  {
    var t, left := Apply(s, event), if event.Corrupt? then past else past - 1;
    if event == Deliver {
      assert !Mistaken(s.channel[..past][0]);
      IgnoresOld(s.channel[0]);
    }
    assert t.channel[left..] == s.channel[past..];
    hide Decode, ClientReceive;
    forall j | 0 <= j < left ensures !Mistaken(t.channel[..left][j]) {
      var o := if event == Deliver || (event.Lose? && event.i <= j) then j + 1 else j;
      assert o < past && !Mistaken(s.channel[..past][o]);
    }
  }

  lemma NewStep(s: System, past: nat, event: Event, event': Event)
    requires past <= |s.channel| && Enabled(s, event)
    requires match event
             case Deliver => past == 0 && event' == Deliver
             case Lose(i) => i >= past && event' == Lose(i - past)
             case Corrupt(i, noise) => i >= past && event' == Corrupt(i - past, noise)
             case _ => false
    ensures Enabled(Since(s, past), event')
    ensures var t := Apply(s, event);
            && past <= |t.channel| && t.channel[..past] == s.channel[..past]
            && Apply(Since(s, past), event') == Since(t, past)
            && (past > 0 ==> t.client == s.client)
  {
    hide Decode, ClientReceive;
    var t := Apply(s, event);
    assert Apply(Since(s, past), event').channel == t.channel[past..];
  }

  lemma WithinKeeps(s: System, past: nat, idx: seq<nat>, event: Event) returns (past': nat, idx': seq<nat>)
    requires Restarted(s, past, idx) && Enabled(s, event)
    ensures Restarted(Apply(s, event), past', idx')
  {
    hide Coherent, Decode, HandleBody, SendPayload, ClientReceive, NoneMistaken, Since, Honest;
    past', idx' := past, idx;
    if event.SendPacket? || event.SendFlow? || event.Hear? {
      EmitSince(s, past, event);
      idx' := StepKeeps(Since(s, past), idx, event);
      SinceIs(Apply(s, event), past);
    } else if past > 0 && (event == Deliver || (event.Lose? && event.i < past) || (event.Corrupt? && event.i < past)) {
      OldStep(s, past, event);
      past' := if event.Corrupt? then past else past - 1;
    } else {
      var event' := match event
        case Lose(i) => Lose(i - past)
        case Corrupt(i, noise) => Corrupt(i - past, noise)
        case _ => Deliver;
      NewStep(s, past, event, event');
      idx' := StepKeeps(Since(s, past), idx, event');
    }
  }

  lemma SinceIs(s: System, past: nat)
    requires past <= |s.channel|
    ensures Since(s, past) == s.(channel := s.channel[past..])
  {
  }

  lemma RestartKeeps(s: System, sendSeq: Byte, recvSeq: Byte, payload: seq<Byte>, now: nat)
    requires NoneMistaken(s.channel)
    ensures Restarted(Restart(s, sendSeq, recvSeq, payload, now), |s.channel|, [0])
  {
    ResetStarts(s.link, sendSeq, recvSeq, payload, now);
    hide Coherent, HandleBody, Encode, Decode, Start;
    var t := Restart(s, sendSeq, recvSeq, payload, now);
    assert t.channel[..|s.channel|] == s.channel;
  }

  /** In the gap the client has nothing; otherwise the bridge has restarted. */
  predicate InEpoch(s: Epochs, past: nat, idx: seq<nat>)
  {
    if s.awaiting then s.system.client == NEW_CLIENT && s.system.sent == [] else Restarted(s.system, past, idx)
  }

  lemma GapKeeps(s: System, event: Event)
    requires GapEnabled(s, event) && s.client == NEW_CLIENT && s.sent == []
    ensures GapApply(s, event).client == NEW_CLIENT && GapApply(s, event).sent == []
  {
    hide Decode, HandleBody, SendPayload, ClientReceive, Mistaken;
    if event == Deliver {
      IgnoresOld(s.channel[0]);
    }
  }

  lemma EpochStep(s: Epochs, past: nat, idx: seq<nat>, e: EpochEvent) returns (past': nat, idx': seq<nat>)
    requires InEpoch(s, past, idx) && EpochEnabled(s, e)
    ensures InEpoch(EpochApply(s, e), past', idx')
  {
    hide Restarted, Enabled, GapEnabled, Apply, GapApply, Restart, NoneMistaken;
    past', idx' := past, idx;
    match e
    case Within(event) =>
      if s.awaiting {
        GapKeeps(s.system, event);
      } else {
        past', idx' := WithinKeeps(s.system, past, idx, event);
      }
    case ClientResets =>
    case ResetHeard(sendSeq, recvSeq, payload, now) =>
      RestartKeeps(s.system, sendSeq, recvSeq, payload, now);
      past', idx' := |s.system.channel|, [0];
  }

  lemma {:induction false} EpochsKeep(s: Epochs, past: nat, idx: seq<nat>, events: seq<EpochEvent>)
    returns (past': nat, idx': seq<nat>)
    requires InEpoch(s, past, idx) && EpochAdmissible(s, events)
    ensures InEpoch(EpochRun(s, events), past', idx')
    decreases events
  {
    hide InEpoch, EpochEnabled, EpochApply;
    if events == [] {
      past', idx' := past, idx;
    } else {
      past', idx' := EpochStep(s, past, idx, events[0]);
      past', idx' := EpochsKeep(EpochApply(s, events[0]), past', idx', events[1..]);
    }
  }

  /** Safety over any number of Resets, heard at once, late, twice or never, with
      frames of earlier epochs lost, corrupted or delivered late, as long as none
      that reaches a client just reset, or is in flight when the Reset is heard,
      carries the first number of the new epoch. */
  lemma EpochSafety(s: System, events: seq<EpochEvent>)
    requires Start(s) && EpochAdmissible(Epochs(s, false), events)
    ensures var t := EpochRun(Epochs(s, false), events);
            Safe(t.system) && (t.awaiting ==> t.system.client == NEW_CLIENT)
  {
    StartCoherent(s);
    assert s.channel[0..] == s.channel && s.channel[..0] == [];
    assert Restarted(s, 0, NoPayloads(|s.channel|));
    hide Restarted, EpochEnabled, EpochApply, Start;
    var past, idx := EpochsKeep(Epochs(s, false), 0, NoPayloads(|s.channel|), events);
    var t := EpochRun(Epochs(s, false), events);
    if !t.awaiting {
      RestartedIsSafe(t.system, past, idx);
    }
  }

  // ------------------------------------------------ and that is the condition

  /** The system after the next n frames were delivered. */
  function Drained(s: System, n: nat): System
    requires n <= |s.channel|
    decreases n
  {
    if n == 0 then s else Drained(Apply(s, Deliver), n - 1)
  }

  lemma {:induction false} DrainedKeeps(s: System, past: nat, idx: seq<nat>, n: nat)
    requires Restarted(s, past, idx) && n <= |s.channel|
    ensures Safe(Drained(s, n))
    decreases n
  {
    if n == 0 {
      RestartedIsSafe(s, past, idx);
    } else {
      var past', idx' := WithinKeeps(s, past, idx, Deliver);
      hide Restarted, Safe;
      DrainedKeeps(Apply(s, Deliver), past', idx', n - 1);
    }
  }

  /** Before the bridge hears the Reset, a delivery is safe exactly when it is not
      the first number, whatever state the link is in. */
  lemma GapExact(s: System)
    requires s.client == NEW_CLIENT && s.sent == [] && s.channel != []
    ensures Safe(Apply(s, Deliver)) <==> GapEnabled(s, Deliver)
  {
    hide Retransmittable;
    IgnoresOld(s.channel[0]);
    var t := Apply(s, Deliver);
    assert t.client != NEW_CLIENT ==> |t.client.accepted| == 1;
  }

  /** The first mistaken frame is accepted although nothing was sent. */
  lemma {:induction false} MistakenIsAccepted(s: System, i: nat)
    requires s.client == NEW_CLIENT && s.sent == [] && i < |s.channel|
    requires NoneMistaken(s.channel[..i]) && Mistaken(s.channel[i])
    ensures !Safe(Drained(s, i + 1))
    decreases i
  {
    hide Decode, Retransmittable;
    var t := Apply(s, Deliver);
    if i > 0 {
      assert !Mistaken(s.channel[..i][0]);
      IgnoresOld(s.channel[0]);
      var before := t.channel[..i - 1];
      forall j | 0 <= j < i - 1 ensures !Mistaken(before[j]) {
        assert !Mistaken(s.channel[..i][j + 1]);
      }
      MistakenIsAccepted(t, i - 1);
    } else {
      assert |t.client.accepted| == 1;
    }
  }

  lemma {:induction false} FirstMistaken(channel: seq<seq<Byte>>) returns (i: nat)
    requires !NoneMistaken(channel)
    ensures i < |channel| && NoneMistaken(channel[..i]) && Mistaken(channel[i])
    decreases |channel|
  {
    var k := |channel| - 1;
    hide Mistaken;
    if NoneMistaken(channel[..k]) {
      i := k;
      assert forall j | 0 <= j < k :: channel[..k][j] == channel[j];
    } else {
      i := FirstMistaken(channel[..k]);
      assert channel[..k][..i] == channel[..i];
    }
  }

  /** Delivering what was in flight at a Reset keeps the new epoch safe exactly when
      none of it carries the first number of the new epoch. */
  lemma ResetExact(s: System, sendSeq: Byte, recvSeq: Byte, payload: seq<Byte>, now: nat)
    ensures var t := Restart(s, sendSeq, recvSeq, payload, now);
            |t.channel| >= |s.channel|
            && ((forall n | 0 <= n <= |s.channel| :: Safe(Drained(t, n))) <==> NoneMistaken(s.channel))
  {
    var t := Restart(s, sendSeq, recvSeq, payload, now);
    if NoneMistaken(s.channel) {
      RestartKeeps(s, sendSeq, recvSeq, payload, now);
      hide Restarted, Restart, NoneMistaken, Drained, Safe;
      forall n | 0 <= n <= |s.channel| ensures Safe(Drained(t, n)) {
        DrainedKeeps(t, |s.channel|, [0], n);
      }
    } else {
      hide HandleBody, Encode, Drained, Safe, Mistaken;
      var i := FirstMistaken(s.channel);
      assert t.channel[..i] == s.channel[..i];
      MistakenIsAccepted(t, i);
    }
  }

  // ------------------------------------------------ a Reset heard once more

  /** The bridge hears a Reset of which the client no longer thinks, such as a late
      duplicate: the client keeps its position and what it waits for. */
  function Repeated(s: System, sendSeq: Byte, recvSeq: Byte, payload: seq<Byte>, now: nat): System
  {
    Emit(s, HandleBody(s.link, Encode(CMD_RESET, sendSeq, recvSeq, payload), now), [])
  }

  /** A repeated Reset loses nothing exactly when the client has accepted everything;
      and the next payload gets through only if a whole number of spans was sent. */
  lemma RepeatedResetExact(s: System, idx: seq<nat>, sendSeq: Byte, recvSeq: Byte, payload: seq<Byte>, now: nat,
                           next: seq<Byte>)
    requires Coherent(s, idx)
    ensures var t := Repeated(s, sendSeq, recvSeq, payload, now);
            && (Safe(t) <==> s.client.accepted == s.sent)
            && (Safe(Emit(t, SendPayload(t.link, next), [next])) <==>
                  s.client.accepted == s.sent && |s.sent| % SEQ_SPAN == 0)
  {
    var t := Repeated(s, sendSeq, recvSeq, payload, now);
    ResetStarts(s.link, sendSeq, recvSeq, payload, now);
    CoherentIsSafe(s, idx);
    hide Coherent, HandleBody, Encode, Retransmittable;
    assert t.sent == s.sent && t.client == s.client && t.link.window == [] && t.link.outSeq == SEQ_LOW;
    AcceptedAll(s.client, s.sent);
    EmptyWindow(t);
    OneFrame(t, next);
  }

  lemma AcceptedAll(client: Client, sent: seq<seq<Byte>>)
    requires client.accepted <= sent
    ensures client.accepted == sent <==> |client.accepted| == |sent|
  {
  }

  lemma EmptyWindow(t: System)
    requires t.link.window == [] && t.client.accepted <= t.sent
    ensures Safe(t) <==> |t.client.accepted| == |t.sent|
  {
    if |t.client.accepted| < |t.sent| {
      assert !Retransmittable(t, |t.sent|);
    }
  }

  lemma OneFrame(t: System, next: seq<Byte>)
    requires t.link.window == [] && t.link.outSeq == SEQ_LOW && t.client.accepted <= t.sent
    ensures Safe(Emit(t, SendPayload(t.link, next), [next])) <==>
              |t.client.accepted| == |t.sent| && |t.sent| % SEQ_SPAN == 0
  {
    FirstFrame(t, next);
    hide SeqAt, SendPayload, IsAction, Encode, Decode, Safe;
    var u := Emit(t, SendPayload(t.link, next), [next]);
    assert u.sent[|t.sent|] == next && t.sent <= u.sent;
    SafeWithOne(u, |t.sent|, u.link.window[0]);
  }

  lemma SafeWithOne(u: System, n: nat, f: SentFrame)
    requires u.link.window == [f] && |u.sent| == n + 1 && u.client.accepted <= u.sent && |u.client.accepted| <= n
    requires f.seqNo == SeqAt(1) && IsAction(f.frame)
    requires Decode(f.frame).frame.sendSeq == SeqAt(1) && Decode(f.frame).frame.payload == u.sent[n]
    ensures Safe(u) <==> |u.client.accepted| == n && n % SEQ_SPAN == 0
  {
    FirstNumber(n);
    hide SeqAt, Decode, IsAction;
    OnlyFrame(u, n + 1, f);
    if |u.client.accepted| < n {
      OnlyFrame(u, n, f);
      hide Retransmittable;
      assert Safe(u) ==> Retransmittable(u, n) && Retransmittable(u, n + 1);
    } else {
      hide Retransmittable;
      assert Safe(u) <==> Retransmittable(u, n + 1);
    }
  }

  lemma FirstNumber(n: nat)
    ensures SeqAt(n + 1) == SeqAt(1) <==> n % SEQ_SPAN == 0
    ensures n % SEQ_SPAN == 0 ==> SeqAt(n) != SeqAt(1)
  {
  }

  lemma FirstFrame(t: System, next: seq<Byte>)
    requires t.link.window == [] && t.link.outSeq == SEQ_LOW
    ensures var w := SendPayload(t.link, next).link.window;
            && |w| == 1 && w[0].seqNo == SeqAt(1) && IsAction(w[0].frame)
            && Decode(w[0].frame).frame.sendSeq == SeqAt(1) && Decode(w[0].frame).frame.payload == next
  {
    DecodeEncode(CMD_ACTION, SeqAt(1), t.link.inSeq, next);
    hide Encode, Decode;
  }

  lemma OnlyFrame(s: System, k: nat, f: SentFrame)
    requires s.link.window == [f] && 0 < k <= |s.sent|
    ensures Retransmittable(s, k) <==>
              f.seqNo == SeqAt(k) && IsAction(f.frame) && Decode(f.frame).frame.sendSeq == SeqAt(k)
              && Decode(f.frame).frame.payload == s.sent[k - 1]
  {
    hide Decode, SeqAt;
    assert f in s.link.window;
  }
}
