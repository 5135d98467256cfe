/** The retransmission protocol as a whole: the bridge's link, a client that
    accepts only the next sequence number, and a channel that loses and corrupts
    frames. Unbounded counters index the payloads sent since the last Reset; the
    wire only ever carries them modulo the 112 sequence numbers. */
module QLinkArq {
  import opened Bits
  import opened QLinkCodec
  import opened HabitatEscape
  import opened QLinkSession

  // ---------------------------------------------- wrapped and unbounded

  /** The sequence number of the k-th payload; 0 stands for the Reset itself. */
  function SeqAt(k: nat): Byte
  {
    SEQ_LOW + k % SEQ_SPAN
  }

  lemma IncSeqAt(k: nat)
    ensures IncSeq(SeqAt(k)) == SeqAt(k + 1)
  {
  }

  lemma ForwardAt(j: nat, k: nat)
    ensures SeqForward(SeqAt(j), SeqAt(k)) == (k - j) % SEQ_SPAN
  {
  }

  /** Within one span of each other, indices are told apart by their numbers. */
  lemma SeqAtInjective(j: nat, k: nat)
    requires SeqAt(j) == SeqAt(k) && j - SEQ_SPAN < k < j + SEQ_SPAN
    ensures j == k
  {
  }

  // --------------------------------------------------- the bridge's side

  /** A frame carrying the k-th payload, with some piggybacked acknowledgement. */
  predicate Carries(frame: seq<Byte>, k: nat, payload: seq<Byte>)
  {
    |frame| >= HEADER_LEN && frame == Encode(CMD_ACTION, SeqAt(k), frame[6], payload)
  }

  /** The window holds exactly the payloads after the acknowledged-th, in order,
      and the sequence numbers agree with the unbounded counters. */
  predicate InStep(link: Link, sent: seq<seq<Byte>>, acked: nat)
  {
    && |sent| == acked + |link.window|
    && |link.window| <= MAX_WINDOW
    && link.outSeq == SeqAt(|sent|)
    && link.lastRecv == SeqAt(acked)
    && forall i | 0 <= i < |link.window| :: Holds(link.window[i], acked + i + 1, sent[acked + i])
  }

  predicate Holds(f: SentFrame, k: nat, payload: seq<Byte>)
  {
    f.seqNo == SeqAt(k) && Carries(f.frame, k, payload)
  }

  lemma EncodedCarries(k: nat, recvSeq: Byte, payload: seq<Byte>)
    ensures Carries(Encode(CMD_ACTION, SeqAt(k), recvSeq, payload), k, payload)
  {
  }

  /** Sending keeps the window in step exactly while it has room. */
  lemma SendKeepsStep(link: Link, sent: seq<seq<Byte>>, acked: nat, payload: seq<Byte>)
    requires InStep(link, sent, acked)
    ensures InStep(SendPayload(link, payload).link, sent + [payload], acked) <==> |link.window| < MAX_WINDOW
    ensures |SendPayload(link, payload).out| == 1
    ensures Carries(SendPayload(link, payload).out[0], |sent| + 1, payload)
  {
    hide Encode, SeqAt, IncSeq, Carries;
    var k := |sent| + 1;
    IncSeqAt(|sent|);
    EncodedCarries(k, link.inSeq, payload);
    var w := SendPayload(link, payload).link.window;
    if |link.window| < MAX_WINDOW {
      forall i | 0 <= i < |w| ensures Holds(w[i], acked + i + 1, (sent + [payload])[acked + i]) {
        if i < |link.window| {
          assert Holds(link.window[i], acked + i + 1, sent[acked + i]);
        }
      }
    }
  }

  /** With a full window, the next send drops the oldest unacknowledged frame. */
  lemma FullWindowForgets(link: Link, sent: seq<seq<Byte>>, acked: nat, payload: seq<Byte>)
    requires InStep(link, sent, acked) && |link.window| == MAX_WINDOW
    ensures var w := SendPayload(link, payload).link.window;
            && |w| == MAX_WINDOW && w[..MAX_WINDOW - 1] == link.window[1..]
            && forall f | f in w :: f.seqNo != SeqAt(acked + 1)
  {
    hide Encode, IncSeq, Carries;
    IncSeqAt(|sent|);
    var w := SendPayload(link, payload).link.window;
    forall i | 0 <= i < |w| ensures w[i].seqNo != SeqAt(acked + 1) {
      if i < MAX_WINDOW - 1 {
        assert w[i] == link.window[i + 1];
        assert Holds(link.window[i + 1], acked + (i + 1) + 1, sent[acked + (i + 1)]);
      }
      assert w[i].seqNo == SeqAt(acked + i + 2);
      if w[i].seqNo == SeqAt(acked + 1) {
        SeqAtInjective(acked + i + 2, acked + 1);
      }
    }
  }

  predicate Numbered(window: seq<SentFrame>, acked: nat)
  {
    forall i | 0 <= i < |window| :: window[i].seqNo == SeqAt(acked + i + 1)
  }

  lemma InStepNumbered(link: Link, sent: seq<seq<Byte>>, acked: nat)
    requires InStep(link, sent, acked)
    ensures Numbered(link.window, acked)
  {
    forall i | 0 <= i < |link.window| ensures link.window[i].seqNo == SeqAt(acked + i + 1) {
      assert Holds(link.window[i], acked + i + 1, sent[acked + i]);
    }
  }

  function Min(a: nat, b: nat): nat
  {
    if a <= b then a else b
  }

  /** The freeing loop stops exactly behind the acknowledged frame. */
  lemma {:induction false} FreeExactly(window: seq<SentFrame>, acked: nat, a: nat)
    requires Numbered(window, acked) && acked <= a <= acked + SEQ_SPAN / 2 + 1
    ensures FreeAcked(window, SeqAt(a)) == window[Min(a - acked, |window|)..]
    decreases window
  {
    hide SeqAt, SeqForward;
    if window != [] {
      ForwardAt(acked + 1, a);
      if a > acked {
        forall i | 0 <= i < |window| - 1 ensures window[1..][i].seqNo == SeqAt(acked + 1 + i + 1) {
          assert window[1..][i] == window[i + 1];
        }
        FreeExactly(window[1..], acked + 1, a);
        assert window[1..][Min(a - acked - 1, |window| - 1)..] == window[Min(a - acked, |window|)..];
      }
    }
  }

  predicate CarriesAck(frame: QLinkFrame)
  {
    frame.cmd != CMD_RESET && frame.cmd != CMD_SEQ_ERROR && frame.cmd != HABITAT_NAK
  }

  /** The index the bridge believes acknowledged after hearing an ack for a. */
  function Advance(acked: nat, a: nat): nat
  {
    if acked <= a <= acked + SEQ_SPAN / 2 then a else acked
  }

  /** A cumulative acknowledgement of index a, at most 55 behind what is already
      acknowledged and not beyond what was sent, frees exactly the frames up to a
      when it advances by at most half the span, and otherwise nothing. */
  lemma AckExact(link: Link, sent: seq<seq<Byte>>, acked: nat, frame: QLinkFrame, a: nat, now: nat)
    requires InStep(link, sent, acked) && CarriesAck(frame)
    requires frame.recvSeq == SeqAt(a) && acked - 55 <= a <= |sent|
    ensures var after := ProcessAck(link, frame, now).link;
            && after.window == link.window[Advance(acked, a) - acked..]
            && InStep(after, sent, Advance(acked, a))
            && (Advance(acked, a) != a ==> after == link && ProcessAck(link, frame, now).out == [])
  {
    hide Encode, Refresh, SeqAt, SeqForward, FreeAcked, Holds;
    ForwardAt(acked, a);
    WrappedDistance(acked, a);
    if acked <= a <= acked + SEQ_SPAN / 2 {
      InStepNumbered(link, sent, acked);
      FreeExactly(link.window, acked, a);
      SuffixHolds(link, sent, acked, a);
    }
  }

  lemma SuffixHolds(link: Link, sent: seq<seq<Byte>>, acked: nat, a: nat)
    requires InStep(link, sent, acked) && acked <= a <= |sent|
    ensures InStep(link.(window := link.window[a - acked..], lastRecv := SeqAt(a)), sent, a)
  {
    hide Holds, SeqAt;
    var w := link.window[a - acked..];
    forall i | 0 <= i < |w| ensures Holds(w[i], a + i + 1, sent[a + i]) {
      var j := a - acked + i;
      assert Holds(link.window[j], acked + j + 1, sent[acked + j]);
    }
  }

  lemma WrappedDistance(j: nat, k: nat)
    requires j - 55 <= k <= j + MAX_WINDOW
    ensures (k - j) % SEQ_SPAN <= SEQ_SPAN / 2 <==> j <= k <= j + SEQ_SPAN / 2
  {
    if k < j {
      assert (k - j) % SEQ_SPAN == k - j + SEQ_SPAN;
    }
  }

  /** An acknowledgement that lags by d frees nothing exactly when d is at most
      55; from 56 on it reads as a wrapped one and frees frames that the client
      may never have received. */
  lemma StaleAckExact(link: Link, sent: seq<seq<Byte>>, acked: nat, frame: QLinkFrame, d: nat, now: nat)
    requires InStep(link, sent, acked) && CarriesAck(frame)
    requires 1 <= d < SEQ_SPAN && d <= acked && frame.recvSeq == SeqAt(acked - d)
    ensures ProcessAck(link, frame, now).link.window == link.window <==> d <= 55 || link.window == []
    ensures d > 55 ==> ProcessAck(link, frame, now).link.window == link.window[Min(SEQ_SPAN - d, |link.window|)..]
  {
    hide Encode, Refresh, SeqAt, SeqForward, Holds, FreeAcked;
    ForwardAt(acked, acked - d);
    StaleReadsAs(acked, d);
    if d > 55 {
      InStepNumbered(link, sent, acked);
      FreeExactly(link.window, acked, acked + SEQ_SPAN - d);
      AckFrees(link, frame, now);
      hide ProcessAck, InStep;
      ShorterSuffix(link.window, Min(SEQ_SPAN - d, |link.window|));
    }
  }

  /** A report within half the span ahead frees what it covers. */
  lemma AckFrees(link: Link, frame: QLinkFrame, now: nat)
    requires CarriesAck(frame) && SeqForward(link.lastRecv, frame.recvSeq) <= SEQ_SPAN / 2
    ensures ProcessAck(link, frame, now).link.window == FreeAcked(link.window, frame.recvSeq)
  {
    hide Refresh, SeqForward, FreeAcked;
  }

  lemma ShorterSuffix(window: seq<SentFrame>, n: nat)
    requires n <= |window|
    ensures window[n..] == window <==> n == 0
  {
  }

  lemma StaleReadsAs(acked: nat, d: nat)
    requires 1 <= d < SEQ_SPAN && d <= acked
    ensures SeqAt(acked - d) == SeqAt(acked + SEQ_SPAN - d)
    ensures (acked - d - acked) % SEQ_SPAN == SEQ_SPAN - d
  {
  }

  // ------------------------------------------------------- the whole system

  /** The client accepts Action frames in sequence and ignores all others. */
  datatype Client = Client(next: Byte, accepted: seq<seq<Byte>>)

  /** The client that has just sent a Reset. */
  const NEW_CLIENT := Client(IncSeq(SEQ_LOW), [])

  predicate IsAction(body: seq<Byte>)
  {
    Decode(body).Valid? && Decode(body).frame.cmd == CMD_ACTION
  }

  function ClientReceive(client: Client, body: seq<Byte>): Client
  {
    if IsAction(body) && Decode(body).frame.sendSeq == client.next then
      Client(IncSeq(client.next), client.accepted + [Decode(body).frame.payload])
    else
      client
  }

  /** `sent` lists the payloads handed to the link since the Reset; `channel` the
      frame bodies on their way to the client, oldest first. */
  datatype System = System(link: Link, sent: seq<seq<Byte>>, channel: seq<seq<Byte>>, client: Client)

  datatype Event =
    | SendPacket(packet: seq<Byte>)
    | SendFlow(m0: Byte, m1: Byte)
    | Hear(body: seq<Byte>, now: nat)
    | Deliver
    | Lose(i: nat)
    | Corrupt(i: nat, noise: seq<Byte>)

  /** The received body asks for the synchronisation reply, itself an Action. */
  predicate AsksForSync(body: seq<Byte>)
  {
    IsAction(body) && !Decode(body).frame.IsHabitatAction() && SYNC_MNEMONIC <= Decode(body).frame.payload
  }

  function Emit(s: System, e: Effect, payloads: seq<seq<Byte>>): System
  {
    s.(link := e.link, sent := s.sent + payloads, channel := s.channel + e.out)
  }

  function Apply(s: System, event: Event): System
    requires Enabled(s, event)
  {
    match event
    case SendPacket(packet) => Emit(s, SendHabitat(s.link, packet), [EscapeSeq(packet)])
    case SendFlow(m0, m1) => Emit(s, SendPayload(s.link, [m0, m1]), [[m0, m1]])
    case Hear(body, now) =>
      Emit(s, HandleBody(s.link, body, now), if AsksForSync(body) then [SYNC_MNEMONIC] else [])
    case Deliver => s.(client := ClientReceive(s.client, s.channel[0]), channel := s.channel[1..])
    case Lose(i) => s.(channel := s.channel[..i] + s.channel[i + 1..])
    case Corrupt(i, noise) => s.(channel := s.channel[i := noise])
  }

  function Acked(s: System): int
  {
    |s.sent| - |s.link.window|
  }

  /** What the bridge may hear from an honest client over a noisy line: anything
      that does not decode, rejections with any RecvSeq at all, and otherwise
      frames that acknowledge a payload the client has accepted, at most 55
      behind the last acknowledgement heard. */
  predicate Honest(s: System, body: seq<Byte>)
  {
    Decode(body).Valid? ==>
      var f := Decode(body).frame;
      && f.cmd != CMD_RESET
      && (CarriesAck(f) ==> TruthfulAck(s, f.recvSeq))
  }

  predicate TruthfulAck(s: System, recvSeq: Byte)
  {
    exists a: nat | a <= |s.client.accepted| :: Acked(s) - 55 <= a && recvSeq == SeqAt(a)
  }

  /** Corrupted bodies are those the decoder rejects; the bound of 64 outstanding
      frames is the size of the window. */
  predicate Enabled(s: System, event: Event)
  {
    match event
    case SendPacket(_) => |s.link.window| < MAX_WINDOW
    case SendFlow(_, _) => |s.link.window| < MAX_WINDOW
    case Hear(body, now) =>
      && Honest(s, body)
      && (AsksForSync(body) ==>
            |ProcessAck(s.link.(nakSent := false), Decode(body).frame, now).link.window| < MAX_WINDOW)
    case Deliver => s.channel != []
    case Lose(i) => i < |s.channel|
    case Corrupt(i, noise) => i < |s.channel| && !Decode(noise).Valid?
  }

  /** The state after the client's Reset: nothing sent yet, and no payload on its
      way. */
  predicate Start(s: System)
  {
    && s.link.window == [] && s.link.lastRecv == SEQ_LOW && s.link.outSeq == SEQ_LOW
    && s.sent == [] && s.client == NEW_CLIENT
    && forall i | 0 <= i < |s.channel| :: !IsAction(s.channel[i])
  }

  predicate Admissible(s: System, events: seq<Event>)
    decreases events
  {
    events != [] ==> Enabled(s, events[0]) && Admissible(Apply(s, events[0]), events[1..])
  }

  function Run(s: System, events: seq<Event>): System
    requires Admissible(s, events)
    decreases events
  {
    if events == [] then s else Run(Apply(s, events[0]), events[1..])
  }

  // -------------------------------------------------------------- invariant

  /** Which payload a frame on the channel carries; 0 for frames without one. */
  predicate Tagged(body: seq<Byte>, k: nat, sent: seq<seq<Byte>>)
  {
    if k == 0 then !IsAction(body) else k <= |sent| && Carries(body, k, sent[k - 1])
  }

  /** The frames in flight, with the indices they carry: none lags the client, or
      an older frame ahead of it, by a window or more. */
  predicate InFlight(channel: seq<seq<Byte>>, idx: seq<nat>, sent: seq<seq<Byte>>, accepted: nat)
  {
    && |idx| == |channel|
    && (forall i | 0 <= i < |idx| :: Tagged(channel[i], idx[i], sent))
    && (forall i | 0 <= i < |idx| :: Recent(accepted, idx[i]))
    && (forall i, j | 0 <= i < j < |idx| :: Recent(idx[i], idx[j]))
  }

  predicate Recent(seen: nat, k: nat)
  {
    k == 0 || k + MAX_WINDOW > seen
  }

  predicate ClientFollows(client: Client, sent: seq<seq<Byte>>)
  {
    client.accepted <= sent && client.next == SeqAt(|client.accepted| + 1)
  }

  predicate Coherent(s: System, idx: seq<nat>)
  {
    && 0 <= Acked(s) <= |s.client.accepted|
    && InStep(s.link, s.sent, Acked(s))
    && ClientFollows(s.client, s.sent)
    && InFlight(s.channel, idx, s.sent, |s.client.accepted|)
  }

  function NoPayloads(n: nat): (idx: seq<nat>)
    ensures |idx| == n && forall i | 0 <= i < n :: idx[i] == 0
  {
    seq(n, i => 0)
  }

  lemma StartCoherent(s: System)
    requires Start(s)
    ensures Coherent(s, NoPayloads(|s.channel|))
  {
    hide IsAction;
    IncSeqAt(0);
  }

  lemma CarriesDecodes(body: seq<Byte>, k: nat, payload: seq<Byte>)
    requires Carries(body, k, payload)
    ensures Decode(body) == Valid(QLinkFrame(CMD_ACTION, SeqAt(k), body[6], payload))
  {
    DecodeEncode(CMD_ACTION, SeqAt(k), body[6], payload);
  }

  lemma {:induction false} TaggedLonger(channel: seq<seq<Byte>>, idx: seq<nat>,
                                        sent: seq<seq<Byte>>, more: seq<seq<Byte>>, accepted: nat)
    requires InFlight(channel, idx, sent, accepted)
    ensures InFlight(channel, idx, sent + more, accepted)
  {
    hide Carries, IsAction;
    forall i | 0 <= i < |idx| ensures Tagged(channel[i], idx[i], sent + more) {
      assert Tagged(channel[i], idx[i], sent);
    }
  }

  /** A frame for payload k may join the channel when the window reaches back no
      further than k and no further than the newest payload allows. */
  lemma Joins(channel: seq<seq<Byte>>, idx: seq<nat>, sent: seq<seq<Byte>>, accepted: nat, body: seq<Byte>, k: nat)
    requires InFlight(channel, idx, sent, accepted) && Tagged(body, k, sent)
    requires k != 0 ==> |sent| < k + MAX_WINDOW
    requires accepted <= |sent|
    ensures InFlight(channel + [body], idx + [k], sent, accepted)
  {
    hide Carries, IsAction;
    var c, x := channel + [body], idx + [k];
    forall i | 0 <= i < |x| ensures Tagged(c[i], x[i], sent) && Recent(accepted, x[i]) {
      if i < |idx| {
        assert Tagged(channel[i], idx[i], sent) && Recent(accepted, idx[i]);
      }
    }
    forall i, j | 0 <= i < j < |x| ensures Recent(x[i], x[j]) {
      assert Tagged(channel[i], idx[i], sent);
      if j < |idx| {
        assert Recent(idx[i], idx[j]);
      }
    }
  }

  lemma SendKeeps(s: System, idx: seq<nat>, payload: seq<Byte>)
    requires Coherent(s, idx) && |s.link.window| < MAX_WINDOW
    ensures Coherent(Emit(s, SendPayload(s.link, payload), [payload]), idx + [|s.sent| + 1])
  {
    hide Carries, IsAction, Encode, SeqAt, Holds, InFlight;
    var e := SendPayload(s.link, payload);
    SendKeepsStep(s.link, s.sent, Acked(s), payload);
    var sent := s.sent + [payload];
    TaggedLonger(s.channel, idx, s.sent, [payload], |s.client.accepted|);
    Joins(s.channel, idx, sent, |s.client.accepted|, e.out[0], |sent|);
    assert e.out == [e.out[0]];
  }

  lemma ControlIsNoAction(cmd: Byte, sendSeq: Byte, recvSeq: Byte, sent: seq<seq<Byte>>)
    requires cmd != CMD_ACTION
    ensures Tagged(Encode(cmd, sendSeq, recvSeq, []), 0, sent)
  {
    DecodeEncode(cmd, sendSeq, recvSeq, []);
  }

  lemma PrefixIsShorter(client: Client, sent: seq<seq<Byte>>)
    requires ClientFollows(client, sent)
    ensures |client.accepted| <= |sent|
  {
  }

  lemma ControlKeeps(s: System, idx: seq<nat>, cmd: Byte)
    requires Coherent(s, idx) && cmd != CMD_ACTION
    ensures Coherent(Emit(s, SendControl(s.link, cmd), []), idx + [0])
  {
    var body := SendControl(s.link, cmd).out[0];
    hide Encode, Tagged, InStep, InFlight, ClientFollows;
    ControlIsNoAction(cmd, s.link.outSeq, s.link.inSeq, s.sent);
    assert |s.client.accepted| <= |s.sent| by { PrefixIsShorter(s.client, s.sent); }
    Joins(s.channel, idx, s.sent, |s.client.accepted|, body, 0);
    assert s.sent + [] == s.sent;
  }

  lemma ResendKeeps(s: System, idx: seq<nat>, now: nat) returns (idx': seq<nat>)
    requires Coherent(s, idx)
    ensures Coherent(Emit(s, ResendOldest(s.link, now), []), idx')
  {
    hide Carries, IsAction, Encode, Refresh, SeqAt, Holds, InFlight;
    assert s.sent + [] == s.sent;
    if s.link.window == [] {
      idx' := idx;
      assert s.channel + [] == s.channel;
    } else {
      var k := Acked(s) + 1;
      var body := Refresh(s.link.window[0].frame, s.link.inSeq);
      RefreshedHead(s.link, s.sent, Acked(s));
      Joins(s.channel, idx, s.sent, |s.client.accepted|, body, k);
      idx' := idx + [k];
    }
  }

  /** What is retransmitted is the first unacknowledged payload, encoded afresh. */
  lemma RefreshedHead(link: Link, sent: seq<seq<Byte>>, acked: nat)
    requires InStep(link, sent, acked) && link.window != []
    ensures Refresh(link.window[0].frame, link.inSeq) == Encode(CMD_ACTION, SeqAt(acked + 1), link.inSeq, sent[acked])
    ensures Carries(Refresh(link.window[0].frame, link.inSeq), acked + 1, sent[acked])
  {
    var f := link.window[0];
    assert Holds(f, acked + 1, sent[acked]);
    RefreshIsReencode(CMD_ACTION, SeqAt(acked + 1), f.frame[6], sent[acked], link.inSeq);
  }

  lemma AckKeeps(s: System, idx: seq<nat>, f: QLinkFrame, now: nat) returns (idx': seq<nat>)
    requires Coherent(s, idx) && f.cmd != CMD_RESET
    requires CarriesAck(f) ==> TruthfulAck(s, f.recvSeq)
    ensures Coherent(Emit(s, ProcessAck(s.link, f, now), []), idx')
  {
    hide IsAction, Encode, Refresh, SeqForward, FreeAcked;
    if CarriesAck(f) {
      var a: nat :| a <= |s.client.accepted| && Acked(s) - 55 <= a && f.recvSeq == SeqAt(a);
      AckExact(s.link, s.sent, Acked(s), f, a, now);
      idx' := AckAndResend(s, idx, f, now, Advance(Acked(s), a));
    } else {
      idx' := ResendKeeps(s, idx, now);
    }
  }

  lemma AckAndResend(s: System, idx: seq<nat>, f: QLinkFrame, now: nat, acked: nat) returns (idx': seq<nat>)
    requires Coherent(s, idx) && CarriesAck(f) && acked <= |s.client.accepted|
    requires InStep(ProcessAck(s.link, f, now).link, s.sent, acked)
    ensures Coherent(Emit(s, ProcessAck(s.link, f, now), []), idx')
  {
    hide IsAction, Encode, Refresh, SeqForward, FreeAcked, Carries, SeqAt;
    var e := ProcessAck(s.link, f, now);
    assert s.sent + [] == s.sent;
    if e.out == [] {
      idx' := idx;
      assert s.channel + [] == s.channel;
    } else {
      var heard := s.link.(window := e.link.window, lastRecv := e.link.lastRecv);
      assert e == ResendOldest(heard, now);
      var t := s.(link := heard);
      idx' := ResendKeeps(t, idx, now);
    }
  }

  lemma DispatchKeeps(s: System, idx: seq<nat>, body: seq<Byte>) returns (idx': seq<nat>)
    requires Coherent(s, idx) && Decode(body).Valid? && Decode(body).frame.cmd != CMD_RESET
    requires AsksForSync(body) ==> |s.link.window| < MAX_WINDOW
    ensures var e := Dispatch(s.link, Decode(body).frame, body);
            Coherent(Emit(s, e, if AsksForSync(body) then [SYNC_MNEMONIC] else []), idx')
  {
    hide Encode, Decode, Carries, SeqAt;
    var f := Decode(body).frame;
    assert s.sent + [] == s.sent && s.channel + [] == s.channel;
    if f.cmd == CMD_PING {
      ControlKeeps(s, idx, CMD_ACK);
      idx' := idx + [0];
    } else if f.cmd == CMD_ACTION {
      var t := s.(link := s.link.(inSeq := f.sendSeq));
      assert Coherent(t, idx);
      if AsksForSync(body) {
        SendKeeps(t, idx, SYNC_MNEMONIC);
        idx' := idx + [|s.sent| + 1];
      } else {
        idx' := idx;
      }
    } else {
      idx' := idx;
    }
  }

  lemma HearKeeps(s: System, idx: seq<nat>, body: seq<Byte>, now: nat) returns (idx': seq<nat>)
    requires Coherent(s, idx) && Enabled(s, Hear(body, now))
    ensures Coherent(Apply(s, Hear(body, now)), idx')
  {
    hide Encode, Decode, Carries, SeqAt, ProcessAck, Dispatch;
    assert s.sent + [] == s.sent && s.channel + [] == s.channel;
    match Decode(body)
    case Malformed => idx' := idx;
    case BadCrc(_, _, _) =>
      if s.link.nakSent {
        idx' := idx;
      } else {
        var t := s.(link := s.link.(nakSent := true));
        assert Coherent(t, idx);
        ControlKeeps(t, idx, HABITAT_NAK);
        idx' := idx + [0];
      }
    case Valid(f) =>
      var t := s.(link := s.link.(nakSent := false));
      assert Coherent(t, idx);
      assert CarriesAck(f) ==> TruthfulAck(t, f.recvSeq);
      var first := ProcessAck(t.link, f, now);
      var u := Emit(t, first, []);
      idx' := AckKeeps(t, idx, f, now);
      var second := Dispatch(u.link, f, body);
      idx' := DispatchKeeps(u, idx', body);
      assert s.channel + (first.out + second.out) == s.channel + first.out + second.out;
  }

  /** The client takes the head of the channel exactly when it carries the next
      payload: within a window of its own position no number is ambiguous. */
  lemma ClientTakesNext(client: Client, sent: seq<seq<Byte>>, body: seq<Byte>, k: nat)
    requires ClientFollows(client, sent) && Tagged(body, k, sent)
    requires Recent(|client.accepted|, k) && |sent| <= |client.accepted| + MAX_WINDOW
    ensures ClientReceive(client, body)
         == if k == |client.accepted| + 1 then Client(SeqAt(k + 1), sent[..k]) else client
  {
    var accepted := |client.accepted|;
    if k != 0 {
      CarriesDecodes(body, k, sent[k - 1]);
      hide Encode, Decode, Carries;
      if SeqAt(k) == SeqAt(accepted + 1) {
        SeqAtInjective(k, accepted + 1);
        IncSeqAt(k);
        assert client.accepted + [sent[accepted]] == sent[..k];
      }
    }
  }

  lemma DeliverKeeps(s: System, idx: seq<nat>)
    requires Coherent(s, idx) && s.channel != []
    ensures Coherent(Apply(s, Deliver), idx[1..])
  {
    hide Encode, Decode, Carries, IsAction, SeqAt, Holds;
    var k, accepted := idx[0], |s.client.accepted|;
    var t := Apply(s, Deliver);
    assert Tagged(s.channel[0], k, s.sent) && Recent(accepted, k);
    ClientTakesNext(s.client, s.sent, s.channel[0], k);
    var x := idx[1..];
    forall i | 0 <= i < |x|
      ensures Tagged(t.channel[i], x[i], s.sent) && Recent(accepted, x[i]) && Recent(k, x[i])
    {
      assert Tagged(s.channel[i + 1], idx[i + 1], s.sent) && Recent(accepted, idx[i + 1]) && Recent(idx[0], idx[i + 1]);
    }
    forall i, j | 0 <= i < j < |x| ensures Recent(x[i], x[j]) {
      assert Recent(idx[i + 1], idx[j + 1]);
    }
  }

  lemma LoseKeeps(s: System, idx: seq<nat>, i: nat)
    requires Coherent(s, idx) && i < |s.channel|
    ensures Coherent(Apply(s, Lose(i)), idx[..i] + idx[i + 1..])
  {
    hide Encode, Decode, Carries, InStep, IsAction, ClientFollows;
    var c, x := s.channel[..i] + s.channel[i + 1..], idx[..i] + idx[i + 1..];
    forall j | 0 <= j < |x| ensures Tagged(c[j], x[j], s.sent) && Recent(|s.client.accepted|, x[j]) {
      var o := if j < i then j else j + 1;
      assert Tagged(s.channel[o], idx[o], s.sent) && Recent(|s.client.accepted|, idx[o]);
    }
    forall j, k | 0 <= j < k < |x| ensures Recent(x[j], x[k]) {
      assert Recent(idx[if j < i then j else j + 1], idx[if k < i then k else k + 1]);
    }
  }

  lemma CorruptKeeps(s: System, idx: seq<nat>, i: nat, noise: seq<Byte>)
    requires Coherent(s, idx) && Enabled(s, Corrupt(i, noise))
    ensures Coherent(Apply(s, Corrupt(i, noise)), idx[i := 0])
  {
    hide Encode, Decode, Carries, InStep, ClientFollows;
    var c, x := s.channel[i := noise], idx[i := 0];
    forall j | 0 <= j < |x| ensures Tagged(c[j], x[j], s.sent) && Recent(|s.client.accepted|, x[j]) {
      assert Tagged(s.channel[j], idx[j], s.sent) && Recent(|s.client.accepted|, idx[j]);
    }
    forall j, k | 0 <= j < k < |x| ensures Recent(x[j], x[k]) {
      assert Recent(idx[j], idx[k]);
    }
  }

  lemma StepKeeps(s: System, idx: seq<nat>, event: Event) returns (idx': seq<nat>)
    requires Coherent(s, idx) && Enabled(s, event)
    ensures Coherent(Apply(s, event), idx')
  {
    assert |idx| == |s.channel|;
    hide Coherent, SendPayload, HandleBody;
    match event
    case SendPacket(packet) => SendKeeps(s, idx, EscapeSeq(packet)); idx' := idx + [|s.sent| + 1];
    case SendFlow(m0, m1) => SendKeeps(s, idx, [m0, m1]); idx' := idx + [|s.sent| + 1];
    case Hear(body, now) => idx' := HearKeeps(s, idx, body, now);
    case Deliver => DeliverKeeps(s, idx); idx' := idx[1..];
    case Lose(i) => LoseKeeps(s, idx, i); idx' := idx[..i] + idx[i + 1..];
    case Corrupt(i, noise) => CorruptKeeps(s, idx, i, noise); idx' := idx[i := 0];
  }

  lemma {:induction false} RunKeeps(s: System, idx: seq<nat>, events: seq<Event>) returns (idx': seq<nat>)
    requires Coherent(s, idx) && Admissible(s, events)
    ensures Coherent(Run(s, events), idx')
    decreases events
  {
    hide Coherent, Enabled;
    if events == [] {
      idx' := idx;
    } else {
      idx' := StepKeeps(s, idx, events[0]);
      idx' := RunKeeps(Apply(s, events[0]), idx', events[1..]);
    }
  }

  /** The window still holds an intact frame for the k-th payload. */
  predicate Retransmittable(s: System, k: nat)
    requires 0 < k <= |s.sent|
  {
    exists f | f in s.link.window ::
      && f.seqNo == SeqAt(k)
      && IsAction(f.frame)
      && Decode(f.frame).frame.sendSeq == SeqAt(k)
      && Decode(f.frame).frame.payload == s.sent[k - 1]
  }

  /** The client has accepted a prefix of what was sent, in order and without
      duplicates, and nothing it has not accepted has left the window. */
  ghost predicate Safe(s: System)
  {
    && s.client.accepted <= s.sent
    && forall k | |s.client.accepted| < k <= |s.sent| :: Retransmittable(s, k)
  }

  lemma HeldRetransmits(s: System, k: nat, f: SentFrame)
    requires 0 < k <= |s.sent| && f in s.link.window && Holds(f, k, s.sent[k - 1])
    ensures Retransmittable(s, k)
  {
    hide Encode, Decode;
    CarriesDecodes(f.frame, k, s.sent[k - 1]);
  }

  lemma CoherentIsSafe(s: System, idx: seq<nat>)
    requires Coherent(s, idx)
    ensures Safe(s)
  {
    hide Retransmittable, Holds;
    forall k | |s.client.accepted| < k <= |s.sent| ensures Retransmittable(s, k) {
      var i := k - 1 - Acked(s);
      assert Holds(s.link.window[i], Acked(s) + i + 1, s.sent[Acked(s) + i]);
      HeldRetransmits(s, k, s.link.window[i]);
    }
  }

  /** Safety of every run after a Reset, whatever the line and the client's
      rejections carry. */
  lemma ArqSafety(s: System, events: seq<Event>)
    requires Start(s) && Admissible(s, events)
    ensures Safe(Run(s, events))
  {
    StartCoherent(s);
    var idx := RunKeeps(s, NoPayloads(|s.channel|), events);
    CoherentIsSafe(Run(s, events), idx);
  }

  // ------------------------------------------------------------ retransmits

  /** Every retransmission is one frame: the successor of the last acknowledged
      number, encoded afresh with the current acknowledgement, so that it decodes
      to the oldest payload the client has not acknowledged. */
  lemma RetransmitsNext(link: Link, sent: seq<seq<Byte>>, acked: nat, f: QLinkFrame, now: nat, acked': nat)
    requires InStep(link, sent, acked)
    ensures var e := ProcessAck(link, f, now);
            && |e.out| <= 1
            && (InStep(e.link, sent, acked') && e.out != [] ==>
                  var next := IncSeq(e.link.lastRecv);
                  && acked' < |sent|
                  && e.out[0] == Encode(CMD_ACTION, next, link.inSeq, sent[acked'])
                  && Decode(e.out[0]) == Valid(QLinkFrame(CMD_ACTION, next, link.inSeq, sent[acked'])))
  {
    hide Encode, Decode, Refresh, SeqAt, SeqForward, FreeAcked, Holds;
    var e := ProcessAck(link, f, now);
    if InStep(e.link, sent, acked') && e.out != [] {
      RefreshedHead(e.link, sent, acked');
      IncSeqAt(acked');
      DecodeEncode(CMD_ACTION, SeqAt(acked' + 1), link.inSeq, sent[acked']);
    }
  }

  /** A rejection, or an acknowledgement that has not moved since the last one
      when a retransmission is due, always triggers one while payloads are
      outstanding. */
  lemma RetransmitsWhenStuck(link: Link, sent: seq<seq<Byte>>, acked: nat, f: QLinkFrame, now: nat)
    requires InStep(link, sent, acked) && f.cmd != CMD_RESET
    requires !CarriesAck(f) || (f.recvSeq == link.lastRecv && ResendDue(link, now))
    ensures |ProcessAck(link, f, now).out| == if acked < |sent| then 1 else 0
  {
    hide Refresh, Holds;
    if CarriesAck(f) {
      InStepNumbered(link, sent, acked);
      FreeExactly(link.window, acked, acked);
    }
  }
}
