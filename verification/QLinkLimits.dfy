/** The limits of the protocol, as runs that reach them: what a full window and a
    stale acknowledgement cost, and how the client gets out of hearing. */
module QLinkLimits {
  import opened Bits
  import opened QLinkCodec
  import opened HabitatEscape
  import opened QLinkSession
  import opened QLinkArq
  import opened QLinkRecovery

  // ---------------------------------------------------------- exact safety

  /** The window holds exactly what was sent after the freed-th payload. */
  predicate HoldsAfter(s: System, freed: nat)
  {
    && freed + |s.link.window| == |s.sent|
    && |s.link.window| <= MAX_WINDOW
    && forall i | 0 <= i < |s.link.window| :: Holds(s.link.window[i], freed + i + 1, s.sent[freed + i])
  }

  /** Then the system is safe exactly when the client has accepted all that was
      freed. */
  lemma SafeExactly(s: System, freed: nat)
    requires HoldsAfter(s, freed) && s.client.accepted <= s.sent
    requires |s.sent| <= |s.client.accepted| + SEQ_SPAN
    ensures Safe(s) <==> freed <= |s.client.accepted|
  {
    hide Retransmittable, Holds;
    var accepted := |s.client.accepted|;
    if freed <= accepted {
      forall k | accepted < k <= |s.sent| ensures Retransmittable(s, k) {
        var i := k - 1 - freed;
        assert Holds(s.link.window[i], freed + i + 1, s.sent[freed + i]);
        HeldRetransmits(s, k, s.link.window[i]);
      }
    } else {
      FreedIsGone(s, freed, accepted + 1);
    }
  }

  lemma FreedIsGone(s: System, freed: nat, k: nat)
    requires HoldsAfter(s, freed) && 0 < k <= freed && |s.sent| < k + SEQ_SPAN
    ensures !Retransmittable(s, k)
  {
    hide Decode, Carries;
    forall f | f in s.link.window ensures f.seqNo != SeqAt(k) {
      var i :| 0 <= i < |s.link.window| && s.link.window[i] == f;
      assert Holds(s.link.window[i], freed + i + 1, s.sent[freed + i]);
      if SeqAt(freed + i + 1) == SeqAt(k) {
        SeqAtInjective(freed + i + 1, k);
      }
    }
    hide SeqAt;
  }

  lemma CoherentHolds(s: System, idx: seq<nat>)
    requires Coherent(s, idx)
    ensures HoldsAfter(s, Acked(s)) && s.client.accepted <= s.sent && Acked(s) <= |s.client.accepted|
    ensures |s.sent| <= |s.client.accepted| + MAX_WINDOW
  {
    hide Holds, InFlight, SeqAt;
  }

  /** Sending with a full window keeps safety exactly when the client has already
      accepted the oldest frame, acknowledged or not. */
  lemma FullWindowExact(s: System, idx: seq<nat>, payload: seq<Byte>)
    requires Coherent(s, idx) && |s.link.window| == MAX_WINDOW
    ensures Safe(Emit(s, SendPayload(s.link, payload), [payload])) <==> Ahead(s) > 0
  {
    hide SendPayload, Holds, InStep, InFlight, SeqAt, Safe;
    var t := Emit(s, SendPayload(s.link, payload), [payload]);
    FullWindowShifts(s.link, s.sent, Acked(s), payload);
    CoherentHolds(s, idx);
    hide Coherent;
    SafeExactly(t, Acked(s) + 1);
  }

  lemma FullWindowShifts(link: Link, sent: seq<seq<Byte>>, acked: nat, payload: seq<Byte>)
    requires InStep(link, sent, acked) && |link.window| == MAX_WINDOW
    ensures var w := SendPayload(link, payload).link.window;
            && |w| == MAX_WINDOW
            && forall i | 0 <= i < |w| :: Holds(w[i], acked + 1 + i + 1, (sent + [payload])[acked + 1 + i])
  {
    IncSeqAt(|sent|);
    EncodedCarries(|sent| + 1, link.inSeq, payload);
    hide Encode, SeqAt, IncSeq, Carries;
    var w := SendPayload(link, payload).link.window;
    forall i | 0 <= i < |w| ensures Holds(w[i], acked + 1 + i + 1, (sent + [payload])[acked + 1 + i]) {
      if i < MAX_WINDOW - 1 {
        assert Holds(link.window[i + 1], acked + (i + 1) + 1, sent[acked + (i + 1)]);
      }
    }
  }

  /** An acknowledgement that lags by more than 55 keeps safety exactly when the
      client has accepted all it frees. */
  lemma StaleAckUnsafe(s: System, idx: seq<nat>, f: QLinkFrame, d: nat, now: nat)
    requires Coherent(s, idx) && CarriesAck(f)
    requires 55 < d < SEQ_SPAN && d <= Acked(s) && f.recvSeq == SeqAt(Acked(s) - d)
    ensures Safe(Emit(s, ProcessAck(s.link, f, now), [])) <==> Ahead(s) >= Min(SEQ_SPAN - d, |s.link.window|)
  {
    hide ProcessAck, Holds, InStep, InFlight, SeqAt, Safe;
    var t := Emit(s, ProcessAck(s.link, f, now), []);
    var acked, n := Acked(s), Min(SEQ_SPAN - d, |s.link.window|);
    StaleAckExact(s.link, s.sent, acked, f, d, now);
    CoherentHolds(s, idx);
    hide Coherent;
    SuffixHolds(s, t, acked, n);
    SafeExactly(t, acked + n);
  }

  lemma SuffixHolds(s: System, t: System, freed: nat, n: nat)
    requires HoldsAfter(s, freed) && n <= |s.link.window| && t.sent == s.sent && t.link.window == s.link.window[n..]
    ensures HoldsAfter(t, freed + n)
  {
    hide Holds;
    forall i | 0 <= i < |t.link.window| ensures Holds(t.link.window[i], freed + n + i + 1, t.sent[freed + n + i]) {
      assert Holds(s.link.window[n + i], freed + (n + i) + 1, s.sent[freed + (n + i)]);
    }
  }

  // -------------------------------------------------------- runs that get there

  lemma SendJoins(s: System, idx: seq<nat>, packet: seq<Byte>) returns (t: System)
    requires Coherent(s, idx) && |s.link.window| < MAX_WINDOW
    ensures Enabled(s, SendPacket(packet)) && t == Apply(s, SendPacket(packet))
    ensures Coherent(t, idx + [|s.sent| + 1]) && |t.channel| == |s.channel| + 1 && |t.sent| == |s.sent| + 1
    ensures t.client == s.client && Acked(t) == Acked(s)
  {
    t := Apply(s, SendPacket(packet));
    SendKeeps(s, idx, EscapeSeq(packet));
    SendKeepsStep(s.link, s.sent, Acked(s), EscapeSeq(packet));
  }

  /** Sends without any delivery or report fill the window. */
  lemma {:induction false} SendMany(s: System, idx: seq<nat>, packet: seq<Byte>, count: nat)
    returns (events: seq<Event>, idx': seq<nat>)
    requires Coherent(s, idx) && |s.link.window| + count <= MAX_WINDOW
    ensures Admissible(s, events) && Coherent(Run(s, events), idx')
    ensures var t := Run(s, events); t.client == s.client && Acked(t) == Acked(s) && |t.sent| == |s.sent| + count
    decreases count
  {
    hide Enabled, Apply, Coherent;
    events, idx' := [], idx;
    if count > 0 {
      var t := SendJoins(s, idx, packet);
      var rest;
      rest, idx' := SendMany(t, idx + [|s.sent| + 1], packet, count - 1);
      events := [SendPacket(packet)] + rest;
      assert events[1..] == rest;
    }
  }

  /** Sixty-four sends without a delivery, and the next one loses a payload. */
  lemma WindowOverflows(s: System, packet: seq<Byte>) returns (events: seq<Event>)
    requires Start(s)
    ensures Admissible(s, events)
    ensures var t := Run(s, events);
            Safe(t) && !Safe(Emit(t, SendPayload(t.link, packet), [packet])) && |t.link.window| == MAX_WINDOW
  {
    StartCoherent(s);
    var idx;
    events, idx := SendMany(s, NoPayloads(|s.channel|), packet, MAX_WINDOW);
    hide Enabled, Apply, Coherent, Safe;
    CoherentIsSafe(Run(s, events), idx);
    FullWindowExact(Run(s, events), idx, packet);
  }

  lemma SendDelivered(s: System, idx: seq<nat>, packet: seq<Byte>)
    requires Coherent(s, idx) && s.channel == [] && s.client.accepted == s.sent && |s.link.window| < MAX_WINDOW
    ensures Admissible(s, [SendPacket(packet), Deliver])
    ensures var t := Run(s, [SendPacket(packet), Deliver]);
            t.channel == [] && t.client.accepted == t.sent && |t.sent| == |s.sent| + 1 && Acked(t) == Acked(s)
  {
    hide Enabled, ClientReceive, SendPayload, Admissible, Run;
    assert |idx| == 0;
    hide Coherent;
    var t := SendJoins(s, idx, packet);
    DeliverNext(t, idx + [|s.sent| + 1], |s.sent| + 1);
    TwoSteps(s, SendPacket(packet), Deliver);
  }

  /** Payloads that are all accepted while every report is lost: from the 57th on
      no live report is heard again, whatever else happens. */
  lemma {:induction false} UnheardClient(s: System, idx: seq<nat>, packet: seq<Byte>, count: nat)
    returns (events: seq<Event>)
    requires Coherent(s, idx) && s.channel == [] && s.client.accepted == s.sent && |s.link.window| + count <= MAX_WINDOW
    ensures Admissible(s, events)
    ensures var t := Run(s, events);
            && |t.client.accepted| == |s.sent| + count && t.client.accepted == t.sent && Acked(t) == Acked(s)
            && (Wedged(t) <==> Ahead(s) + count > HEARD_AHEAD)
    decreases count
  {
    hide Enabled, Apply, Wedged, Coherent, Recoverable;
    if count == 0 {
      events := [];
      RecoversExactly(s, idx);
    } else {
      var first := [SendPacket(packet), Deliver];
      SendDelivered(s, idx, packet);
      var idx' := RunKeeps(s, idx, first);
      WindowGrows(s, Run(s, first));
      var rest := UnheardClient(Run(s, first), idx', packet, count - 1);
      RunAppend(s, first, rest);
      events := first + rest;
    }
  }

  lemma WindowGrows(s: System, t: System)
    requires |t.sent| == |s.sent| + 1 && Acked(t) == Acked(s)
    ensures |t.link.window| == |s.link.window| + 1
  {
  }

  /** Fifty-seven payloads accepted before the first report wedge the link, with
      room for seven more in the window. */
  lemma FirstReportsLost(s: System, packet: seq<Byte>) returns (events: seq<Event>)
    requires Start(s) && s.channel == []
    ensures Admissible(s, events)
    ensures var t := Run(s, events); Wedged(t) && !Recoverable(t) && Safe(t) && |t.sent| == |t.client.accepted| == 57
  {
    StartCoherent(s);
    var idx := NoPayloads(|s.channel|);
    assert Ahead(s) == 0;
    hide Enabled, Apply, Wedged, Coherent, Recoverable, Safe;
    events := UnheardClient(s, idx, packet, 57);
    idx := RunKeeps(s, idx, events);
    RecoversExactly(Run(s, events), idx);
    CoherentIsSafe(Run(s, events), idx);
  }

  /** Payloads sent, accepted and acknowledged one by one. */
  lemma {:induction false} Rounds(s: System, idx: seq<nat>, packet: seq<Byte>, count: nat)
    returns (events: seq<Event>, idx': seq<nat>)
    requires Coherent(s, idx) && s.channel == [] && s.client.accepted == s.sent && s.link.window == []
    ensures Admissible(s, events) && Coherent(Run(s, events), idx')
    ensures var t := Run(s, events);
            && t.channel == [] && t.client.accepted == t.sent && t.link.window == [] && |t.sent| == |s.sent| + count
    decreases count
  {
    hide Enabled, Apply, Coherent;
    events, idx' := [], idx;
    if count > 0 {
      var first, t, i := Round(s, idx, packet);
      var rest;
      rest, idx' := Rounds(t, i, packet, count - 1);
      RunAppend(s, first, rest);
      events := first + rest;
    }
  }

  lemma Round(s: System, idx: seq<nat>, packet: seq<Byte>) returns (events: seq<Event>, t: System, idx': seq<nat>)
    requires Coherent(s, idx) && s.channel == [] && s.client.accepted == s.sent && s.link.window == []
    ensures Admissible(s, events) && t == Run(s, events) && Coherent(t, idx')
    ensures t.channel == [] && t.client.accepted == t.sent && t.link.window == [] && |t.sent| == |s.sent| + 1
  {
    var first := [SendPacket(packet), Deliver];
    SendDelivered(s, idx, packet);
    hide Enabled, Apply, Coherent, Admissible, Run;
    var u := Run(s, first);
    var ui := RunKeeps(s, idx, first);
    var rest;
    rest, t, idx' := Acknowledge(u, ui);
    RunAppend(s, first, rest);
    events := first + rest;
  }

  /** A live heartbeat, and its answer lost on the way. */
  lemma Acknowledge(s: System, idx: seq<nat>) returns (events: seq<Event>, t: System, idx': seq<nat>)
    requires Coherent(s, idx) && s.channel == [] && s.client.accepted == s.sent && |s.link.window| <= HEARD_AHEAD
    ensures Admissible(s, events) && t == Run(s, events) && Coherent(t, idx')
    ensures t.channel == [] && t.client == s.client && t.sent == s.sent && t.link.window == []
  {
    var ping := Ping(|s.sent|, 0);
    PingEffect(s, idx, |s.sent|, 0);
    hide Enabled, Coherent, HandleBody, Admissible, Run;
    var u := Apply(s, ping);
    var ui := StepKeeps(s, idx, ping);
    events, t, idx' := LoseAll(u, ui);
    FirstEvent(s, ping, events);
    events := [ping] + events;
  }

  lemma FirstEvent(s: System, event: Event, rest: seq<Event>)
    requires Enabled(s, event) && Admissible(Apply(s, event), rest)
    ensures Admissible(s, [event] + rest) && Run(s, [event] + rest) == Run(Apply(s, event), rest)
  {
    hide Enabled, Apply;
    assert ([event] + rest)[1..] == rest;
  }

  lemma {:induction false} LoseAll(s: System, idx: seq<nat>) returns (events: seq<Event>, t: System, idx': seq<nat>)
    requires Coherent(s, idx)
    ensures Admissible(s, events) && t == Run(s, events) && Coherent(t, idx')
    ensures t.channel == [] && t.client == s.client && t.sent == s.sent && t.link == s.link
    decreases |s.channel|
  {
    hide Coherent, Decode;
    events, t, idx' := [], s, idx;
    if s.channel != [] {
      var i := StepKeeps(s, idx, Lose(0));
      var rest;
      rest, t, idx' := LoseAll(Apply(s, Lose(0)), i);
      FirstEvent(s, Lose(0), rest);
      events := [Lose(0)] + rest;
    }
  }

  /** After 56 acknowledged payloads and a lost one, a report delayed since the
      Reset frees the lost payload. */
  lemma StaleReportFrees(s: System, packet: seq<Byte>, f: QLinkFrame, now: nat) returns (events: seq<Event>)
    requires Start(s) && s.channel == [] && CarriesAck(f) && f.recvSeq == SEQ_LOW
    ensures Admissible(s, events)
    ensures var t := Run(s, events);
            && Safe(t) && |t.client.accepted| == Acked(t) == 56
            && !Safe(Emit(t, ProcessAck(t.link, f, now), []))
  {
    hide Enabled, Apply, Coherent, Safe, ProcessAck, Admissible, Run;
    StartCoherent(s);
    var first, i := Rounds(s, NoPayloads(|s.channel|), packet, 56);
    var second, idx := SendMany(Run(s, first), i, packet, 1);
    RunAppend(s, first, second);
    events := first + second;
    CoherentIsSafe(Run(s, events), idx);
    assert SeqAt(0) == SEQ_LOW;
    StaleAckUnsafe(Run(s, events), idx, f, 56, now);
  }
}
