/** When the retransmission protocol gets everything through, and when not: the
    client's live reports carry its newest acceptance, and the bridge hears them
    only within half the sequence span of the last one it heard. */
module QLinkRecovery {
  import opened Bits
  import opened Options
  import opened QLinkCodec
  import opened QLinkSession
  import opened QLinkArq

  /** The farthest ahead of the last acknowledgement that a report is heard. */
  const HEARD_AHEAD: nat := SEQ_SPAN / 2

  /** A report is live: what acknowledges at all carries the newest acceptance. */
  predicate ReportsNewest(s: System, event: Event)
  {
    event.Hear? && Decode(event.body).Valid? && CarriesAck(Decode(event.body).frame) ==>
      Decode(event.body).frame.recvSeq == SeqAt(|s.client.accepted|)
  }

  /** Every report of the run is live; the line may still lose, corrupt and reject
      anything. */
  predicate NewestRun(s: System, events: seq<Event>)
    requires Admissible(s, events)
    decreases events
  {
    events != [] ==> ReportsNewest(s, events[0]) && NewestRun(Apply(s, events[0]), events[1..])
  }

  /** A heartbeat that acknowledges index a. */
  function Ping(a: nat, now: nat): Event
  {
    Hear(Encode(CMD_PING, 0, SeqAt(a), []), now)
  }

  predicate Healing(s: System, event: Event)
  {
    event == Deliver || (event.Hear? && event == Ping(|s.client.accepted|, event.now))
  }

  /** Nothing happens but deliveries and live heartbeats. */
  predicate HealingRun(s: System, events: seq<Event>)
    requires Admissible(s, events)
    decreases events
  {
    events != [] ==> Healing(s, events[0]) && HealingRun(Apply(s, events[0]), events[1..])
  }

  /** Everything sent was accepted and acknowledged. */
  predicate Settled(s: System)
  {
    s.client.accepted == s.sent && s.link.window == []
  }

  /** How far the client is ahead of the last acknowledgement the bridge heard. */
  function Ahead(s: System): int
  {
    |s.client.accepted| - Acked(s)
  }

  /** Some continuation with live reports settles what was sent. */
  ghost predicate Recoverable(s: System)
  {
    exists events | Admissible(s, events) && NewestRun(s, events) ::
      Run(s, events).sent == s.sent && Settled(Run(s, events))
  }

  /** No continuation with live reports is ever heard. */
  ghost predicate Wedged(s: System)
  {
    && s.link.window != []
    && forall events | Admissible(s, events) && NewestRun(s, events) ::
      Acked(Run(s, events)) == Acked(s) && Run(s, events).link.window != []
  }

  // -------------------------------------------------------- one heartbeat

  lemma PingEffect(s: System, idx: seq<nat>, a: nat, now: nat)
    requires Coherent(s, idx) && Acked(s) <= a <= |s.client.accepted|
    ensures Enabled(s, Ping(a, now))
    ensures var t := Apply(s, Ping(a, now));
            t.sent == s.sent && t.client == s.client && Acked(t) == Advance(Acked(s), a)
  {
    var body, f := Ping(a, now).body, QLinkFrame(CMD_PING, 0, SeqAt(a), []);
    DecodeEncode(CMD_PING, 0, SeqAt(a), []);
    hide Encode, Decode, Refresh, SeqAt, SeqForward, FreeAcked, Holds;
    assert !AsksForSync(body);
    AckExact(s.link.(nakSent := false), s.sent, Acked(s), f, a, now);
  }

  /** A client that only ever reports its newest acceptance is heard exactly when
      it is at most half the span ahead of the bridge's last acknowledgement. */
  lemma NewestAckHeardExactly(s: System, idx: seq<nat>, now: nat)
    requires Coherent(s, idx)
    ensures var a := |s.client.accepted|;
            Enabled(s, Ping(a, now)) && (Acked(Apply(s, Ping(a, now))) == a <==> Ahead(s) <= HEARD_AHEAD)
  {
    PingEffect(s, idx, |s.client.accepted|, now);
  }

  // ------------------------------------------------- unheard means unheard

  lemma UnheardAck(s: System, idx: seq<nat>, f: QLinkFrame, now: nat)
    requires Coherent(s, idx) && Ahead(s) > HEARD_AHEAD && f.cmd != CMD_RESET
    requires CarriesAck(f) ==> f.recvSeq == SeqAt(|s.client.accepted|)
    ensures ProcessAck(s.link, f, now).link.window == s.link.window
  {
    hide Encode, Refresh, SeqAt, SeqForward, FreeAcked, Holds;
    if CarriesAck(f) {
      AckExact(s.link, s.sent, Acked(s), f, |s.client.accepted|, now);
    }
  }

  lemma DispatchWindow(link: Link, f: QLinkFrame, body: seq<Byte>)
    requires Decode(body) == Valid(f) && f.cmd != CMD_RESET && (AsksForSync(body) ==> |link.window| < MAX_WINDOW)
    ensures |Dispatch(link, f, body).link.window| == |link.window| + if AsksForSync(body) then 1 else 0
  {
    hide Encode, Decode;
  }

  lemma UnheardHear(s: System, idx: seq<nat>, body: seq<Byte>, now: nat)
    requires Coherent(s, idx) && Ahead(s) > HEARD_AHEAD
    requires Enabled(s, Hear(body, now)) && ReportsNewest(s, Hear(body, now))
    ensures Acked(Apply(s, Hear(body, now))) == Acked(s)
  {
    hide Encode, Decode, SeqAt, ProcessAck, Dispatch;
    match Decode(body)
    case Malformed =>
    case BadCrc(_, _, _) =>
    case Valid(f) =>
      var t := s.(link := s.link.(nakSent := false));
      assert Coherent(t, idx);
      UnheardAck(t, idx, f, now);
      DispatchWindow(ProcessAck(t.link, f, now).link, f, body);
  }

  lemma UnheardStep(s: System, idx: seq<nat>, event: Event)
    requires Coherent(s, idx) && Ahead(s) > HEARD_AHEAD && Enabled(s, event) && ReportsNewest(s, event)
    ensures Acked(Apply(s, event)) == Acked(s) && |Apply(s, event).client.accepted| >= |s.client.accepted|
  {
    hide Encode, Decode, Coherent, HandleBody, Honest;
    match event
    case Hear(body, now) => UnheardHear(s, idx, body, now);
    case _ =>
  }

  /** Once the client is more than half the span ahead, nothing it truthfully
      reports is ever heard again, whatever else happens. */
  lemma {:induction false} NeverHeardAgain(s: System, idx: seq<nat>, events: seq<Event>)
    requires Coherent(s, idx) && Ahead(s) > HEARD_AHEAD && Admissible(s, events) && NewestRun(s, events)
    ensures Acked(Run(s, events)) == Acked(s) && Run(s, events).link.window != []
    decreases events
  {
    hide Enabled, Apply, ReportsNewest;
    if events == [] {
      AheadHolds(s, idx);
    } else {
      UnheardStep(s, idx, events[0]);
      var idx' := StepKeeps(s, idx, events[0]);
      hide Coherent;
      NeverHeardAgain(Apply(s, events[0]), idx', events[1..]);
    }
  }

  /** What is accepted but unacknowledged is still in the window. */
  lemma AheadHolds(s: System, idx: seq<nat>)
    requires Coherent(s, idx)
    ensures Ahead(s) <= |s.link.window|
  {
    hide InStep, InFlight;
  }

  lemma AheadIsWedged(s: System, idx: seq<nat>)
    requires Coherent(s, idx) && Ahead(s) > HEARD_AHEAD
    ensures Wedged(s)
  {
    AheadHolds(s, idx);
    hide Coherent, Enabled;
    forall events | Admissible(s, events) && NewestRun(s, events)
      ensures Acked(Run(s, events)) == Acked(s) && Run(s, events).link.window != []
    {
      NeverHeardAgain(s, idx, events);
    }
  }

  // --------------------------------------------------------------- recovery

  /** Delivering the head of the channel when it carries the next payload. */
  lemma DeliverNext(t: System, idx: seq<nat>, k: nat)
    requires Coherent(t, idx) && t.channel != [] && idx[0] == k == |t.client.accepted| + 1
    ensures Enabled(t, Deliver)
    ensures var u := Apply(t, Deliver);
            && u.channel == t.channel[1..] && u.sent == t.sent && u.link == t.link
            && k <= |t.sent| && u.client.accepted == t.sent[..k]
  {
    hide Holds, Carries, IsAction, ClientReceive, SeqAt;
    assert Tagged(t.channel[0], k, t.sent) && Recent(|t.client.accepted|, k);
    ClientTakesNext(t.client, t.sent, t.channel[0], k);
  }

  /** The time from which an unmoved report makes the bridge retransmit. */
  function Due(link: Link): nat
  {
    match link.lastResend case None => 0 case Some(t) => t + RESEND_INTERVAL
  }

  /** A due heartbeat that does not move the acknowledgement draws a retransmission
      of the payload the client waits for, and the answer to the heartbeat. */
  lemma DueHeartbeat(s: System, idx: seq<nat>, now: nat)
    requires Coherent(s, idx) && s.channel == [] && Acked(s) == |s.client.accepted| < |s.sent| && now >= Due(s.link)
    ensures var t := Apply(s, Ping(Acked(s), now));
            && Enabled(s, Ping(Acked(s), now)) && t.sent == s.sent && t.client == s.client && Acked(t) == Acked(s)
            && |t.channel| == 2 && Coherent(t, [Acked(s) + 1, 0])
  {
    var acked, body := Acked(s), Ping(Acked(s), now).body;
    var f := QLinkFrame(CMD_PING, 0, SeqAt(acked), []);
    PingEffect(s, idx, acked, now);
    DecodeEncode(CMD_PING, 0, SeqAt(acked), []);
    var link := s.link.(nakSent := false);
    AckExact(link, s.sent, acked, f, acked, now);
    RetransmitsWhenStuck(link, s.sent, acked, f, now);
    HeartbeatAnswer(link, acked, now);
    hide Encode, Decode, Refresh, SeqAt, SeqForward, FreeAcked, Holds, Carries, InStep;
    assert !AsksForSync(body);
    HeartbeatInFlight(s, idx, Apply(s, Ping(acked, now)));
  }

  /** What the link writes on a due heartbeat that repeats its last one. */
  lemma HeartbeatAnswer(link: Link, acked: nat, now: nat)
    requires link.lastRecv == SeqAt(acked) && ResendDue(link, now) && !link.nakSent
    requires ProcessAck(link, QLinkFrame(CMD_PING, 0, SeqAt(acked), []), now).link.window == link.window != []
    ensures var e := HandleBody(link, Ping(acked, now).body, now);
            && e.link == link.(lastResend := Some(now))
            && e.out == [Refresh(link.window[0].frame, link.inSeq), Encode(CMD_ACK, link.outSeq, link.inSeq, [])]
  {
    DecodeEncode(CMD_PING, 0, SeqAt(acked), []);
    hide Encode, Decode, Refresh, SeqAt, FreeAcked;
  }

  lemma HeartbeatInFlight(s: System, idx: seq<nat>, t: System)
    requires Coherent(s, idx) && s.link.window != [] && s.channel == []
    requires t.sent == s.sent && t.client == s.client
    requires t.channel == [Refresh(s.link.window[0].frame, s.link.inSeq),
                           Encode(CMD_ACK, s.link.outSeq, s.link.inSeq, [])]
    requires t.link.window == s.link.window && t.link.outSeq == s.link.outSeq && t.link.lastRecv == s.link.lastRecv
    ensures Coherent(t, [Acked(s) + 1, 0])
  {
    hide Encode, Decode, Refresh, InStep, InFlight, Tagged, ClientFollows;
    NakInFlight(s, idx, t.(channel := [t.channel[0]]));
    ControlIsNoAction(CMD_ACK, s.link.outSeq, s.link.inSeq, s.sent);
    PrefixIsShorter(s.client, s.sent);
    Joins([t.channel[0]], [Acked(s) + 1], s.sent, |s.client.accepted|, t.channel[1], 0);
    assert [t.channel[0]] + [t.channel[1]] == t.channel && [Acked(s) + 1] + [0] == [Acked(s) + 1, 0];
  }

  lemma HeartbeatIsHealing(s: System, now: nat)
    ensures Healing(s, Ping(|s.client.accepted|, now))
  {
    hide Encode;
  }

  /** Deliveries and live heartbeats are a run with live reports. */
  lemma {:induction false} HealingIsNewest(s: System, events: seq<Event>)
    requires Admissible(s, events) && HealingRun(s, events)
    ensures NewestRun(s, events)
    decreases events
  {
    hide Enabled, Apply;
    if events != [] {
      DecodeEncode(CMD_PING, 0, SeqAt(|s.client.accepted|), []);
      hide Encode, Decode, SeqAt;
      HealingIsNewest(Apply(s, events[0]), events[1..]);
    }
  }

  ghost function Debt(s: System): int
  {
    2 * |s.sent| - |s.client.accepted| - Acked(s)
  }

  lemma DebtIsNat(s: System, idx: seq<nat>)
    requires Coherent(s, idx)
    ensures Debt(s) >= 0
  {
    hide InStep, InFlight;
  }

  /** From every coherent state in which the client is at most half the span ahead,
      deliveries and live heartbeats alone get everything accepted and
      acknowledged. */
  lemma {:induction false} Recovers(s: System, idx: seq<nat>) returns (events: seq<Event>)
    requires Coherent(s, idx) && Ahead(s) <= HEARD_AHEAD
    ensures Admissible(s, events) && HealingRun(s, events)
    ensures Run(s, events).sent == s.sent && Settled(Run(s, events))
    decreases Debt(s), |s.channel|
  {
    hide Enabled, Decode, Encode, HandleBody, Holds, SeqAt, Healing;
    var accepted, acked := |s.client.accepted|, Acked(s);
    if acked < accepted {
      PingEffect(s, idx, accepted, 0);
      HeartbeatIsHealing(s, 0);
      events := Resume(s, idx, Ping(accepted, 0));
    } else if s.channel != [] {
      DeliverEffect(s, idx);
      events := Resume(s, idx, Deliver);
    } else if accepted < |s.sent| {
      events := HeartbeatRound(s, idx);
    } else {
      events := [];
      assert s.client.accepted == s.sent;
    }
  }

  lemma DeliverEffect(s: System, idx: seq<nat>)
    requires Coherent(s, idx) && s.channel != []
    ensures Enabled(s, Deliver) && Healing(s, Deliver)
    ensures var t := Apply(s, Deliver);
            && t.sent == s.sent && t.link == s.link && |t.channel| < |s.channel|
            && |s.client.accepted| <= |t.client.accepted| <= |s.client.accepted| + 1
  {
    hide Decode, Coherent;
  }

  /** With an empty channel a due heartbeat and one delivery advance the client. */
  lemma {:induction false} HeartbeatRound(s: System, idx: seq<nat>) returns (events: seq<Event>)
    requires Coherent(s, idx) && s.channel == [] && Acked(s) == |s.client.accepted| < |s.sent|
    ensures Admissible(s, events) && HealingRun(s, events)
    ensures Run(s, events).sent == s.sent && Settled(Run(s, events))
    decreases Debt(s), |s.channel|, 0
  {
    var now, acked := Due(s.link), Acked(s);
    var ping := Ping(acked, now);
    DueHeartbeat(s, idx, now);
    HeartbeatIsHealing(s, now);
    var t := Apply(s, ping);
    DeliverNext(t, [acked + 1, 0], acked + 1);
    DeliverEffect(t, [acked + 1, 0]);
    hide Enabled, Apply, Decode, Encode, HandleBody, Healing, Coherent;
    var idx' := StepKeeps(t, [acked + 1, 0], Deliver);
    var rest := Recovers(Apply(t, Deliver), idx');
    Prepend(t, Deliver, rest);
    Prepend(s, ping, [Deliver] + rest);
    events := [ping] + ([Deliver] + rest);
  }

  lemma Prepend(s: System, event: Event, rest: seq<Event>)
    requires Enabled(s, event) && Healing(s, event)
    requires Admissible(Apply(s, event), rest) && HealingRun(Apply(s, event), rest)
    ensures Admissible(s, [event] + rest) && HealingRun(s, [event] + rest)
    ensures Run(s, [event] + rest) == Run(Apply(s, event), rest)
  {
    hide Enabled, Apply, Healing;
    assert ([event] + rest)[1..] == rest;
  }

  lemma {:induction false} Resume(s: System, idx: seq<nat>, event: Event) returns (events: seq<Event>)
    requires Coherent(s, idx) && Enabled(s, event) && Healing(s, event)
    requires var t := Apply(s, event);
             && t.sent == s.sent && Ahead(t) <= HEARD_AHEAD
             && (Debt(t) < Debt(s) || (Debt(t) == Debt(s) && |t.channel| < |s.channel|))
    ensures Admissible(s, events) && HealingRun(s, events)
    ensures Run(s, events).sent == s.sent && Settled(Run(s, events))
    decreases Debt(s), |s.channel|, 0
  {
    DebtIsNat(s, idx);
    hide Enabled, Apply, Healing, Coherent;
    var idx' := StepKeeps(s, idx, event);
    var rest := Recovers(Apply(s, event), idx');
    Prepend(s, event, rest);
    events := [event] + rest;
  }

  // ------------------------------------------------- every healing run

  /** A live heartbeat that finds the line drained and the last retransmission old
      enough for another. */
  predicate Beat(s: System, event: Event)
  {
    event.Hear? && s.channel == [] && event.now >= Due(s.link)
  }

  function Beats(s: System, events: seq<Event>): nat
    requires Admissible(s, events)
    decreases events
  {
    if events == [] then 0
    else (if Beat(s, events[0]) then 1 else 0) + Beats(Apply(s, events[0]), events[1..])
  }

  /** The client never gets more than half the span ahead of what was heard. */
  predicate StaysHeard(s: System, events: seq<Event>)
    requires Admissible(s, events)
    decreases events
  {
    Ahead(s) <= HEARD_AHEAD && (events != [] ==> StaysHeard(Apply(s, events[0]), events[1..]))
  }

  /** How many payloads the next delivery will bring: none or one. */
  function Coming(s: System): int
  {
    if s.channel == [] then 0
    else |ClientReceive(s.client, s.channel[0]).accepted| - |s.client.accepted|
  }

  /** What is still owed when the head of the channel counts as delivered. */
  ghost function Owed(s: System): int
  {
    Debt(s) - Coming(s)
  }

  lemma OwedExactly(s: System, idx: seq<nat>)
    requires Coherent(s, idx)
    ensures 0 <= Owed(s) <= Debt(s)
    ensures Owed(s) == 0 <==> Settled(s)
  {
    hide Holds, Carries, IsAction, ClientReceive, SeqAt;
    if s.channel != [] {
      assert Tagged(s.channel[0], idx[0], s.sent) && Recent(|s.client.accepted|, idx[0]);
      ClientTakesNext(s.client, s.sent, s.channel[0], idx[0]);
    }
  }

  lemma LiveHeartbeat(s: System, idx: seq<nat>, now: nat)
    requires Coherent(s, idx) && Ahead(s) <= HEARD_AHEAD
    ensures var ping := Ping(|s.client.accepted|, now);
            && Enabled(s, ping)
            && var t := Apply(s, ping);
            && t.sent == s.sent && t.client == s.client && Acked(t) == |s.client.accepted|
            && s.channel <= t.channel
  {
    PingEffect(s, idx, |s.client.accepted|, now);
    hide Encode, HandleBody, Coherent, Honest;
  }

  lemma BeatBringsNext(s: System, idx: seq<nat>, now: nat)
    requires Coherent(s, idx) && Ahead(s) == 0 && s.channel == [] && now >= Due(s.link) && !Settled(s)
    ensures Coming(Apply(s, Ping(Acked(s), now))) == 1
  {
    OwedExactly(s, idx);
    DueHeartbeat(s, idx, now);
    var t := Apply(s, Ping(Acked(s), now));
    DeliverNext(t, [Acked(s) + 1, 0], Acked(s) + 1);
    hide Coherent, Enabled, ClientReceive, HandleBody, Encode;
  }

  lemma DeliveryPays(s: System)
    requires Enabled(s, Deliver)
    ensures Apply(s, Deliver).sent == s.sent && Debt(Apply(s, Deliver)) == Owed(s)
  {
    hide ClientReceive;
  }

  lemma HeartbeatPays(s: System, idx: seq<nat>, now: nat)
    requires Coherent(s, idx) && Ahead(s) <= HEARD_AHEAD
    ensures var ping := Ping(|s.client.accepted|, now);
            && Enabled(s, ping) && Apply(s, ping).sent == s.sent && Owed(Apply(s, ping)) <= Owed(s)
            && (Beat(s, ping) && Owed(s) > 0 ==> Owed(Apply(s, ping)) < Owed(s))
  {
    var ping := Ping(|s.client.accepted|, now);
    LiveHeartbeat(s, idx, now);
    OwedExactly(s, idx);
    AheadHolds(s, idx);
    BeatBrings(s, idx, now);
    hide Coherent, Enabled, Apply, Coming;
    ComingGrows(s, Apply(s, ping));
  }

  lemma BeatBrings(s: System, idx: seq<nat>, now: nat)
    requires Coherent(s, idx)
    ensures s.channel == [] && now >= Due(s.link) && Ahead(s) == 0 && !Settled(s) ==>
              Coming(Apply(s, Ping(|s.client.accepted|, now))) == 1
  {
    hide Coherent, Coming, Apply, Enabled;
    if s.channel == [] && now >= Due(s.link) && Ahead(s) == 0 && !Settled(s) {
      BeatBringsNext(s, idx, now);
    }
  }

  lemma ComingGrows(s: System, t: System)
    requires t.client == s.client && s.channel <= t.channel
    ensures Coming(s) <= Coming(t)
  {
    hide Decode;
  }

  /** A healing step never adds to what is owed, and a beat pays some of it. */
  lemma HealingPays(s: System, idx: seq<nat>, event: Event)
    requires Coherent(s, idx) && Ahead(s) <= HEARD_AHEAD && Enabled(s, event) && Healing(s, event)
    ensures Apply(s, event).sent == s.sent && Owed(Apply(s, event)) <= Owed(s)
    ensures Beat(s, event) && Owed(s) > 0 ==> Owed(Apply(s, event)) < Owed(s)
  {
    if event == Deliver {
      var idx' := StepKeeps(s, idx, event);
      OwedExactly(Apply(s, event), idx');
      DeliveryPays(s);
    } else {
      HeartbeatPays(s, idx, event.now);
    }
    hide Coherent, Enabled, Apply, Ping, Owed, Debt;
  }

  lemma {:induction false} BeatsPay(s: System, idx: seq<nat>, events: seq<Event>) returns (idx': seq<nat>)
    requires Coherent(s, idx) && Admissible(s, events) && HealingRun(s, events) && StaysHeard(s, events)
    ensures Run(s, events).sent == s.sent && Coherent(Run(s, events), idx')
    ensures Owed(Run(s, events)) <= Owed(s) - Beats(s, events) || Owed(Run(s, events)) == 0
    decreases events
  {
    hide Enabled, Healing, Owed, Beat;
    if events == [] {
      idx' := idx;
    } else {
      var t := Apply(s, events[0]);
      HealingPays(s, idx, events[0]);
      idx' := StepKeeps(s, idx, events[0]);
      OwedExactly(s, idx);
      OwedExactly(t, idx');
      hide Coherent, Apply;
      idx' := BeatsPay(t, idx', events[1..]);
      OwedExactly(Run(t, events[1..]), idx');
    }
  }

  /** A run that leaves the range of hearing once never settles again. */
  lemma {:induction false} UnheardNeverSettles(s: System, idx: seq<nat>, events: seq<Event>)
    requires Coherent(s, idx) && Admissible(s, events) && NewestRun(s, events) && !StaysHeard(s, events)
    ensures !Settled(Run(s, events))
    decreases events
  {
    hide Enabled, Apply, ReportsNewest;
    if Ahead(s) > HEARD_AHEAD {
      NeverHeardAgain(s, idx, events);
    } else {
      var idx' := StepKeeps(s, idx, events[0]);
      hide Coherent;
      UnheardNeverSettles(Apply(s, events[0]), idx', events[1..]);
    }
  }

  /** With at most 56 frames outstanding no healing run leaves the range. */
  lemma {:induction false} SmallWindowStaysHeard(s: System, idx: seq<nat>, events: seq<Event>)
    requires Coherent(s, idx) && |s.link.window| <= HEARD_AHEAD && Admissible(s, events) && HealingRun(s, events)
    ensures StaysHeard(s, events)
    decreases events
  {
    AheadHolds(s, idx);
    if events != [] {
      HealingPays(s, idx, events[0]);
      var idx' := StepKeeps(s, idx, events[0]);
      HealingFrees(s, idx, events[0]);
      hide Coherent, Enabled, Apply, Healing;
      SmallWindowStaysHeard(Apply(s, events[0]), idx', events[1..]);
    }
  }

  lemma HealingFrees(s: System, idx: seq<nat>, event: Event)
    requires Coherent(s, idx) && Ahead(s) <= HEARD_AHEAD && Enabled(s, event) && Healing(s, event)
    ensures |Apply(s, event).link.window| <= |s.link.window|
  {
    if event != Deliver {
      LiveHeartbeat(s, idx, event.now);
    }
    hide Coherent, Enabled, ClientReceive, HandleBody, Encode;
  }

  /** Every run of deliveries and live heartbeats, in any order, with as many beats
      as payloads and acknowledgements are owed: it settles exactly when the client
      stays within hearing all along, as it must with at most 56 frames outstanding. */
  lemma EveryHealingRun(s: System, idx: seq<nat>, events: seq<Event>)
    requires Coherent(s, idx) && Admissible(s, events) && HealingRun(s, events)
    requires Beats(s, events) >= Debt(s)
    ensures Settled(Run(s, events)) <==> StaysHeard(s, events)
    ensures |s.link.window| <= HEARD_AHEAD ==> Settled(Run(s, events))
  {
    if |s.link.window| <= HEARD_AHEAD {
      SmallWindowStaysHeard(s, idx, events);
    }
    if StaysHeard(s, events) {
      OwedExactly(s, idx);
      var idx' := BeatsPay(s, idx, events);
      OwedExactly(Run(s, events), idx');
    } else {
      HealingIsNewest(s, events);
      UnheardNeverSettles(s, idx, events);
    }
  }

  // ------------------------------------------------------------- rejections

  /** A rejection, with any sequence numbers whatever. */
  function Nak(sendSeq: Byte, recvSeq: Byte): Event
  {
    Hear(Encode(HABITAT_NAK, sendSeq, recvSeq, []), 0)
  }

  /** After a rejection with an empty channel, the very next delivery is the
      payload the client is waiting for. */
  lemma NakEffect(s: System, idx: seq<nat>, nak: Event, sendSeq: Byte, recvSeq: Byte)
    requires Coherent(s, idx) && s.channel == [] && Acked(s) == |s.client.accepted| < |s.sent|
    requires nak == Nak(sendSeq, recvSeq)
    ensures Admissible(s, [nak, Deliver])
    ensures var t := Run(s, [nak, Deliver]);
            t.sent == s.sent && t.client.accepted == s.sent[..|s.client.accepted| + 1] && Acked(t) == Acked(s)
  {
    var k, t := Acked(s) + 1, Apply(s, nak);
    NakResends(s, sendSeq, recvSeq);
    NakInFlight(s, idx, t);
    hide Coherent, Enabled, Apply, HandleBody, Admissible, Run;
    DeliverNext(t, [k], k);
    TwoSteps(s, nak, Deliver);
  }

  lemma NakInFlight(s: System, idx: seq<nat>, t: System)
    requires Coherent(s, idx) && s.link.window != [] && s.channel == []
    requires t.sent == s.sent && t.client == s.client
    requires t.channel == [Refresh(s.link.window[0].frame, s.link.inSeq)]
    requires t.link.window == s.link.window && t.link.outSeq == s.link.outSeq && t.link.lastRecv == s.link.lastRecv
    ensures Coherent(t, [Acked(s) + 1])
  {
    hide Encode, Decode, Refresh, SeqAt, Holds, Carries, IsAction;
    RefreshedHead(s.link, s.sent, Acked(s));
    assert Tagged(t.channel[0], Acked(s) + 1, s.sent);
  }

  lemma TwoSteps(s: System, first: Event, second: Event)
    requires Enabled(s, first) && Enabled(Apply(s, first), second)
    ensures Admissible(s, [first, second])
    ensures Run(s, [first, second]) == Apply(Apply(s, first), second)
  {
    hide Enabled, Apply;
    OneStep(Apply(s, first), second);
    assert [first, second][1..] == [second];
  }

  lemma OneStep(s: System, event: Event)
    requires Enabled(s, event)
    ensures Admissible(s, [event]) && Run(s, [event]) == Apply(s, event)
  {
    hide Enabled, Apply;
    assert [event][1..] == [];
    assert Admissible(Apply(s, event), []) && Run(Apply(s, event), []) == Apply(s, event);
  }

  lemma NakResends(s: System, sendSeq: Byte, recvSeq: Byte)
    requires s.link.window != [] && s.channel == []
    ensures Enabled(s, Nak(sendSeq, recvSeq))
    ensures var t := Apply(s, Nak(sendSeq, recvSeq));
            && t.channel == [Refresh(s.link.window[0].frame, s.link.inSeq)]
            && t.sent == s.sent && t.client == s.client && Acked(t) == Acked(s)
            && t.link.window == s.link.window && t.link.outSeq == s.link.outSeq && t.link.lastRecv == s.link.lastRecv
  {
    DecodeEncode(HABITAT_NAK, sendSeq, recvSeq, []);
    hide Encode, Decode, Refresh, SeqAt;
    assert !AsksForSync(Nak(sendSeq, recvSeq).body);
  }

  lemma {:induction false} RunAppend(s: System, a: seq<Event>, b: seq<Event>)
    requires Admissible(s, a) && Admissible(Run(s, a), b)
    ensures Admissible(s, a + b) && Run(s, a + b) == Run(Run(s, a), b)
    decreases a
  {
    hide Enabled, Apply;
    if a == [] {
      assert a + b == b;
    } else {
      assert (a + b)[1..] == a[1..] + b;
      RunAppend(Apply(s, a[0]), a[1..], b);
    }
  }

  // ------------------------------------------------------------ the dichotomy

  /** Live reports settle what was sent exactly when the client is at most half the
      span ahead of the last acknowledgement heard; otherwise the link is wedged. */
  lemma RecoversExactly(s: System, idx: seq<nat>)
    requires Coherent(s, idx)
    ensures Recoverable(s) <==> Ahead(s) <= HEARD_AHEAD
    ensures Wedged(s) <==> Ahead(s) > HEARD_AHEAD
  {
    if Ahead(s) > HEARD_AHEAD {
      AheadIsWedged(s, idx);
      hide Coherent, Enabled;
      forall events | Admissible(s, events) && NewestRun(s, events) ensures !Settled(Run(s, events)) {
        NeverHeardAgain(s, idx, events);
      }
    } else {
      var events := Recovers(s, idx);
      hide Coherent, Enabled;
      HealingIsNewest(s, events);
      assert Run(s, events).sent == s.sent && Settled(Run(s, events));
    }
  }

  /** After every run from a Reset, whatever was lost, corrupted or rejected: the
      link can still be settled by live reports or is wedged, by one test. */
  lemma RunSettlesOrWedges(s: System, events: seq<Event>)
    requires Start(s) && Admissible(s, events)
    ensures var t := Run(s, events);
            && (Recoverable(t) <==> Ahead(t) <= HEARD_AHEAD)
            && (Wedged(t) <==> Ahead(t) > HEARD_AHEAD)
  {
    hide Start, Enabled, Apply, Wedged, Recoverable;
    StartCoherent(s);
    var idx := RunKeeps(s, NoPayloads(|s.channel|), events);
    RecoversExactly(Run(s, events), idx);
  }

  /** A window of 56 frames instead of 64 would never wedge. */
  lemma SmallWindowRecovers(s: System, idx: seq<nat>)
    requires Coherent(s, idx) && |s.link.window| <= HEARD_AHEAD
    ensures Recoverable(s)
  {
    AheadHolds(s, idx);
    hide Coherent, Recoverable, Wedged;
    RecoversExactly(s, idx);
  }
}
