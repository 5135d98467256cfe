/** The client's own Actions on their way to the Habitat layer: the bridge takes every
    valid one as it comes, and acknowledges the number of the last. */
module QLinkInbound {
  import opened Bits
  import opened Options
  import opened QLinkCodec
  import opened QLinkSession
  import opened QLinkArq
  import opened QLinkFraming

  /** The bodies a run hands to the Habitat layer, in order. */
  function HandedUp(link: Link, events: seq<LinkEvent>): seq<seq<Byte>>
    decreases events
  {
    if events == [] then []
    else
      var e := Step(link, events[0]);
      (match e.delivered case None => [] case Some(body) => [body]) + HandedUp(e.link, events[1..])
  }

  predicate HabitatPayload(payload: seq<Byte>)
  {
    |payload| >= 2 && payload[0] == HABITAT_MNEMONIC
  }

  predicate AllHabitat(sent: seq<seq<Byte>>)
  {
    forall p | p in sent :: HabitatPayload(p)
  }

  /** The client's k-th Action arrives; 0 stands for anything else, save a Reset and
      Actions. */
  predicate Arrives(event: LinkEvent, k: nat, sent: seq<seq<Byte>>)
  {
    if k == 0 then
      event.Heard? && Decode(event.body).Valid? ==> Decode(event.body).frame.cmd !in {CMD_RESET, CMD_ACTION}
    else
      k <= |sent| && event.Heard? && Carries(event.body, k, sent[k - 1])
  }

  predicate Arrivals(events: seq<LinkEvent>, tags: seq<nat>, sent: seq<seq<Byte>>)
  {
    |events| == |tags| && forall i | 0 <= i < |tags| :: Arrives(events[i], tags[i], sent)
  }

  /** The Actions among the arrivals. */
  function Actions(tags: seq<nat>): (ks: seq<nat>)
    decreases tags
  {
    if tags == [] then [] else (if tags[0] == 0 then [] else [tags[0]]) + Actions(tags[1..])
  }

  predicate InRange(ks: seq<nat>, n: nat)
  {
    forall i | 0 <= i < |ks| :: 1 <= ks[i] <= n
  }

  function Picked(sent: seq<seq<Byte>>, ks: seq<nat>): seq<seq<Byte>>
    requires InRange(ks, |sent|)
  {
    seq(|ks|, i requires 0 <= i < |ks| => sent[ks[i] - 1])
  }

  function PayloadOf(body: seq<Byte>): seq<Byte>
  {
    match Decode(body) case Valid(f) => f.payload case _ => []
  }

  function Payloads(bodies: seq<seq<Byte>>): seq<seq<Byte>>
  {
    seq(|bodies|, i requires 0 <= i < |bodies| => PayloadOf(bodies[i]))
  }

  function LastOf(ks: seq<nat>): nat
    requires ks != []
  {
    ks[|ks| - 1]
  }

  lemma ActionTaken(link: Link, event: LinkEvent, k: nat, sent: seq<seq<Byte>>)
    requires k > 0 && Arrives(event, k, sent) && AllHabitat(sent)
    ensures Step(link, event).delivered == Some(event.body) && PayloadOf(event.body) == sent[k - 1]
    ensures Step(link, event).link.inSeq == SeqAt(k)
  {
    assert sent[k - 1] in sent;
    CarriesDecodes(event.body, k, sent[k - 1]);
    hide Encode, Decode, ProcessAck, Carries;
  }

  lemma OtherPasses(link: Link, event: LinkEvent, sent: seq<seq<Byte>>)
    requires Arrives(event, 0, sent)
    ensures Step(link, event).delivered == None && Step(link, event).link.inSeq == link.inSeq
  {
    hide Encode, Decode, Refresh, FreeAcked, SeqForward, Trim;
  }

  lemma ArrivalsTail(events: seq<LinkEvent>, tags: seq<nat>, sent: seq<seq<Byte>>)
    requires Arrivals(events, tags, sent) && tags != []
    ensures Arrives(events[0], tags[0], sent) && Arrivals(events[1..], tags[1..], sent)
  {
    hide Arrives;
  }

  lemma PickedCons(sent: seq<seq<Byte>>, k: nat, ks: seq<nat>, body: seq<Byte>, bodies: seq<seq<Byte>>)
    requires 1 <= k <= |sent| && InRange(ks, |sent|)
    requires PayloadOf(body) == sent[k - 1] && Payloads(bodies) == Picked(sent, ks)
    ensures InRange([k] + ks, |sent|) && Payloads([body] + bodies) == Picked(sent, [k] + ks)
  {
    hide PayloadOf;
    var p, q := Payloads([body] + bodies), Picked(sent, [k] + ks);
    assert |bodies| == |Payloads(bodies)| == |ks|;
    forall i | 0 <= i < |p| ensures p[i] == q[i] {
      if i > 0 {
        assert p[i] == Payloads(bodies)[i - 1] && q[i] == Picked(sent, ks)[i - 1];
      }
    }
  }

  /** Whatever the numbers and whatever is sent meanwhile, the bridge hands up the
      Actions that arrive as they arrive, and acknowledges the last. */
  lemma {:induction false} HandsUpArrivals(link: Link, events: seq<LinkEvent>, tags: seq<nat>, sent: seq<seq<Byte>>)
    requires Arrivals(events, tags, sent) && AllHabitat(sent)
    ensures InRange(Actions(tags), |sent|)
    ensures Payloads(HandedUp(link, events)) == Picked(sent, Actions(tags))
    ensures LinkAfter(link, events).inSeq
         == if Actions(tags) == [] then link.inSeq else SeqAt(LastOf(Actions(tags)))
    decreases events
  {
    hide Step, PayloadOf, Picked, SeqAt, AllHabitat, Payloads, InRange, Carries;
    if events == [] {
      PickedNone(sent);
    } else {
      ArrivalsTail(events, tags, sent);
      hide Arrivals;
      var e := Step(link, events[0]);
      HandsUpArrivals(e.link, events[1..], tags[1..], sent);
      var ks := Actions(tags[1..]);
      if tags[0] == 0 {
        OtherPasses(link, events[0], sent);
        assert [] + HandedUp(e.link, events[1..]) == HandedUp(e.link, events[1..]) && [] + ks == ks;
      } else {
        ActionTaken(link, events[0], tags[0], sent);
        PickedCons(sent, tags[0], ks, events[0].body, HandedUp(e.link, events[1..]));
        assert LastOf([tags[0]] + ks) == if ks == [] then tags[0] else LastOf(ks);
      }
    }
  }

  lemma PickedNone(sent: seq<seq<Byte>>)
    ensures InRange([], |sent|) && Payloads([]) == [] == Picked(sent, [])
  {
  }

  // ------------------------------------------------------ in order and once

  function UpTo(n: nat): seq<nat>
  {
    seq(n, i => i + 1)
  }

  /** Payloads all of which differ. */
  function Distinct(n: nat): (sent: seq<seq<Byte>>)
    ensures |sent| == n && AllHabitat(sent)
    ensures forall i, j | 0 <= i < j < n :: sent[i] != sent[j]
  {
    var sent: seq<seq<Byte>> := seq(n, i requires 0 <= i < n => [HABITAT_MNEMONIC] + seq(i + 1, k => 0));
    assert forall i | 0 <= i < n :: |sent[i]| == i + 2;
    sent
  }

  /** What is handed up is what the client sent, in order and once, whatever it sent,
      exactly when its Actions arrive in order, each once. */
  lemma OnceInOrder(ks: seq<nat>, n: nat)
    requires InRange(ks, n)
    ensures (forall sent: seq<seq<Byte>> | |sent| == n && AllHabitat(sent) :: Picked(sent, ks) == sent)
            <==> ks == UpTo(n)
  {
    hide AllHabitat;
    if ks == UpTo(n) {
      forall sent: seq<seq<Byte>> | |sent| == n && AllHabitat(sent) ensures Picked(sent, ks) == sent {
        assert forall i | 0 <= i < n :: Picked(sent, ks)[i] == sent[i];
      }
    }
    if forall sent: seq<seq<Byte>> | |sent| == n && AllHabitat(sent) :: Picked(sent, ks) == sent {
      var sent := Distinct(n);
      assert Picked(sent, ks) == sent;
      PickedOwn(sent, ks);
    }
  }

  lemma PickedOwn(sent: seq<seq<Byte>>, ks: seq<nat>)
    requires InRange(ks, |sent|) && Picked(sent, ks) == sent
    requires forall i, j | 0 <= i < j < |sent| :: sent[i] != sent[j]
    ensures ks == UpTo(|sent|)
  {
    assert |Picked(sent, ks)| == |ks|;
    forall i | 0 <= i < |sent| ensures ks[i] == i + 1 {
      assert Picked(sent, ks)[i] == sent[ks[i] - 1];
    }
  }

  /** The acknowledgement covers only Actions that have arrived. */
  ghost predicate TrueAck(ks: seq<nat>)
  {
    ks != [] ==> forall j | 1 <= j <= LastOf(ks) :: j in ks
  }

  /** No Action arrives before an earlier one. */
  ghost predicate NoGaps(ks: seq<nat>)
  {
    forall i | 0 <= i < |ks| :: Ready(ks, i)
  }

  ghost predicate Ready(ks: seq<nat>, i: nat)
    requires i < |ks|
  {
    forall j | 1 <= j < ks[i] :: j in ks[..i]
  }

  lemma AckTrueExactly(ks: seq<nat>)
    requires 0 !in ks
    ensures (forall m | 0 <= m <= |ks| :: TrueAck(ks[..m])) <==> NoGaps(ks)
  {
    forall i | 0 <= i < |ks| ensures TrueAck(ks[..i + 1]) <==> Ready(ks, i) {
      var now := ks[..i + 1];
      assert now == ks[..i] + [ks[i]] && LastOf(now) == ks[i];
      assert forall j :: j in now <==> j in ks[..i] || j == ks[i];
    }
    hide TrueAck, Ready;
    if NoGaps(ks) {
      forall m | 0 <= m <= |ks| ensures TrueAck(ks[..m]) {
        if m == 0 {
          NoAck();
        } else {
          assert Ready(ks, m - 1);
        }
      }
    }
  }

  lemma NoAck()
    ensures TrueAck([])
  {
  }

  /** A lost first Action is acknowledged by the second and never handed up. */
  lemma LostIsAcknowledged(link: Link, first: seq<Byte>, second: seq<Byte>, recvSeq: Byte, now: nat)
    requires HabitatPayload(first) && HabitatPayload(second)
    ensures var skipped := [Heard(Encode(CMD_ACTION, SeqAt(2), recvSeq, second), now)];
            Payloads(HandedUp(link, skipped)) == [second] && LinkAfter(link, skipped).inSeq == SeqAt(2)
  {
    var sent := [first, second];
    var e := Heard(Encode(CMD_ACTION, SeqAt(2), recvSeq, second), now);
    EncodedCarries(2, recvSeq, second);
    hide Encode, SeqAt, Carries, HabitatPayload, HandedUp, LinkAfter;
    assert Arrives(e, 2, sent);
    assert [2][1..] == [] && Actions([2]) == [2];
    HandsUpArrivals(link, [e], [2], sent);
    assert Picked(sent, [2]) == [second];
  }

  /** One that is sent again is handed up again. */
  lemma RepeatedIsHandedUp(link: Link, first: seq<Byte>, recvSeq: Byte, now: nat)
    requires HabitatPayload(first)
    ensures var again := Heard(Encode(CMD_ACTION, SeqAt(1), recvSeq, first), now);
            Payloads(HandedUp(link, [again, again])) == [first, first]
  {
    var sent := [first];
    var a := Heard(Encode(CMD_ACTION, SeqAt(1), recvSeq, first), now);
    EncodedCarries(1, recvSeq, first);
    hide Encode, SeqAt, Carries, HabitatPayload, HandedUp, LinkAfter;
    assert Arrives(a, 1, sent);
    assert [1, 1][1..] == [1] && [1][1..] == [] && Actions([1]) == [1] && Actions([1, 1]) == [1, 1];
    HandsUpArrivals(link, [a, a], [1, 1], sent);
    assert Picked(sent, [1, 1]) == [first, first];
  }
}
