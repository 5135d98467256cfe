/** What the packets of a sweep tell the client, read by the client's own rules. */
module RegionClient {
  import opened Bits
  import opened ContainerGraph
  import opened HabitatPackets
  import opened ObjectTable

  /** The noids a client holds after a packet: a message to the region with request 9
      makes it forget the noid in its first argument. */
  function Forgets(held: set<Byte>, packet: seq<Byte>): set<Byte>
  {
    if |packet| < 5 then held
    else
      var m := ParsePacket(packet);
      if m.noid == 0 && m.reqNum == 9 then held - {m.args[0]} else held
  }

  function ForgetsAll(held: set<Byte>, packets: seq<seq<Byte>>): set<Byte>
    decreases packets
  {
    if packets == [] then held else ForgetsAll(Forgets(held, packets[0]), packets[1..])
  }

  /** A GOAWAY is one whole message to the region with the noid as its argument. */
  lemma GoAwayReads(n: Byte)
    ensures |GoAway(n)| == 5 && GoAway(n)[0] == 0x55
    ensures ParsePacket(GoAway(n)) == HabitatMessage(10, true, true, 0, 9, [n])
  {
    FieldsExactly(GoAway(n));
    assert GoAway(n)[4..] == [n];
  }

  lemma {:induction false} ForgetsLog(held: set<Byte>, log: seq<Byte>)
    ensures ForgetsAll(held, GoAways(log)) == held - Elems(log)
    decreases log
  {
    if log == [] {
      assert held - {} == held;
    } else {
      GoAwayReads(log[0]);
      hide GoAway, ParsePacket;
      assert GoAways(log)[0] == GoAway(log[0]) && GoAways(log)[1..] == GoAways(log[1..]);
      ForgetsLog(held - {log[0]}, log[1..]);
      assert Elems(log) == {log[0]} + Elems(log[1..]) by {
        assert log == [log[0]] + log[1..];
      }
    }
  }

  /** The client that held what the table held holds what it holds after the packets of
      a sweep or of one cut short. */
  lemma ClientFollows<V>(before: map<Byte, V>, log: seq<Byte>)
    ensures ForgetsAll(before.Keys, GoAways(log)) == (before - Elems(log)).Keys
  {
    ForgetsLog(before.Keys, log);
  }

  /** The packets of a sweep make the client forget exactly the start and what is
      inside it. */
  lemma SweepForgets(up: Containers, start: Byte, log: seq<Byte>, held: set<Byte>)
    requires IsSweep(up, start, log)
    ensures ForgetsAll(held, GoAways(log)) == held - (Within(up, start) + {start})
  {
    ForgetsLog(held, log);
    hide Within;
    assert Elems(log) == Within(up, start) + {start};
  }

  /** At no time has the client forgotten an object other than the start while it still
      holds its container, whether the sweep gets through or is cut short. */
  lemma ContainersForgottenFirst(up: Containers, start: Byte, log: seq<Byte>, held: set<Byte>, m: nat)
    requires (IsSweep(up, start, log) || IsCut(up, start, log)) && m <= |log|
    ensures var now := ForgetsAll(held, GoAways(log)[..m]);
            forall x | x in held && x !in now && x != start :: x in up && up[x] !in now
  {
    assert GoAways(log)[..m] == GoAways(log[..m]);
    ForgetsLog(held, log[..m]);
    hide Within, ForgetsAll;
    forall x | x in Elems(log[..m]) && x != start ensures x in up && up[x] in Elems(log[..m]) {
      var i :| 0 <= i < m && log[i] == x;
      assert i > 0 && up[log[i]] in log[..i];
    }
  }

  /** After a whole sweep nothing the client still holds is in a container that the
      sweep made it forget. */
  lemma NothingStranded(up: Containers, start: Byte, log: seq<Byte>, held: set<Byte>, x: Byte)
    requires IsSweep(up, start, log)
    requires x in ForgetsAll(held, GoAways(log)) && x in up && up[x] in held
    ensures up[x] in ForgetsAll(held, GoAways(log))
  {
    SweepForgets(up, start, log, held);
    hide Within, ForgetsAll, IsSweep;
    if up[x] in Within(up, start) + {start} {
      NoOrphans(up, start, x);
      assert false;
    }
  }
}
