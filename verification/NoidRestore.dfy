/** The burst of `make` messages after a restart: the server has numbered the
    region's objects afresh while the client still holds the old numbers. */
module NoidRestore {
  import opened Bits
  import opened Options
  import opened ObjectTable
  import opened RegionRuns

  type Storm = seq<Arrival>

  /** The client's noids by ref, from the snapshot. */
  type Saved = map<string, Byte>

  /** Messages about unassigned noids are passed over. */
  predicate Live(a: Arrival)
  {
    a.make.noid != Some(UNASSIGNED_NOID)
  }

  predicate Kept(a: Arrival)
  {
    Live(a) && a.make.supported
  }

  function Server(a: Arrival): Byte
  {
    ElkoNoid(a.make)
  }

  /** The noid by which the client knows the object: the saved one, or the server's
      if the object is new. */
  function Client(saved: Saved, a: Arrival): Byte
  {
    if a.make.ref in saved then saved[a.make.ref] else Server(a)
  }

  /** The server numbers and names each object once. */
  ghost predicate Numbered(storm: Storm)
  {
    forall i, j | 0 <= i < j < |storm| && Live(storm[i]) && Live(storm[j]) ::
      Server(storm[i]) != Server(storm[j]) && storm[i].make.ref != storm[j].make.ref
  }

  datatype Replay = Replay(table: Table, restore: Restore)

  /** The session after a storm. */
  ghost function After(saved: Saved, storm: Storm): Replay
    decreases |storm|
  {
    if storm == [] then
      Replay(EMPTY, Restore(true, saved, map[]))
    else
      var s := After(saved, storm[..|storm| - 1]);
      var u := Arrive(s.table, s.restore, storm[|storm| - 1]);
      Replay(u.table, u.restore)
  }

  lemma NumberedPrefix(storm: Storm, n: nat)
    requires Numbered(storm) && n <= |storm|
    ensures Numbered(storm[..n])
  {
  }

  // ------------------------------------------------------- nested noid fields

  ghost predicate NumberedAs(storm: Storm, i: nat, v: Byte)
  {
    i < |storm| && Live(storm[i]) && Server(storm[i]) == v
  }

  /** What the client calls the object that the server calls v, as far as the storm
      has told. */
  ghost function ClientSide(saved: Saved, storm: Storm, v: Byte): Byte
  {
    if exists i: nat :: NumberedAs(storm, i, v) then
      var i: nat :| NumberedAs(storm, i, v);
      Client(saved, storm[i])
    else v
  }

  lemma ClientSideOf(saved: Saved, storm: Storm, i: nat)
    requires Numbered(storm) && i < |storm| && Live(storm[i])
    ensures ClientSide(saved, storm, Server(storm[i])) == Client(saved, storm[i])
  {
    assert NumberedAs(storm, i, Server(storm[i]));
  }

  lemma ClientSideLast(saved: Saved, storm: Storm, v: Byte)
    requires Numbered(storm) && storm != []
    ensures var last := storm[|storm| - 1];
            ClientSide(saved, storm, v) ==
            if Live(last) && Server(last) == v then Client(saved, last) else ClientSide(saved, storm[..|storm| - 1], v)
  {
    var k := |storm| - 1;
    if NumberedAs(storm, k, v) {
      ClientSideOf(saved, storm, k);
    } else if i: nat :| NumberedAs(storm, i, v) {
      NumberedPrefix(storm, k);
      ClientSideOf(saved, storm, i);
      ClientSideOf(saved, storm[..k], i);
    } else {
      assert forall i: nat | i < k :: storm[..k][i] == storm[i];
      assert forall i: nat :: NumberedAs(storm[..k], i, v) ==> NumberedAs(storm, i, v);
    }
  }

  /** The rewriting table translates every server noid met so far to the client's,
      and no other noid to anything. */
  lemma {:induction false} TranslatesExactly(saved: Saved, storm: Storm, v: Byte)
    requires Numbered(storm)
    ensures var r := After(saved, storm).restore;
            r.active && r.saved == saved && Translate(r, v) == ClientSide(saved, storm, v)
    decreases |storm|
  {
    if storm == [] {
      assert forall i: nat :: !NumberedAs(storm, i, v);
    } else {
      var k := |storm| - 1;
      NumberedPrefix(storm, k);
      TranslatesExactly(saved, storm[..k], v);
      ClientSideLast(saved, storm, v);
      hide ClientSide;
      var r, last := After(saved, storm[..k]).restore, storm[k];
      assert ClientNoid(r, last.make) == Client(saved, last);
      if Live(last) && Server(last) == v {
        NotYetNumbered(saved, storm[..k], v);
      }
    }
  }

  /** Nothing is rewritten before it is met. */
  lemma {:induction false} NotYetNumbered(saved: Saved, storm: Storm, v: Byte)
    requires forall i: nat :: !NumberedAs(storm, i, v)
    ensures v !in After(saved, storm).restore.elkoToSaved
    decreases |storm|
  {
    if storm != [] {
      var k := |storm| - 1;
      forall i: nat ensures !NumberedAs(storm[..k], i, v) {
        assert !NumberedAs(storm, i, v);
      }
      NotYetNumbered(saved, storm[..k], v);
      assert !NumberedAs(storm, k, v);
    }
  }

  lemma ArriveOutcome(t: Table, r: Restore, a: Arrival)
    requires Kept(a)
    ensures var u, m := Arrive(t, r, a), a.make;
            u.outcome == Tracked(ClientNoid(r, m), TranslateField(u.restore, m.sittingIn),
                                 TranslateField(u.restore, m.restrainer), TranslateWide(u.restore, m.wisher))
  {
    hide Seated, Learn, ContainerNoid, ClientNoid, TranslateField, TranslateWide;
  }

  /** A field naming another object of the storm comes out naming the same object
      to the client exactly when that object was already met or kept its number. */
  lemma NestedField(saved: Saved, storm: Storm, i: nat, j: nat)
    requires Numbered(storm) && i < |storm| && j < |storm| && Kept(storm[i]) && Live(storm[j])
    ensures var before := After(saved, storm[..i]);
            var o := Arrive(before.table, before.restore, storm[i]).outcome;
            var m, named, meant := storm[i].make, Server(storm[j]), Client(saved, storm[j]);
            var faithful := j <= i || meant == named;
            && o.Tracked? && o.noid == Client(saved, storm[i])
            && (m.sittingIn == Some(named) ==> (o.sittingIn == Some(meant) <==> faithful))
            && (m.restrainer == Some(named) ==> (o.restrainer == Some(meant) <==> faithful))
            && (m.wisher == Some(named) ==> (o.wisher == Some(meant) <==> faithful))
  {
    var upTo, named := storm[..i + 1], Server(storm[j]);
    assert upTo[..i] == storm[..i];
    NumberedPrefix(storm, i);
    NumberedPrefix(storm, i + 1);
    TranslatesExactly(saved, storm[..i], named);
    TranslatesExactly(saved, upTo, named);
    if j <= i {
      ClientSideOf(saved, upTo, j);
    } else {
      assert forall k: nat :: !NumberedAs(upTo, k, named);
    }
    ArriveOutcome(After(saved, storm[..i]).table, After(saved, storm[..i]).restore, storm[i]);
    hide ClientSide, Numbered, NumberedAs, Arrive;
  }

  // ------------------------------------------------------------- the table

  ghost predicate NamedAs(storm: Storm, i: nat, ref: string)
  {
    i < |storm| && Kept(storm[i]) && storm[i].make.ref == ref
  }

  lemma ArriveNames(t: Table, r: Restore, a: Arrival)
    ensures var u, n := Arrive(t, r, a).table, ClientNoid(r, a.make);
            && u.refToNoid == (if Kept(a) then t.refToNoid[a.make.ref := n] else t.refToNoid)
            && u.objects.Keys == (if Kept(a) then t.objects.Keys + {n} else t.objects.Keys)
  {
    hide Learn, ClientNoid, ContainerNoid, TranslateField, TranslateWide, Seated;
  }

  /** What the last message of a storm adds to the names. */
  lemma LastNames(saved: Saved, storm: Storm)
    requires Numbered(storm) && storm != []
    ensures var k := |storm| - 1;
            var t, before, n := After(saved, storm).table, After(saved, storm[..k]).table, Client(saved, storm[k]);
            && t.refToNoid == (if Kept(storm[k]) then before.refToNoid[storm[k].make.ref := n] else before.refToNoid)
            && t.objects.Keys == (if Kept(storm[k]) then before.objects.Keys + {n} else before.objects.Keys)
  {
    var k := |storm| - 1;
    NumberedPrefix(storm, k);
    TranslatesExactly(saved, storm[..k], 0);
    hide Numbered, ClientSide, Arrive;
    ArriveNames(After(saved, storm[..k]).table, After(saved, storm[..k]).restore, storm[k]);
  }

  lemma {:induction false} RefsKnown(saved: Saved, storm: Storm, ref: string)
    requires Numbered(storm)
    ensures var refs := After(saved, storm).table.refToNoid;
            && (ref in refs <==> exists i: nat :: NamedAs(storm, i, ref))
            && forall i: nat | NamedAs(storm, i, ref) :: ref in refs && refs[ref] == Client(saved, storm[i])
    decreases |storm|
  {
    if storm != [] {
      var k := |storm| - 1;
      NumberedPrefix(storm, k);
      RefsKnown(saved, storm[..k], ref);
      LastNames(saved, storm);
      hide Numbered, After;
      assert NamedAs(storm, k, ref) <==> Kept(storm[k]) && storm[k].make.ref == ref;
      forall i: nat
        ensures NamedAs(storm, i, ref) <==> NamedAs(storm[..k], i, ref) || (i == k && NamedAs(storm, k, ref))
      {
      }
    }
  }

  /** Every saved object comes back under its saved noid. */
  lemma SavedRefsReturn(saved: Saved, storm: Storm, i: nat)
    requires Numbered(storm) && i < |storm| && Kept(storm[i]) && storm[i].make.ref in saved
    ensures var t := After(saved, storm).table;
            storm[i].make.ref in t.refToNoid && t.refToNoid[storm[i].make.ref] == saved[storm[i].make.ref]
  {
    RefsKnown(saved, storm, storm[i].make.ref);
    assert NamedAs(storm, i, storm[i].make.ref);
  }

  /** No two kept objects get one client noid. */
  ghost predicate Separate(saved: Saved, storm: Storm)
  {
    forall i, j | 0 <= i < j < |storm| && Kept(storm[i]) && Kept(storm[j]) ::
      Client(saved, storm[i]) != Client(saved, storm[j])
  }

  /** A new object is numbered with the noid of a returning one. */
  ghost predicate Usurps(saved: Saved, storm: Storm, i: nat, j: nat)
  {
    && i < |storm| && j < |storm| && Kept(storm[i]) && Kept(storm[j])
    && storm[i].make.ref !in saved && storm[j].make.ref in saved && Server(storm[i]) == saved[storm[j].make.ref]
  }

  /** Client noids collide in that one way only. */
  lemma SeparateUnlessUsurped(saved: Saved, storm: Storm)
    requires Numbered(storm)
    requires forall r, q | r in saved && q in saved && r != q :: saved[r] != saved[q]
    ensures Separate(saved, storm) <==> forall i: nat, j: nat :: !Usurps(saved, storm, i, j)
  {
    if i: nat, j: nat :| Usurps(saved, storm, i, j) {
      assert Client(saved, storm[i]) == Client(saved, storm[j]) && i != j;
    } else {
      forall i, j | 0 <= i < j < |storm| && Kept(storm[i]) && Kept(storm[j])
        ensures Client(saved, storm[i]) != Client(saved, storm[j])
      {
        assert !Usurps(saved, storm, i, j) && !Usurps(saved, storm, j, i);
      }
    }
  }

  /** The kept objects known so far are those under their client noids. */
  lemma {:induction false} NoidsKnown(saved: Saved, storm: Storm, n: Byte)
    requires Numbered(storm)
    ensures n in After(saved, storm).table.objects <==>
            exists i: nat | i < |storm| :: Kept(storm[i]) && Client(saved, storm[i]) == n
    decreases |storm|
  {
    if storm != [] {
      var k := |storm| - 1;
      NumberedPrefix(storm, k);
      NoidsKnown(saved, storm[..k], n);
      LastNames(saved, storm);
      hide Numbered, After;
      assert forall i: nat | i < k :: storm[..k][i] == storm[i];
      assert n in After(saved, storm).table.objects <==> n in After(saved, storm).table.objects.Keys;
    }
  }

  lemma ArriveBijective(t: Table, r: Restore, a: Arrival)
    ensures var t' := Arrive(t, r, a).table;
            var isNew := ClientNoid(r, a.make) !in t.objects && a.make.ref !in t.refToNoid;
            && (!Kept(a) ==> t' == t)
            && (Kept(a) && Bijective(t) && isNew ==> Bijective(t'))
            && (Kept(a) && (!NoDups(t.order) || ClientNoid(r, a.make) in t.order) ==> !NoDups(t'.order))
  {
    if Kept(a) {
      var noid := ClientNoid(r, a.make);
      var entry := Entry(a.make.ref, ContainerNoid(t, a.containerRef), a.make.y);
      OrderGrows(t.order, noid);
      if Bijective(t) {
        InsertBijective(t, noid, entry);
      }
    }
  }

  lemma OrderGrows(order: seq<Byte>, noid: Byte)
    ensures NoDups(order + [noid]) <==> NoDups(order) && noid !in order
  {
    var grown := order + [noid];
    assert forall i | 0 <= i < |order| :: grown[i] == order[i];
    assert grown[|order|] == noid;
  }

  /** The restored table is a bijection exactly when no two objects got one noid. */
  lemma {:induction false} RestoredBijective(saved: Saved, storm: Storm)
    requires Numbered(storm)
    ensures Bijective(After(saved, storm).table) <==> Separate(saved, storm)
    ensures Separate(saved, storm) || !NoDups(After(saved, storm).table.order)
    decreases |storm|
  {
    if storm != [] {
      var k := |storm| - 1;
      var last, s := storm[k], After(saved, storm[..k]);
      NumberedPrefix(storm, k);
      RestoredBijective(saved, storm[..k]);
      TranslatesExactly(saved, storm[..k], 0);
      NoidsKnown(saved, storm[..k], Client(saved, last));
      assert forall i | 0 <= i < k :: storm[..k][i] == storm[i];
      if Kept(last) {
        RefIsNew(saved, storm);
      }
      SeparateLast(saved, storm);
      ArriveBijective(s.table, s.restore, last);
      assert Bijective(s.table) ==> (Client(saved, last) in s.table.order <==> Client(saved, last) in s.table.objects);
      hide Separate, Numbered, Arrive;
    }
  }

  lemma RefIsNew(saved: Saved, storm: Storm)
    requires Numbered(storm) && storm != [] && Kept(storm[|storm| - 1])
    ensures storm[|storm| - 1].make.ref !in After(saved, storm[..|storm| - 1]).table.refToNoid
  {
    var k := |storm| - 1;
    NumberedPrefix(storm, k);
    RefsKnown(saved, storm[..k], storm[k].make.ref);
    assert forall i: nat :: !NamedAs(storm[..k], i, storm[k].make.ref);
  }

  lemma SeparateLast(saved: Saved, storm: Storm)
    requires storm != []
    ensures var k := |storm| - 1;
            Separate(saved, storm) <==>
              Separate(saved, storm[..k])
              && (Kept(storm[k]) ==>
                    forall i | 0 <= i < k && Kept(storm[i]) :: Client(saved, storm[i]) != Client(saved, storm[k]))
  {
    var k := |storm| - 1;
    assert forall i | 0 <= i < k :: storm[..k][i] == storm[i];
  }

  // ------------------------------------------------------------ the contents

  /** The client's noid of an object already made, or the region. */
  ghost function Holder(saved: Saved, storm: Storm, ref: string): Byte
  {
    if exists i: nat :: NamedAs(storm, i, ref) then
      var i: nat :| NamedAs(storm, i, ref);
      Client(saved, storm[i])
    else REGION_NOID
  }

  lemma HolderKnown(saved: Saved, storm: Storm, ref: string)
    requires Numbered(storm)
    ensures ContainerNoid(After(saved, storm).table, ref) == Holder(saved, storm, ref)
  {
    RefsKnown(saved, storm, ref);
  }

  /** The client's view of the i-th object: its container and its seat are called
      what the client calls them, as far as they came before it. */
  ghost function Restored(saved: Saved, storm: Storm, i: nat): Entry
    requires i < |storm|
  {
    var a := storm[i];
    var entry := Entry(a.make.ref, Holder(saved, storm[..i], a.containerRef), a.make.y);
    if a.OtherAvatar() then
      var seat := match a.make.sittingIn case None => None case Some(v) => Some(ClientSide(saved, storm[..i + 1], v));
      Seated(entry, seat, a.sittingSlot)
    else entry
  }

  /** Where an arrival leaves its object. */
  lemma ArriveObjects(t: Table, r: Restore, a: Arrival)
    requires Kept(a)
    ensures var u := Arrive(t, r, a);
            var entry := Entry(a.make.ref, ContainerNoid(t, a.containerRef), a.make.y);
            var seat := TranslateField(u.restore, a.make.sittingIn);
            var placed := if a.OtherAvatar() then Seated(entry, seat, a.sittingSlot) else entry;
            u.table.objects == t.objects[ClientNoid(r, a.make) := placed]
  {
    hide Seated, Learn, ContainerNoid, ClientNoid, TranslateField;
  }

  lemma LastRestored(saved: Saved, storm: Storm)
    requires Numbered(storm) && storm != [] && Kept(storm[|storm| - 1])
    ensures var k := |storm| - 1;
            var t, before := After(saved, storm).table, After(saved, storm[..k]).table;
            t.objects == before.objects[Client(saved, storm[k]) := Restored(saved, storm, k)]
  {
    var k := |storm| - 1;
    var a := storm[k];
    NumberedPrefix(storm, k);
    HolderKnown(saved, storm[..k], a.containerRef);
    TranslatesExactly(saved, storm[..k], 0);
    ArriveObjects(After(saved, storm[..k]).table, After(saved, storm[..k]).restore, a);
    assert storm[..k + 1] == storm;
    if a.make.sittingIn.Some? {
      TranslatesExactly(saved, storm, a.make.sittingIn.value);
    }
    hide Numbered, ClientSide, Holder, Arrive, Seated, Translate, ContainerNoid;
  }

  lemma RestoredPrefix(saved: Saved, storm: Storm, i: nat, k: nat)
    requires i < k <= |storm|
    ensures storm[..k][i] == storm[i] && Restored(saved, storm[..k], i) == Restored(saved, storm, i)
  {
    assert storm[..k][..i] == storm[..i] && storm[..k][..i + 1] == storm[..i + 1];
  }

  lemma {:induction false} EntryRestored(saved: Saved, storm: Storm, i: nat)
    requires Numbered(storm) && Separate(saved, storm) && i < |storm| && Kept(storm[i])
    ensures var objects := After(saved, storm).table.objects;
            Client(saved, storm[i]) in objects && objects[Client(saved, storm[i])] == Restored(saved, storm, i)
    decreases |storm|
  {
    var k := |storm| - 1;
    if Kept(storm[k]) {
      LastRestored(saved, storm);
    }
    if i < k {
      NumberedPrefix(storm, k);
      SeparateLast(saved, storm);
      EntryRestored(saved, storm[..k], i);
      RestoredPrefix(saved, storm, i, k);
      hide Numbered, Restored, Arrive;
      if !Kept(storm[k]) {
        var s := After(saved, storm[..k]);
        ArriveBijective(s.table, s.restore, storm[k]);
      }
    }
  }

  /** After a storm in which no number was usurped every object is known, both ways,
      under the client's own noid, inside what the client takes for its container. */
  lemma RestoreReconciles(saved: Saved, storm: Storm)
    requires Numbered(storm)
    requires forall r, q | r in saved && q in saved && r != q :: saved[r] != saved[q]
    requires forall i: nat, j: nat :: !Usurps(saved, storm, i, j)
    ensures var t := After(saved, storm).table;
            Bijective(t) && forall i | 0 <= i < |storm| && Kept(storm[i]) ::
              var ref, noid := storm[i].make.ref, Client(saved, storm[i]);
              && ref in t.refToNoid && t.refToNoid[ref] == noid
              && noid in t.objects && t.objects[noid] == Restored(saved, storm, i)
  {
    SeparateUnlessUsurped(saved, storm);
    RestoredBijective(saved, storm);
    forall i | 0 <= i < |storm| && Kept(storm[i])
      ensures var t, ref, noid := After(saved, storm).table, storm[i].make.ref, Client(saved, storm[i]);
              && ref in t.refToNoid && t.refToNoid[ref] == noid
              && noid in t.objects && t.objects[noid] == Restored(saved, storm, i)
    {
      EntryRestored(saved, storm, i);
      RefsKnown(saved, storm, storm[i].make.ref);
      assert NamedAs(storm, i, storm[i].make.ref);
    }
  }

  /** Another avatar that sits down is inside its seat for the client too exactly
      when the seat came first or kept its number. */
  lemma SeatRestored(saved: Saved, storm: Storm, i: nat, seat: nat)
    requires Numbered(storm) && Separate(saved, storm) && i < |storm| && seat < |storm|
    requires Kept(storm[i]) && storm[i].OtherAvatar() && Live(storm[seat])
    requires storm[i].make.sittingIn == Some(Server(storm[seat]))
    ensures After(saved, storm).table.objects.Keys >= {Client(saved, storm[i])}
    ensures After(saved, storm).table.objects[Client(saved, storm[i])].container == Client(saved, storm[seat])
            <==> seat <= i || Client(saved, storm[seat]) == Server(storm[seat])
  {
    EntryRestored(saved, storm, i);
    var upTo := storm[..i + 1];
    NumberedPrefix(storm, i + 1);
    if seat <= i {
      ClientSideOf(saved, upTo, seat);
    } else {
      assert forall k: nat :: !NumberedAs(upTo, k, Server(storm[seat]));
    }
  }

  // ----------------------------------------------------- after the storm

  /** Once the region is entered the rewriting table is dropped, and a broadcast is
      looked up by the server's noid as it is. It moves the object it names exactly
      when that object kept its number; otherwise it moves whatever the client knows
      by that number, if anything. */
  lemma BroadcastAfterRestore(saved: Saved, storm: Storm, i: nat, cont: Byte, y: Byte)
    requires Numbered(storm) && Separate(saved, storm) && i < |storm| && Kept(storm[i])
    requires !(Restored(saved, storm, i).container == cont && Restored(saved, storm, i).y == Some(y))
    ensures var t, named, seen := After(saved, storm).table, Client(saved, storm[i]), Server(storm[i]);
            var moved := Moved(t, seen, cont, y);
            && named in t.objects && named in moved.objects
            && (moved == Moved(t, named, cont, y) <==> named == seen)
            && (named != seen ==> moved.objects[named] == t.objects[named])
            && (moved != t ==> exists k | 0 <= k < |storm| && Kept(storm[k]) :: Client(saved, storm[k]) == seen)
  {
    EntryRestored(saved, storm, i);
    NoidsKnown(saved, storm, Server(storm[i]));
    hide Restored, Numbered, Separate, After;
  }
}
