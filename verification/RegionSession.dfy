/** The session's object table as the bridge keeps it: maps from noids to objects
    that movements update in place. */
module RegionSession {
  import opened Bits
  import opened Options
  import opened ContainerGraph
  import opened ObjectTable

  /** One object the client knows; movements update it in place. */
  class TrackedObject {
    const ref: string
    var container: Byte
    var y: Option<Byte>

    constructor (ref: string, container: Byte, y: Option<Byte>)
      ensures this.ref == ref && this.container == container && this.y == y
    {
      this.ref, this.container, this.y := ref, container, y;
    }

    function ToEntry(): Entry
      reads this
    {
      Entry(ref, container, y)
    }
  }

  class Session {
    var objects: map<Byte, TrackedObject>
    var refToNoid: map<string, Byte>
    var objectNoidOrder: seq<Byte>
    var restoredSession: bool
    var savedRefToNoid: map<string, Byte>
    var restoreElkoToSaved: map<Byte, Byte>
    var waitingForAvatar: bool
    var waitingForAvatarContents: bool
    var otherNoid: Option<Byte>
    /** The packets sent to the client so far, and how many more writes will succeed. */
    var sent: seq<seq<Byte>>
    var writable: nat

    function View(): Table
      reads this`objects, this`refToNoid, this`objectNoidOrder, objects.Values
    {
      Table(map n | n in objects :: objects[n].ToEntry(), refToNoid, objectNoidOrder)
    }

    /** Different noids never share one object, so moving an object moves one
        entry. */
    predicate Distinct()
      reads this`objects
    {
      forall m, n | m in objects && n in objects && m != n :: objects[m] != objects[n]
    }

    /** No other noid shares this one's object. */
    predicate Alone(noid: Byte)
      requires noid in objects
      reads this`objects
    {
      forall n | n in objects && n != noid :: objects[n] != objects[noid]
    }

    function RestoreView(): Restore
      reads this`restoredSession, this`savedRefToNoid, this`restoreElkoToSaved
    {
      Restore(restoredSession, savedRefToNoid, restoreElkoToSaved)
    }

    function PhaseView(): Phase
      reads this`waitingForAvatar, this`waitingForAvatarContents, this`otherNoid
    {
      Phase(waitingForAvatar, waitingForAvatarContents, otherNoid)
    }

    /** A new session. */
    constructor (writes: nat)
      ensures View() == EMPTY && RestoreView() == NO_RESTORE && PhaseView() == ENTERING
      ensures sent == [] && writable == writes
    {
      waitingForAvatar, waitingForAvatarContents, otherNoid := true, false, None;
      objects, refToNoid, objectNoidOrder := map[], map[], [];
      restoredSession, savedRefToNoid, restoreElkoToSaved := false, map[], map[];
      sent, writable := [], writes;
    }

    /** A session restored from the table of the process before a handoff, whose
        noids the client still holds. */
    constructor FromSnapshot(snap: Table, waiting: bool, contents: bool, writes: nat)
      ensures View() == snap && Distinct() && sent == [] && writable == writes
      ensures PhaseView() == Phase(waiting, contents, None)
      ensures RestoreView() == Restore(true, snap.refToNoid, map[])
    {
      objects, refToNoid, objectNoidOrder := map[], snap.refToNoid, snap.order;
      restoredSession, savedRefToNoid, restoreElkoToSaved := true, snap.refToNoid, map[];
      waitingForAvatar, waitingForAvatarContents, otherNoid := waiting, contents, None;
      sent, writable := [], writes;
      new;
      LoadObjects(snap.objects);
      assert View().objects == snap.objects;
    }

    method LoadObjects(entries: map<Byte, Entry>)
      modifies this`objects
      ensures objects.Keys == entries.Keys && Distinct()
      ensures forall n | n in objects :: fresh(objects[n]) && objects[n].ToEntry() == entries[n]
    {
      objects := map[];
      var noids := entries.Keys;
      while noids != {}
        invariant noids <= entries.Keys && objects.Keys == entries.Keys - noids && Distinct()
        invariant forall n | n in objects :: fresh(objects[n]) && objects[n].ToEntry() == entries[n]
        decreases noids
      {
        var n :| n in noids;
        noids := noids - {n};
        var o := new TrackedObject(entries[n].ref, entries[n].container, entries[n].y);
        objects := objects[n := o];
      }
    }

    /** Entering a context forgets every object. */
    method InitializeState()
      modifies this
      ensures View() == EMPTY && PhaseView() == ENTERING
      ensures RestoreView() == old(RestoreView()) && sent == old(sent) && writable == old(writable)
    {
      objects, refToNoid, objectNoidOrder := map[], map[], [];
      waitingForAvatar, waitingForAvatarContents, otherNoid := true, false, None;
    }

    /** Rewrites the server's noid, and the noids mentioned in the object's state,
        to those the client holds. */
    method ReconcileNoids(m: Make)
      returns (noid: Byte, sittingIn: Option<Byte>, restrainer: Option<Byte>, wisher: Option<Wide>)
      modifies this`restoreElkoToSaved
      ensures var r := old(RestoreView());
              && RestoreView() == Learn(r, m) && noid == ClientNoid(r, m)
              && sittingIn == TranslateField(Learn(r, m), m.sittingIn)
              && restrainer == TranslateField(Learn(r, m), m.restrainer)
              && wisher == TranslateWide(Learn(r, m), m.wisher)
    {
      noid := ElkoNoid(m);
      sittingIn, restrainer, wisher := m.sittingIn, m.restrainer, m.wisher;
      if restoredSession {
        if m.ref in savedRefToNoid && savedRefToNoid[m.ref] != noid {
          restoreElkoToSaved := restoreElkoToSaved[noid := savedRefToNoid[m.ref]];
          noid := savedRefToNoid[m.ref];
        }
        if sittingIn.Some? && sittingIn.value in restoreElkoToSaved {
          sittingIn := Some(restoreElkoToSaved[sittingIn.value]);
        }
        if restrainer.Some? && restrainer.value in restoreElkoToSaved {
          restrainer := Some(restoreElkoToSaved[restrainer.value]);
        }
        if wisher.Some? && wisher.value <= 255 && wisher.value in restoreElkoToSaved {
          wisher := Some(restoreElkoToSaved[wisher.value]);
        }
      }
    }

    method Track(noid: Byte, ref: string, container: Byte, y: Option<Byte>)
      modifies this`objects, this`objectNoidOrder, this`refToNoid
      ensures View() == Insert(old(View()), noid, Entry(ref, container, y))
      ensures forall n | n in objects && n != noid :: n in old(objects) && objects[n] == old(objects[n])
      ensures noid in objects && fresh(objects[noid])
    {
      var o := new TrackedObject(ref, container, y);
      objects := objects[noid := o];
      objectNoidOrder := objectNoidOrder + [noid];
      refToNoid := refToNoid[ref := noid];
    }

    method UnpackHabitatObject(m: Make, containerRef: string) returns (outcome: Unpacked)
      modifies this
      ensures var u := Unpack(old(View()), old(RestoreView()), m, containerRef);
              View() == u.table && RestoreView() == u.restore && outcome == u.outcome
      ensures sent == old(sent) && writable == old(writable) && PhaseView() == old(PhaseView())
      ensures old(Distinct()) ==> Distinct()
      ensures outcome.Tracked? ==> outcome.noid in objects && fresh(objects[outcome.noid])
      ensures outcome.Tracked? ==>
                forall n | n in objects && n != outcome.noid :: n in old(objects) && objects[n] == old(objects[n])
    {
      hide Insert, Learn, ClientNoid, TranslateField, TranslateWide;
      if m.noid == Some(UNASSIGNED_NOID) {
        return Skipped;
      }
      var noid, sittingIn, restrainer, wisher := ReconcileNoids(m);
      if !m.supported {
        return Unsupported;
      }
      var container := REGION_NOID;
      if containerRef in refToNoid {
        container := refToNoid[containerRef];
      }
      Track(noid, m.ref, container, m.y);
      return Tracked(noid, sittingIn, restrainer, wisher);
    }

    /** A `make` message while the region is being entered. */
    method HandleArrival(a: Arrival) returns (outcome: Unpacked)
      modifies this
      ensures var u := Arrive(old(View()), old(RestoreView()), a);
              View() == u.table && RestoreView() == u.restore && outcome == u.outcome
      ensures sent == old(sent) && writable == old(writable) && PhaseView() == old(PhaseView())
      ensures old(Distinct()) ==> Distinct()
      ensures outcome.Tracked? ==> outcome.noid in objects && fresh(objects[outcome.noid])
      ensures outcome.Tracked? ==> Alone(outcome.noid)
    {
      hide Unpack, Distinct, Seated, RestoreView;
      outcome := UnpackHabitatObject(a.make, a.containerRef);
      if outcome.Tracked? && a.OtherAvatar() {
        hide View;
        Seat(outcome.noid, outcome.sittingIn, a.sittingSlot);
      }
    }

    method Seat(noid: Byte, sittingIn: Option<Byte>, sittingSlot: Option<Byte>)
      requires noid in objects && Alone(noid)
      modifies objects[noid]
      ensures var t := old(View());
              View() == t.(objects := t.objects[noid := Seated(t.objects[noid], sittingIn, sittingSlot)])
    {
      var msg := objects[noid];
      match sittingIn {
        case None => msg.container := REGION_NOID;
        case Some(seat) =>
          msg.container := seat;
          msg.y := sittingSlot;
      }
    }

    /** A `make` message. The result tells whether the missing noid of an unassigned
        object is dereferenced. */
    method HandleMake(a: Arrival) returns (panics: bool)
      modifies this
      ensures var m := MakeStep(old(View()), old(RestoreView()), old(PhaseView()), a);
              && View() == m.table && RestoreView() == m.restore && PhaseView() == m.phase && panics == m.panics
      ensures sent == old(sent) && writable == old(writable)
      ensures old(Distinct()) ==> Distinct()
    {
      hide Arrive, Distinct, RestoreView, Alone;
      if a.you == Some(true) {
        waitingForAvatarContents := true;
      }
      var outcome := HandleArrival(a);
      if outcome.Unsupported? {
        return false;
      }
      if a.avatar && a.you != Some(true) && !waitingForAvatar {
        otherNoid := if outcome.Tracked? then Some(outcome.noid) else Some(0);
        return false;
      }
      if waitingForAvatar {
        if a.you.Some? {
          waitingForAvatarContents := true;
        }
        return false;
      }
      if otherNoid.Some? {
        if outcome.Tracked? {
          PutInto(outcome.noid, otherNoid.value);
        }
        return false;
      }
      return outcome.Skipped?;
    }

    /** A `ready` message. `written` tells whether the packet about a later arrival
        gets through to the client; if not, the session closes. */
    method HandleReady(written: bool) returns (closed: bool)
      modifies this`waitingForAvatar, this`waitingForAvatarContents, this`otherNoid
      modifies this`restoredSession, this`savedRefToNoid, this`restoreElkoToSaved
      ensures var p := old(PhaseView());
              && (closed <==> !written && Completes(p))
              && PhaseView() == (if closed then p else ReadyStep(p))
              && RestoreView() == ReadyRestore(old(RestoreView()), p)
    {
      if waitingForAvatarContents {
        waitingForAvatar, waitingForAvatarContents := false, false;
        if restoredSession {
          restoredSession, savedRefToNoid, restoreElkoToSaved := false, map[], map[];
        }
        return false;
      }
      if otherNoid.Some? && otherNoid.value != 0 {
        if !written {
          return true;
        }
        otherNoid := Some(0);
      }
      return false;
    }

    /** An object described inside another message: it is tracked in the container
        that message names, whoever is arriving. */
    method Vectorize(newObj: Make, containerRef: string) returns (panics: bool)
      modifies this
      ensures var u := Unpack(old(View()), old(RestoreView()), newObj, containerRef);
              && View() == u.table && RestoreView() == u.restore && panics == u.outcome.Skipped?
      ensures PhaseView() == old(PhaseView()) && sent == old(sent) && writable == old(writable)
      ensures old(Distinct()) ==> Distinct()
    {
      hide Unpack, Distinct, RestoreView, Alone;
      var outcome := UnpackHabitatObject(newObj, containerRef);
      return outcome.Skipped?;
    }

    method PutInto(noid: Byte, container: Byte)
      requires noid in objects && Alone(noid)
      modifies objects[noid]
      ensures var t := old(View());
              View() == t.(objects := t.objects[noid := t.objects[noid].(container := container)])
    {
      objects[noid].container := container;
    }

    /** The direct contents of a noid, in some order. */
    method FindChildren(noid: Byte) returns (children: seq<Byte>)
      ensures NoDups(children)
      ensures forall c :: c in children <==> c in Children(ContainersOf(View().objects), noid)
    {
      children := [];
      var keys := objects.Keys;
      while keys != {}
        invariant keys <= objects.Keys && NoDups(children)
        invariant forall c :: c in children <==> c in Children(ContainersOf(View().objects), noid) && c !in keys
        decreases keys
      {
        var childNoid :| childNoid in keys;
        keys := keys - {childNoid};
        if childNoid != noid && objects[childNoid].container == noid {
          children := children + [childNoid];
        }
      }
    }

    /** Deletes the first occurrence of a noid from the creation order. */
    method ForgetOrder(noid: Byte)
      modifies this`objectNoidOrder
      ensures objectNoidOrder == Remaining(old(objectNoidOrder), {noid})
    {
      for i := 0 to |objectNoidOrder|
        invariant objectNoidOrder == old(objectNoidOrder) && noid !in objectNoidOrder[..i]
      {
        if objectNoidOrder[i] == noid {
          RemainingAt(objectNoidOrder, i);
          objectNoidOrder := objectNoidOrder[..i] + objectNoidOrder[i + 1..];
          return;
        }
      }
      RemainingAbsent(objectNoidOrder, noid);
    }

    method SendGoAway(noid: Byte) returns (ok: bool)
      modifies this`sent, this`writable
      ensures ok <==> old(writable) > 0
      ensures ok ==> sent == old(sent) + GoAways([noid]) && writable == old(writable) - 1
      ensures !ok ==> sent == old(sent) && writable == old(writable)
    {
      if writable == 0 {
        return false;
      }
      sent, writable := sent + [[0x55, PHANTOM_REQUEST, REGION_NOID, GOAWAY, noid]], writable - 1;
      return true;
    }

    method DropEntry(noid: Byte)
      modifies this`objects, this`objectNoidOrder, this`refToNoid
      ensures View() == Removed(old(View()), {noid})
      ensures objects == old(objects) - {noid}
    {
      if noid in objects {
        refToNoid := refToNoid - {objects[noid].ref};
      }
      objects := objects - {noid};
      ForgetOrder(noid);
    }

    /** Removes a noid and everything inside it, telling the client about each, until
        a write fails. */
    method RemoveNoid(noid: Byte) returns (ok: bool, ghost log: seq<Byte>)
      modifies this
      ensures ok ==> Elems(log) == Within(ContainersOf(old(View()).objects), noid) + {noid}
      ensures if ok then IsSweep(ContainersOf(old(View()).objects), noid, log)
              else IsCut(ContainersOf(old(View()).objects), noid, log) && writable == 0
      ensures View() == Removed(old(View()), Elems(log)) && objects == old(objects) - Elems(log)
      ensures sent == old(sent) + GoAways(log) && writable + |log| == old(writable)
      ensures RestoreView() == old(RestoreView()) && PhaseView() == old(PhaseView())
      decreases |objects|, if noid in objects then 0 else 2
    {
      hide *;
      var children := FindChildren(noid);
      ghost var t := View();
      ghost var up := ContainersOf(t.objects);
      log := [];
      ok := SendGoAway(noid);
      if !ok {
        NothingRemoved(t, old(objects), old(sent), up, noid);
        return;
      }
      DropEntry(noid);
      log := [noid];
      ghost var gone := {};
      PartialStart(up, noid);
      assert {noid} + gone == {noid};
      EmptyElems(children);
      for i := 0 to |children|
        invariant PartialSweep(up, noid, Elems(children[..i]), gone, log)
        invariant View() == Removed(t, {noid} + gone)
        invariant sent == old(sent) + GoAways(log) && writable + |log| == old(writable)
        invariant RestoreView() == old(RestoreView()) && PhaseView() == old(PhaseView())
        invariant objects == old(objects) - ({noid} + gone)
      {
        FewerObjects(objects, old(objects), {noid} + gone, noid);
        ghost var sub, inner;
        ok, sub, inner := RemoveChild(children[i], t, up, noid, children, i, gone, log);
        GoAwaysAfter(old(sent), log, sub);
        MinusTwice(old(objects), {noid} + gone, inner);
        UnionAssoc({noid}, gone, inner);
        log, gone := log + sub, gone + inner;
        if !ok {
          return;
        }
      }
      assert children[..|children|] == children;
      AllSwept(up, noid, children, gone, log);
      SweptAll(up, noid, log);
      return true, log;
    }

    /** One round of the loop over the children of a removed noid; `inner` is what it
        removes. */
    method RemoveChild(childNoid: Byte, ghost t: Table, ghost up: Containers, ghost noid: Byte,
                       ghost children: seq<Byte>, ghost i: nat, ghost gone: set<Byte>, ghost log: seq<Byte>)
      returns (ok: bool, ghost sub: seq<Byte>, ghost inner: set<Byte>)
      requires i < |children| && childNoid == children[i] && NoDups(children)
      requires up == ContainersOf(t.objects) && forall c :: c in children <==> c in Children(up, noid)
      requires PartialSweep(up, noid, Elems(children[..i]), gone, log)
      requires View() == Removed(t, {noid} + gone)
      modifies this
      ensures ok ==> PartialSweep(up, noid, Elems(children[..i + 1]), gone + inner, log + sub)
      ensures ok ==> View() == Removed(t, {noid} + (gone + inner))
      ensures !ok ==> IsCut(up, noid, log + sub) && writable == 0 && {noid} + gone + inner == Elems(log + sub)
      ensures !ok ==> View() == Removed(t, Elems(log + sub))
      ensures sent == old(sent) + GoAways(sub) && objects == old(objects) - inner
      ensures RestoreView() == old(RestoreView()) && PhaseView() == old(PhaseView())
      ensures writable + |sub| == old(writable)
      decreases |objects|, 1
    {
      hide Removed, PartialSweep, IsSweep, IsCut, Within, GoAways, Children, ContainersOf, Elems;
      ChildNext(t, up, noid, children, i, gone, log);
      ok, sub := RemoveNoid(childNoid);
      inner := Elems(sub);
      if ok {
        SweptAll(up - {noid} - gone, childNoid, sub);
        SweepChild(up, noid, Elems(children[..i]), gone, log, childNoid, sub);
        assert children[..i + 1] == children[..i] + [childNoid];
        ElemsSnoc(children[..i], childNoid);
      } else {
        CutChild(up, noid, Elems(children[..i]), gone, log, childNoid, sub);
        RemovedTwice(t, {noid} + gone, Elems(sub));
      }
    }

    /** A `delete` message removes the object and all it contains, if known. */
    method HandleDelete(ref: string) returns (ok: bool, ghost log: seq<Byte>)
      modifies this
      ensures ref in old(refToNoid) ==>
                var noid, up := old(refToNoid)[ref], ContainersOf(old(View()).objects);
                && (if ok then IsSweep(up, noid, log) else IsCut(up, noid, log) && writable == 0)
                && View() == Removed(old(View()), Elems(log))
                && (ok ==> Elems(log) == Within(up, noid) + {noid})
                && sent == old(sent) + GoAways(log)
      ensures ref !in old(refToNoid) ==> ok && View() == old(View()) && sent == old(sent)
      ensures RestoreView() == old(RestoreView()) && PhaseView() == old(PhaseView())
    {
      ok, log := true, [];
      if ref in refToNoid {
        ghost var up := ContainersOf(View().objects);
        ghost var noid := refToNoid[ref];
        ok, log := RemoveNoid(refToNoid[ref]);
        if ok {
          SweptAll(up, noid, log);
        }
      }
    }

    // ------------------------------------------------------------- movement

    /** Some tracked object in the avatar's hand, or null. */
    method HandItem(avatarNoid: Byte) returns (obj: TrackedObject?, ghost noid: Byte)
      ensures obj == null ==> forall n | n in View().objects :: !InHand(View().objects[n], avatarNoid)
      ensures obj != null ==> noid in objects && objects[noid] == obj && InHand(View().objects[noid], avatarNoid)
    {
      noid := 0;
      var keys := objects.Keys;
      while keys != {}
        invariant keys <= objects.Keys
        invariant forall n | n in View().objects && n !in keys :: !InHand(View().objects[n], avatarNoid)
        decreases keys
      {
        var n :| n in keys;
        if objects[n].container == avatarNoid && objects[n].y == Some(AVATAR_HAND) {
          return objects[n], n;
        }
        keys := keys - {n};
      }
      return null, noid;
    }

    method NoteContainerChange(item: TrackedObject?, container: Byte, y: Byte)
      requires Distinct() && (item != null ==> item in objects.Values)
      modifies item
      ensures item == null ==> View() == old(View())
      ensures forall n | n in objects && objects[n] == item :: View() == Moved(old(View()), n, container, y)
    {
      if item == null {
        return;
      }
      item.container := container;
      item.y := Some(y);
    }

    function Lookup(noid: Byte): TrackedObject?
      reads this`objects
    {
      if noid in objects then objects[noid] else null
    }

    /** Another client's GET: the target is now in that avatar's hand. */
    method GetAsync(noid: Option<Byte>, target: Byte, how: Byte) returns (args: seq<Byte>)
      requires Distinct()
      modifies objects.Values
      ensures args == [target, how]
      ensures View() == if noid.Some? then Moved(old(View()), target, noid.value, AVATAR_HAND) else old(View())
    {
      args := [target, how];
      if noid.Some? {
        NoteContainerChange(Lookup(target), noid.value, AVATAR_HAND);
      }
    }

    method PutAsync(objectNoid: Byte, cont: Byte, x: Byte, y: Byte, how: Byte, orient: Byte) returns (args: seq<Byte>)
      requires Distinct()
      modifies objects.Values
      ensures args == [objectNoid, cont, x, y, how, orient]
      ensures View() == Moved(old(View()), objectNoid, cont, y)
    {
      args := [objectNoid, cont, x, y, how, orient];
      NoteContainerChange(Lookup(objectNoid), cont, y);
    }

    method ThrowAsync(objectNoid: Byte, x: Byte, y: Byte, hit: Byte) returns (args: seq<Byte>)
      requires Distinct()
      modifies objects.Values
      ensures args == [objectNoid, x, y, hit]
      ensures View() == Moved(old(View()), objectNoid, REGION_NOID, y)
    {
      args := [objectNoid, x, y, hit];
      NoteContainerChange(Lookup(objectNoid), REGION_NOID, y);
    }

    method ChangeContainers(objectNoid: Byte, containerNoid: Byte, x: Byte, y: Byte) returns (args: seq<Byte>)
      requires Distinct()
      modifies objects.Values
      ensures args == [objectNoid, containerNoid, x, y]
      ensures View() == Moved(old(View()), objectNoid, containerNoid, y)
    {
      args := [objectNoid, containerNoid, x, y];
      NoteContainerChange(Lookup(objectNoid), containerNoid, y);
    }

    /** A hand-to-hand transfer: whatever is in the first avatar's hand moves to
        the message avatar's. */
    method GrabFromAsync(noid: Option<Byte>, avatarNoid: Byte) returns (args: seq<Byte>)
      requires Distinct()
      modifies objects.Values
      ensures args == [avatarNoid]
      ensures if noid.Some? then HandMoved(old(View()), View(), avatarNoid, noid.value) else View() == old(View())
    {
      args := [avatarNoid];
      if noid.Some? {
        MoveHand(avatarNoid, noid.value);
      }
    }

    method MoveHand(from: Byte, to: Byte)
      requires Distinct()
      modifies objects.Values
      ensures HandMoved(old(View()), View(), from, to)
    {
      ghost var before := View();
      var item, n := HandItem(from);
      NoteContainerChange(item, to, AVATAR_HAND);
      if item != null {
        assert n in before.objects && InHand(before.objects[n], from) && View() == Moved(before, n, to, AVATAR_HAND);
      }
    }

    /** Our own GET succeeded: the item is in our hand. The reply's noid is the
        item; `avatar` is our own noid, once known. */
    method GetReply(err: Option<Byte>, noid: Option<Byte>, avatar: Option<Byte>) returns (args: seq<Byte>)
      requires Distinct()
      modifies objects.Values
      ensures args == [if err.Some? then err.value else 0]
      ensures View() == if err == Some(1) && noid.Some? && avatar.Some?
                        then Moved(old(View()), noid.value, avatar.value, AVATAR_HAND) else old(View())
    {
      args := [if err.Some? then err.value else 0];
      if err == Some(1) && noid.Some? && avatar.Some? {
        NoteContainerChange(Lookup(noid.value), avatar.value, AVATAR_HAND);
      }
    }

    /** Our own GRAB: a nonzero item noid is now in our hand. */
    method GrabReply(itemNoid: Option<Byte>, avatar: Option<Byte>) returns (args: seq<Byte>)
      requires Distinct()
      modifies objects.Values
      ensures args == [if itemNoid.Some? then itemNoid.value else 0]
      ensures View() == if avatar.Some? && itemNoid.Some? && itemNoid.value != 0
                        then Moved(old(View()), itemNoid.value, avatar.value, AVATAR_HAND) else old(View())
    {
      var item := if itemNoid.Some? then itemNoid.value else 0;
      args := [item];
      if avatar.Some? && item != 0 {
        NoteContainerChange(Lookup(item), avatar.value, AVATAR_HAND);
      }
    }

    /** Our own HAND succeeded: our hand item moves to the receiver, whose noid the
        reply carries. */
    method HandReply(err: Option<Byte>, noid: Option<Byte>, avatar: Option<Byte>) returns (args: seq<Byte>)
      requires Distinct()
      modifies objects.Values
      ensures args == [if err.Some? then err.value else 0]
      ensures if err == Some(1) && noid.Some? && avatar.Some?
              then HandMoved(old(View()), View(), avatar.value, noid.value) else View() == old(View())
    {
      args := [if err.Some? then err.value else 0];
      if err == Some(1) && noid.Some? && avatar.Some? {
        MoveHand(avatar.value, noid.value);
      }
    }
  }
}
