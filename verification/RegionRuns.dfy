/** Whole runs of a region: the objects the server holds, the messages it sends
    about them, and the table the bridge builds from those messages. */
module RegionRuns {
  import opened Bits
  import opened Options
  import opened ContainerGraph
  import opened ObjectTable
  import opened RegionSession

  /** What the server holds in the region, by noid. */
  type World = map<Byte, Entry>

  // ---------------------------------------------------------- the bijection

  /** Noids and refs name each other, and every object has one place in the
      order of creation. */
  ghost predicate Bijective(t: Table)
  {
    && (forall n | n in t.objects :: t.objects[n].ref in t.refToNoid && t.refToNoid[t.objects[n].ref] == n)
    && (forall r | r in t.refToNoid :: t.refToNoid[r] in t.objects && t.objects[t.refToNoid[r]].ref == r)
    && NoDups(t.order) && (forall n :: n in t.order <==> n in t.objects)
  }

  /** Creation keeps the bijection exactly when both names are new. */
  lemma InsertBijective(t: Table, noid: Byte, entry: Entry)
    requires Bijective(t)
    ensures Bijective(Insert(t, noid, entry)) <==> noid !in t.objects && entry.ref !in t.refToNoid
  {
    var t' := Insert(t, noid, entry);
    if noid in t.objects {
      assert t'.order[|t.order|] == noid;
      var i :| 0 <= i < |t.order| && t.order[i] == noid;
      assert t'.order[i] == noid;
    } else if entry.ref in t.refToNoid {
      assert t'.objects[t.refToNoid[entry.ref]].ref == entry.ref;
    } else {
      FreshBijective(t, noid, entry);
    }
  }

  lemma FreshBijective(t: Table, noid: Byte, entry: Entry)
    requires Bijective(t) && noid !in t.objects && entry.ref !in t.refToNoid
    ensures Bijective(Insert(t, noid, entry))
  {
    forall n ensures n in t.order + [noid] <==> n in t.order || n == noid {
    }
  }

  lemma RemovedBijective(t: Table, gone: set<Byte>)
    requires Bijective(t)
    ensures Bijective(Removed(t, gone))
  {
    RemainingMembers(t.order, gone);
  }

  lemma MovedBijective(t: Table, noid: Byte, container: Byte, y: Byte)
    requires Bijective(t)
    ensures Bijective(Moved(t, noid, container, y))
  {
  }

  // ------------------------------------------------------ what the server does

  /** Movements of known objects; `actor` is the avatar that acts. A GET can be the
      effect of trying to wear something that is not in hand. A PUT is told to the
      actor's neighbors only, except that the server tells the actor too when it puts
      back an object that may not leave. A vending machine takes its display back
      into the front and shows another item of it. */
  datatype Action =
    | Get(item: Byte, actor: Byte, wearing: bool)
    | Put(item: Byte, actor: Byte, cont: Byte, slot: Byte, echoed: bool)
    | Throw(item: Byte, actor: Byte, y: Byte)
    | ChangeContainers(item: Byte, cont: Byte, slot: Byte)
    | Grab(item: Byte, from: Byte, actor: Byte)
    | Hand(item: Byte, from: Byte, to: Byte)
    | Wear(item: Byte, actor: Byte)
    | Remove(item: Byte, actor: Byte)
    | Select(item: Byte, chosen: Byte, front: Byte, slot: Byte, inside: Byte)

  const DISPLAY_SLOT: Byte := 1

  function Place(w: World, item: Byte, container: Byte, y: Byte): World
  {
    if item in w then w[item := w[item].(container := container, y := Some(y))] else w
  }

  /** Where an action puts its item. */
  function Receiver(a: Action): Byte
  {
    match a
    case Get(_, actor, _) => actor
    case Put(_, _, cont, _, _) => cont
    case Throw(_, _, _) => REGION_NOID
    case ChangeContainers(_, cont, _) => cont
    case Grab(_, _, actor) => actor
    case Hand(_, _, to) => to
    case Wear(_, actor) => actor
    case Remove(_, actor) => actor
    case Select(_, _, front, _, _) => front
  }

  function ReceivingSlot(a: Action): Byte
  {
    match a
    case Put(_, _, _, slot, _) => slot
    case Throw(_, _, y) => y
    case ChangeContainers(_, _, slot) => slot
    case Wear(_, _) => AVATAR_HEAD
    case Select(_, _, _, slot, _) => slot
    case _ => AVATAR_HAND
  }

  function Perform(w: World, a: Action): World
  {
    var placed := Place(w, a.item, Receiver(a), ReceivingSlot(a));
    if a.Select? then Place(placed, a.chosen, a.inside, DISPLAY_SLOT) else placed
  }

  /** Where each action leaves its item: hands are slot 5, the worn head is in slot 6,
      the display is slot 1, the floor has coordinates. Nothing else moves. */
  lemma PlacedExactly(w: World, a: Action)
    requires a.item in w
    ensures var w' := Perform(w, a);
            match a
            case Get(item, actor, _) => w' == w[item := Entry(w[item].ref, actor, Some(5))]
            case Put(item, _, cont, slot, _) => w' == w[item := Entry(w[item].ref, cont, Some(slot))]
            case Throw(item, _, y) => w' == w[item := Entry(w[item].ref, 0, Some(y))]
            case ChangeContainers(item, cont, slot) => w' == w[item := Entry(w[item].ref, cont, Some(slot))]
            case Grab(item, _, actor) => w' == w[item := Entry(w[item].ref, actor, Some(5))]
            case Hand(item, _, to) => w' == w[item := Entry(w[item].ref, to, Some(5))]
            case Wear(item, actor) => w' == w[item := Entry(w[item].ref, actor, Some(6))]
            case Remove(item, actor) => w' == w[item := Entry(w[item].ref, actor, Some(5))]
            case Select(item, chosen, front, slot, inside) =>
              chosen in w && chosen != item ==>
                w' == w[item := Entry(w[item].ref, front, Some(slot))][chosen := Entry(w[chosen].ref, inside, Some(1))]
  {
  }

  /** Nothing but the item itself is in that hand. */
  ghost predicate HandFree(w: World, avatar: Byte, item: Byte)
  {
    forall n | n in w && n != item :: !InHand(w[n], avatar)
  }

  ghost predicate AvatarIn(w: World, avatar: Byte)
  {
    avatar != REGION_NOID && avatar in w
  }

  predicate At(entry: Entry, cont: Byte, slot: Byte)
  {
    entry.container == cont && entry.y == Some(slot)
  }

  /** The receiving container is there, and its hand slot, if used, is free. The
      region is no avatar: there a slot is a coordinate. */
  ghost predicate Receives(w: World, cont: Byte, slot: Byte, item: Byte)
  {
    cont == REGION_NOID || (cont in w && (slot == AVATAR_HAND ==> HandFree(w, cont, item)))
  }

  ghost predicate Legal(w: World, a: Action)
  {
    && a.item in w && a.item != REGION_NOID && Receives(w, Receiver(a), ReceivingSlot(a), a.item)
    && (a.Get? || a.Grab? || a.Hand? || a.Wear? || a.Remove? ==> AvatarIn(w, Receiver(a)))
    && (a.Grab? || a.Hand? ==> AvatarIn(w, a.from) && InHand(w[a.item], a.from))
    && (a.Wear? ==> InHand(w[a.item], a.actor) && forall n | n in w :: !At(w[n], a.actor, AVATAR_HEAD))
    && (a.Remove? ==> At(w[a.item], a.actor, AVATAR_HEAD))
    && (a.Select? ==>
          && AvatarIn(w, a.front) && AvatarIn(w, a.inside) && a.chosen in w && a.chosen != a.item
          && At(w[a.item], a.inside, DISPLAY_SLOT) && w[a.chosen].container == a.front)
  }

  ghost predicate OneInHand(w: World)
  {
    forall avatar, m, n
      | avatar != REGION_NOID && m in w && n in w && InHand(w[m], avatar) && InHand(w[n], avatar)
      :: m == n
  }

  /** No object is in a container that is gone. */
  ghost predicate Rooted(w: World)
  {
    forall n | n in w :: w[n].container == REGION_NOID || w[n].container in w
  }

  // -------------------------------------------------- what the bridge makes of it

  /** The actions whose message moves the table's entry: not the client's own THROW,
      its own PUT unless echoed, its own GET by WEAR, and nobody's WEAR, REMOVE or
      VSELECT. `self` is the client's own avatar, which hears of its actions by
      replies. */
  predicate Mirrored(a: Action, self: Byte)
  {
    match a
    case Get(_, actor, wearing) => actor != self || !wearing
    case Put(_, actor, _, _, echoed) => actor != self || echoed
    case Throw(_, actor, _) => actor != self
    case Wear(_, _) => false
    case Remove(_, _) => false
    case Select(_, _, _, _, _) => false
    case _ => true
  }

  /** The table after the message about an action. */
  ghost predicate Observed(a: Action, self: Byte, before: Table, after: Table)
  {
    if !Mirrored(a, self) then after == before
    else if a.Hand? || (a.Grab? && a.actor != self) then HandMoved(before, after, a.from, Receiver(a))
    else after == Moved(before, a.item, Receiver(a), ReceivingSlot(a))
  }

  /** The message each action sends, and its handler. The replies to our own PUT,
      THROW and WEAR, and all messages about WEAR, REMOVE and VSELECT, reach handlers
      that leave the table alone. */
  method Observe(s: Session, a: Action, self: Byte)
    requires s.Distinct() && a.item != REGION_NOID
    modifies s.objects.Values
    ensures Observed(a, self, old(s.View()), s.View())
  {
    if !Mirrored(a, self) {
      return;
    }
    match a {
      case Get(item, actor, _) =>
        if actor == self {
          var _ := s.GetReply(Some(1), Some(item), Some(self));
        } else {
          var _ := s.GetAsync(Some(actor), item, 0);
        }
      case Put(item, actor, cont, slot, _) =>
        var _ := s.PutAsync(item, cont, 0, slot, 0, 0);
      case Throw(item, actor, y) =>
        var _ := s.ThrowAsync(item, 0, y, 0);
      case ChangeContainers(item, cont, slot) =>
        var _ := s.ChangeContainers(item, cont, 0, slot);
      case Grab(item, from, actor) =>
        if actor == self {
          var _ := s.GrabReply(Some(item), Some(self));
        } else {
          var _ := s.GrabFromAsync(Some(actor), from);
        }
      case Hand(_, from, to) =>
        if from == self {
          var _ := s.HandReply(Some(1), Some(to), Some(self));
        } else {
          var _ := s.GrabFromAsync(Some(to), from);
        }
      case _ =>
    }
  }

  /** With one item per hand, moving "whatever is in the hand" moves that item,
      in whichever order the table is searched. */
  lemma HandMovedExactly(before: Table, after: Table, item: Byte, from: Byte, to: Byte)
    requires OneInHand(before.objects) && AvatarIn(before.objects, from)
    requires item in before.objects && InHand(before.objects[item], from) && HandMoved(before, after, from, to)
    ensures after == Moved(before, item, to, AVATAR_HAND)
  {
  }

  lemma PlaceKeeps(w: World, item: Byte, cont: Byte, slot: Byte)
    requires OneInHand(w) && Rooted(w) && item in w && Receives(w, cont, slot, item)
    ensures OneInHand(Place(w, item, cont, slot)) && Rooted(Place(w, item, cont, slot))
  {
  }

  lemma ActionKeeps(w: World, a: Action)
    requires OneInHand(w) && Rooted(w) && Legal(w, a)
    ensures OneInHand(Perform(w, a)) && Rooted(Perform(w, a))
  {
    PlaceKeeps(w, a.item, Receiver(a), ReceivingSlot(a));
    if a.Select? {
      hide OneInHand, Rooted, HandFree;
      PlaceKeeps(Place(w, a.item, a.front, a.slot), a.chosen, a.inside, DISPLAY_SLOT);
    }
  }

  lemma ActionMoves(t: Table, t': Table, a: Action, self: Byte)
    requires OneInHand(t.objects) && Legal(t.objects, a) && Observed(a, self, t, t')
    ensures t' == if Mirrored(a, self) then Moved(t, a.item, Receiver(a), ReceivingSlot(a)) else t
  {
    hide OneInHand;
    if a.Hand? || (a.Grab? && a.actor != self) {
      HandMovedExactly(t, t', a.item, a.from, Receiver(a));
    }
  }

  /** The table follows the server's world exactly when the action is mirrored or
      moved nothing. */
  lemma ActionMirrors(t: Table, t': Table, a: Action, self: Byte)
    requires OneInHand(t.objects) && Legal(t.objects, a) && Observed(a, self, t, t')
    ensures t'.objects == Perform(t.objects, a) <==> Mirrored(a, self) || Perform(t.objects, a) == t.objects
    ensures Bijective(t) ==> Bijective(t')
  {
    ActionMoves(t, t', a, self);
    hide OneInHand, Legal, Observed, Receiver, ReceivingSlot;
    if Bijective(t) {
      MovedBijective(t, a.item, Receiver(a), ReceivingSlot(a));
    }
    hide Bijective;
  }

  /** Taking something into the hand that a worn head has left makes the table see
      two things in it, so that handing over the second may move either. */
  lemma WornHeadIsMistaken(t: Table, head: Byte, item: Byte, a: Byte, b: Byte, self: Byte)
    requires Mirrors(t, t.objects) && Legal(t.objects, Wear(head, a))
    requires Legal(Perform(t.objects, Wear(head, a)), Get(item, a, false)) && item != head
    requires AvatarIn(t.objects, b) && b != a && b != head && b != item && HandFree(t.objects, b, item)
    ensures var worn := Perform(t.objects, Wear(head, a));
            var held, seen := Perform(worn, Get(item, a, false)), Moved(t, item, a, AVATAR_HAND);
            && Observed(Wear(head, a), self, t, t) && Observed(Get(item, a, false), self, t, seen)
            && Legal(held, Hand(item, a, b))
            && Observed(Hand(item, a, b), self, seen, Moved(seen, item, b, AVATAR_HAND))
            && Observed(Hand(item, a, b), self, seen, Moved(seen, head, b, AVATAR_HAND))
            && Moved(seen, head, b, AVATAR_HAND).objects[item] != Perform(held, Hand(item, a, b))[item]
  {
    hide Bijective, Rooted, OneInHand;
    var seen := Moved(t, item, a, AVATAR_HAND);
    assert InHand(seen.objects[head], a) && InHand(seen.objects[item], a);
  }

  // -------------------------------------------------------------------- runs

  datatype Event =
    | Enter
    | Made(arrival: Arrival)
    | HereIs(make: Make, containerRef: string)
    | Ready
    | Gone(ref: string)
    | Act(action: Action)

  /** The session's table and where it is in entering the region. */
  datatype State = State(table: Table, phase: Phase)

  ghost predicate NamedBy(w: World, n: Byte, ref: string)
  {
    n in w && w[n].ref == ref
  }

  ghost function Named(w: World, ref: string): Option<Byte>
  {
    if exists n: Byte :: NamedBy(w, n, ref) then var n: Byte :| NamedBy(w, n, ref); Some(n) else None
  }

  ghost function WorldContainer(w: World, ref: string): Byte
  {
    match Named(w, ref) case None => REGION_NOID case Some(n) => n
  }

  /** A created object: another avatar is in the region or, as the client is told,
      inside its seat; any other object is in the container it was sent to. */
  ghost function Created(w: World, a: Arrival): Entry
  {
    var entry := Entry(a.make.ref, WorldContainer(w, a.containerRef), a.make.y);
    if !a.avatar || a.you == Some(true) then entry
    else
      match a.make.sittingIn
      case None => entry.(container := REGION_NOID)
      case Some(seat) => entry.(container := seat, y := a.sittingSlot)
  }

  /** An object leaves together with everything inside it. */
  ghost function Departed(w: World, n: Byte): World
  {
    w - (Within(ContainersOf(w), n) + {n})
  }

  predicate Unassigned(m: Make)
  {
    m.noid == Some(UNASSIGNED_NOID)
  }

  /** An object that another message describes. */
  function Described(m: Make, containerRef: string): Arrival
  {
    Arrival(m, containerRef, false, None, None)
  }

  ghost function WorldStep(w: World, e: Event): World
  {
    match e
    case Enter => map[]
    case Made(a) => if Unassigned(a.make) then w else w[ElkoNoid(a.make) := Created(w, a)]
    case HereIs(m, ref) => w[ElkoNoid(m) := Created(w, Described(m, ref))]
    case Ready => w
    case Gone(ref) => (match Named(w, ref) case None => w case Some(n) => Departed(w, n))
    case Act(a) => Perform(w, a)
  }

  ghost predicate Creatable(w: World, a: Arrival)
  {
    && a.make.supported && !Unassigned(a.make)
    && ElkoNoid(a.make) !in w && (forall n | n in w :: w[n].ref != a.make.ref)
    && (Created(w, a).container == REGION_NOID || Created(w, a).container in w)
    && (Created(w, a).y == Some(AVATAR_HAND) ==> Receives(w, Created(w, a).container, AVATAR_HAND, ElkoNoid(a.make)))
  }

  /** The server creates objects of known classes under unused names, in containers
      that are there, and moves them legally. It makes unassigned objects only where
      the bridge can take them. */
  ghost predicate Admissible(w: World, p: Phase, e: Event)
  {
    match e
    case Made(a) =>
      if Unassigned(a.make) then !MakeStep(EMPTY, NO_RESTORE, p, a).panics else Creatable(w, a)
    case HereIs(m, ref) => Creatable(w, Described(m, ref))
    case Act(a) => Legal(w, a)
    case _ => true
  }

  /** How the session follows a message. */
  ghost predicate SessionStep(s: State, e: Event, self: Byte, s': State)
  {
    match e
    case Enter => s' == State(EMPTY, ENTERING)
    case Made(a) =>
      var m := MakeStep(s.table, NO_RESTORE, s.phase, a);
      s' == State(m.table, m.phase)
    case HereIs(m, ref) => s' == s.(table := Unpack(s.table, NO_RESTORE, m, ref).table)
    case Ready => s' == s.(phase := ReadyStep(s.phase))
    case Gone(ref) => s' == s.(table := AfterDelete(s.table, ref))
    case Act(a) => s'.phase == s.phase && Observed(a, self, s.table, s'.table)
  }

  ghost function AfterDelete(t: Table, ref: string): Table
  {
    if ref in t.refToNoid then
      Removed(t, Within(ContainersOf(t.objects), t.refToNoid[ref]) + {t.refToNoid[ref]})
    else t
  }

  /** The container that the session gives to whatever is made, once an avatar has
      arrived later: that avatar until it is complete, the region from then on. */
  function Bundling(p: Phase, a: Arrival): Option<Byte>
  {
    if a.OtherAvatar() || p.waitingForAvatar then None else p.otherNoid
  }

  /** The messages after which the table is right: nothing is bundled into a noid
      that it is not directly inside, and every effective move is mirrored. */
  ghost predicate Faithful(w: World, p: Phase, e: Event, self: Byte)
  {
    match e
    case Made(a) =>
      !Unassigned(a.make) && Bundling(p, a).Some? ==> Created(w, a).container == Bundling(p, a).value
    case Act(a) => Mirrored(a, self) || Perform(w, a) == w
    case _ => true
  }

  ghost predicate Mirrors(t: Table, w: World)
  {
    t.objects == w && Bijective(t) && OneInHand(w) && Rooted(w)
  }

  /** A message keeps the table equal to the server's region exactly when it is
      faithful; the region stays sound in any case. */
  lemma StepMirrors(s: State, s': State, w: World, e: Event, self: Byte)
    requires Mirrors(s.table, w) && Admissible(w, s.phase, e) && SessionStep(s, e, self, s')
    ensures OneInHand(WorldStep(w, e)) && Rooted(WorldStep(w, e)) && Bijective(s'.table)
    ensures s'.table.objects == WorldStep(w, e) <==> Faithful(w, s.phase, e, self)
  {
    hide Bijective, OneInHand, Rooted, Legal, Observed, Perform, Departed, Named, Removed, MakeStep;
    hide Creatable, Created, Unpack;
    match e
    case Enter => EmptyMirrors();
    case Made(a) => MadeMirrors(s.table, s.phase, a);
    case HereIs(m, ref) => HereIsMirrors(s.table, m, ref);
    case Ready =>
    case Gone(ref) =>
      NameAgrees(s.table, ref);
      if ref in s.table.refToNoid {
        DepartedMirrors(s.table, w, s.table.refToNoid[ref]);
      }
    case Act(a) =>
      ActionMirrors(s.table, s'.table, a, self);
      ActionKeeps(w, a);
  }

  lemma EmptyMirrors()
    ensures Mirrors(EMPTY, map[])
  {
  }

  lemma NameAgrees(t: Table, ref: string)
    requires Bijective(t)
    ensures Named(t.objects, ref) == if ref in t.refToNoid then Some(t.refToNoid[ref]) else None
    ensures ref !in t.refToNoid <==> forall n | n in t.objects :: t.objects[n].ref != ref
  {
    if ref in t.refToNoid {
      assert NamedBy(t.objects, t.refToNoid[ref], ref);
    }
  }

  /** What a creation does to the table: a bundled object is put into the bundling
      noid wherever it is. */
  lemma MadeInserts(t: Table, p: Phase, a: Arrival)
    requires Bijective(t) && a.make.supported && !Unassigned(a.make)
    ensures var entry := Created(t.objects, a);
            var seen := if Bundling(p, a).Some? then entry.(container := Bundling(p, a).value) else entry;
            MakeStep(t, NO_RESTORE, p, a).table == Insert(t, ElkoNoid(a.make), seen)
  {
    ArriveInserts(t, a);
    BundleInserts(t, ElkoNoid(a.make), Created(t.objects, a), Arrive(t, NO_RESTORE, a), p.otherNoid);
    hide Bijective, Created, Arrive, Bundle, Insert;
  }

  lemma BundleInserts(t: Table, noid: Byte, entry: Entry, u: UnpackResult, other: Option<Byte>)
    requires u.outcome.Tracked? && u.outcome.noid == noid && u.table == Insert(t, noid, entry)
    ensures other.Some? ==> Bundle(u, other.value).table == Insert(t, noid, entry.(container := other.value))
  {
  }

  lemma UnpackInserts(t: Table, m: Make, ref: string)
    requires Bijective(t) && m.supported && !Unassigned(m)
    ensures var u := Unpack(t, NO_RESTORE, m, ref);
            && u.outcome.Tracked? && u.outcome.noid == ElkoNoid(m) && u.outcome.sittingIn == m.sittingIn
            && u.table == Insert(t, ElkoNoid(m), Created(t.objects, Described(m, ref)))
  {
    NameAgrees(t, ref);
    assert ContainerNoid(t, ref) == WorldContainer(t.objects, ref);
    hide Bijective, Named, ContainerNoid, WorldContainer;
  }

  lemma ArriveInserts(t: Table, a: Arrival)
    requires Bijective(t) && a.make.supported && !Unassigned(a.make)
    ensures var u := Arrive(t, NO_RESTORE, a);
            && u.outcome.Tracked? && u.outcome.noid == ElkoNoid(a.make)
            && u.table == Insert(t, ElkoNoid(a.make), Created(t.objects, a))
  {
    var entry := Created(t.objects, Described(a.make, a.containerRef));
    UnpackInserts(t, a.make, a.containerRef);
    SeatInserts(t, ElkoNoid(a.make), entry, Seated(entry, a.make.sittingIn, a.sittingSlot));
    hide Bijective, Unpack, WorldContainer, Insert;
  }

  lemma SeatInserts(t: Table, noid: Byte, entry: Entry, entry': Entry)
    requires entry'.ref == entry.ref
    ensures var u := Insert(t, noid, entry);
            u.(objects := u.objects[noid := entry']) == Insert(t, noid, entry')
  {
  }

  lemma UnassignedChangesNothing(t: Table, p: Phase, a: Arrival)
    requires Unassigned(a.make)
    ensures MakeStep(t, NO_RESTORE, p, a).table == t
  {
  }

  lemma InsertMirrors(t: Table, a: Arrival, seen: Entry)
    requires Mirrors(t, t.objects) && Creatable(t.objects, a) && seen.ref == a.make.ref
    ensures var w := t.objects[ElkoNoid(a.make) := Created(t.objects, a)];
            && OneInHand(w) && Rooted(w) && Bijective(Insert(t, ElkoNoid(a.make), seen))
            && (Insert(t, ElkoNoid(a.make), seen).objects == w <==> seen == Created(t.objects, a))
  {
    var n, entry := ElkoNoid(a.make), Created(t.objects, a);
    NameAgrees(t, a.make.ref);
    InsertBijective(t, n, seen);
    hide Bijective, Created;
    InsertSound(t.objects, n, entry);
    assert t.objects[n := seen][n] == seen && t.objects[n := entry][n] == entry;
  }

  lemma MadeMirrors(t: Table, p: Phase, a: Arrival)
    requires Mirrors(t, t.objects) && Admissible(t.objects, p, Made(a))
    ensures var w, t' := WorldStep(t.objects, Made(a)), MakeStep(t, NO_RESTORE, p, a).table;
            && OneInHand(w) && Rooted(w) && Bijective(t')
            && (t'.objects == w <==> Faithful(t.objects, p, Made(a), REGION_NOID))
  {
    if Unassigned(a.make) {
      UnassignedChangesNothing(t, p, a);
    } else {
      var entry := Created(t.objects, a);
      MadeInserts(t, p, a);
      hide MakeStep, Bijective, OneInHand, Rooted, Insert;
      InsertMirrors(t, a, if Bundling(p, a).Some? then entry.(container := Bundling(p, a).value) else entry);
    }
  }

  lemma HereIsMirrors(t: Table, m: Make, ref: string)
    requires Mirrors(t, t.objects) && Creatable(t.objects, Described(m, ref))
    ensures var w, t' := WorldStep(t.objects, HereIs(m, ref)), Unpack(t, NO_RESTORE, m, ref).table;
            && OneInHand(w) && Rooted(w) && Bijective(t') && t'.objects == w
  {
    UnpackInserts(t, m, ref);
    hide Unpack, Bijective, OneInHand, Rooted, Insert;
    InsertMirrors(t, Described(m, ref), Created(t.objects, Described(m, ref)));
  }

  lemma InsertSound(w: World, n: Byte, entry: Entry)
    requires OneInHand(w) && Rooted(w) && n !in w
    requires entry.container == REGION_NOID || entry.container in w
    requires entry.y == Some(AVATAR_HAND) ==> Receives(w, entry.container, AVATAR_HAND, n)
    ensures OneInHand(w[n := entry]) && Rooted(w[n := entry])
  {
  }

  lemma DepartedMirrors(t: Table, w: World, n: Byte)
    requires Mirrors(t, w)
    ensures Mirrors(Removed(t, Within(ContainersOf(t.objects), n) + {n}), Departed(w, n))
  {
    RemovedBijective(t, Within(ContainersOf(w), n) + {n});
    hide Bijective;
    DepartedSound(w, n);
  }

  lemma DepartedSound(w: World, n: Byte)
    requires OneInHand(w) && Rooted(w)
    ensures OneInHand(Departed(w, n)) && Rooted(Departed(w, n))
  {
    var up := ContainersOf(w);
    forall x | x in Departed(w, n) ensures w[x].container == REGION_NOID || w[x].container in Departed(w, n) {
      if up[x] == n || up[x] in Within(up, n) {
        NoOrphans(up, n, x);
      }
    }
  }

  ghost function WorldAfter(es: seq<Event>): World
    decreases |es|
  {
    if es == [] then map[] else WorldStep(WorldAfter(es[..|es| - 1]), es[|es| - 1])
  }

  /** The states a session goes through: a new one at first, one step per message. */
  ghost predicate SessionRun(es: seq<Event>, self: Byte, ss: seq<State>)
  {
    && |ss| == |es| + 1 && ss[0] == State(EMPTY, ENTERING)
    && forall i | 0 <= i < |es| :: SessionStep(ss[i], es[i], self, ss[i + 1])
  }

  ghost predicate AdmissibleRun(es: seq<Event>, self: Byte, ss: seq<State>)
  {
    SessionRun(es, self, ss) && forall i | 0 <= i < |es| :: Admissible(WorldAfter(es[..i]), ss[i].phase, es[i])
  }

  ghost predicate FaithfulAt(es: seq<Event>, self: Byte, ss: seq<State>, i: nat)
    requires i < |es| && |ss| == |es| + 1
  {
    Faithful(WorldAfter(es[..i]), ss[i].phase, es[i], self)
  }

  lemma StepAt(es: seq<Event>, self: Byte, ss: seq<State>, i: nat)
    requires AdmissibleRun(es, self, ss) && i < |es| && Mirrors(ss[i].table, WorldAfter(es[..i]))
    ensures ss[i + 1].table.objects == WorldAfter(es[..i + 1]) <==> FaithfulAt(es, self, ss, i)
    ensures FaithfulAt(es, self, ss, i) ==> Mirrors(ss[i + 1].table, WorldAfter(es[..i + 1]))
  {
    assert es[..i + 1][..i] == es[..i] && es[..i + 1][i] == es[i];
    StepMirrors(ss[i], ss[i + 1], WorldAfter(es[..i]), es[i], self);
    hide Faithful, WorldStep, SessionStep, Admissible, Bijective, OneInHand, Rooted;
  }

  /** As long as every message is faithful the table equals the server's region,
      names are in bijection, hands hold at most one item and no container is
      missing. */
  lemma {:induction false} RunMirrors(es: seq<Event>, self: Byte, ss: seq<State>, n: nat)
    requires AdmissibleRun(es, self, ss) && n <= |es| && forall i | 0 <= i < n :: FaithfulAt(es, self, ss, i)
    ensures Mirrors(ss[n].table, WorldAfter(es[..n]))
    decreases n
  {
    hide AdmissibleRun, Mirrors, FaithfulAt;
    if n == 0 {
      EmptyMirrors();
      FirstState(es, self, ss);
    } else {
      RunMirrors(es, self, ss, n - 1);
      StepAt(es, self, ss, n - 1);
    }
  }

  lemma FirstState(es: seq<Event>, self: Byte, ss: seq<State>)
    requires AdmissibleRun(es, self, ss)
    ensures ss[0].table == EMPTY && WorldAfter(es[..0]) == map[]
  {
    hide SessionStep, Admissible;
  }

  /** A faithless message shows at once. */
  lemma {:induction false} EqualUpTo(es: seq<Event>, self: Byte, ss: seq<State>, n: nat)
    requires AdmissibleRun(es, self, ss) && n <= |es|
    requires forall i | 0 <= i <= n :: ss[i].table.objects == WorldAfter(es[..i])
    ensures forall i | 0 <= i < n :: FaithfulAt(es, self, ss, i)
    decreases n
  {
    hide AdmissibleRun, Mirrors, FaithfulAt;
    if n > 0 {
      EqualUpTo(es, self, ss, n - 1);
      RunMirrors(es, self, ss, n - 1);
      StepAt(es, self, ss, n - 1);
    }
  }

  /** Over every run of creations, arrivals, departures, movements and context
      entries the table equals the server's region all along exactly when every
      message is faithful: whatever is made while a later arrival's noid is kept is
      directly inside that noid, and every effective move is mirrored. */
  lemma RunMirrorsExactly(es: seq<Event>, self: Byte, ss: seq<State>)
    requires AdmissibleRun(es, self, ss)
    ensures (forall i | 0 <= i <= |es| :: ss[i].table.objects == WorldAfter(es[..i]))
            <==> (forall i | 0 <= i < |es| :: FaithfulAt(es, self, ss, i))
  {
    assert |ss| == |es| + 1;
    hide AdmissibleRun, Mirrors, FaithfulAt;
    if forall i | 0 <= i < |es| :: FaithfulAt(es, self, ss, i) {
      forall n | 0 <= n <= |es| ensures ss[n].table.objects == WorldAfter(es[..n]) {
        RunMirrors(es, self, ss, n);
        MirrorsEqual(ss[n].table, WorldAfter(es[..n]));
      }
    } else if forall i | 0 <= i <= |es| :: ss[i].table.objects == WorldAfter(es[..i]) {
      EqualUpTo(es, self, ss, |es|);
    }
  }

  lemma MirrorsEqual(t: Table, w: World)
    requires Mirrors(t, w)
    ensures t.objects == w
  {
  }

  // ---------------------------------------------- after a later arrival

  /** The noid of a later arrival is never forgotten before the next entry: it is 0
      at the latest when that avatar is complete. */
  lemma {:induction false} ArrivalSticks(es: seq<Event>, self: Byte, ss: seq<State>, i: nat, j: nat)
    requires SessionRun(es, self, ss) && i <= j <= |es| && ss[i].phase.otherNoid.Some?
    requires forall k | i <= k < j :: es[k] != Enter
    ensures ss[j].phase.otherNoid.Some?
    decreases j - i
  {
    if i < j {
      assert SessionStep(ss[i], es[i], self, ss[i + 1]);
      hide Observed, AfterDelete, Unpack, Arrive, Bundle;
      ArrivalSticks(es, self, ss, i + 1, j);
    }
  }

  /** The session's answer to a message other than a movement. */
  ghost function Follow(s: State, e: Event): State
    requires !e.Act?
  {
    match e
    case Enter => State(EMPTY, ENTERING)
    case Made(a) =>
      var m := MakeStep(s.table, NO_RESTORE, s.phase, a);
      State(m.table, m.phase)
    case HereIs(m, ref) => s.(table := Unpack(s.table, NO_RESTORE, m, ref).table)
    case Ready => s.(phase := ReadyStep(s.phase))
    case Gone(ref) => s.(table := AfterDelete(s.table, ref))
  }

  lemma SamePrefixes(es: seq<Event>, e: Event)
    ensures forall i | 0 <= i <= |es| :: (es + [e])[..i] == es[..i]
  {
  }

  lemma GrowRun(es: seq<Event>, self: Byte, ss: seq<State>, e: Event, s': State)
    requires AdmissibleRun(es, self, ss) && SessionStep(ss[|es|], e, self, s')
    requires Admissible(WorldAfter(es), ss[|es|].phase, e)
    ensures AdmissibleRun(es + [e], self, ss + [s'])
  {
    hide SessionStep, Admissible, WorldAfter;
    var es', ss' := es + [e], ss + [s'];
    SamePrefixes(es, e);
    assert es[..|es|] == es;
    forall i | 0 <= i < |es'| ensures SessionStep(ss'[i], es'[i], self, ss'[i + 1]) {
      assert i < |es| ==> SessionStep(ss[i], es[i], self, ss[i + 1]);
    }
    forall i | 0 <= i < |es'| ensures Admissible(WorldAfter(es'[..i]), ss'[i].phase, es'[i]) {
      assert i < |es| ==> Admissible(WorldAfter(es[..i]), ss[i].phase, es[i]);
    }
  }

  /** One more message at the end of a run that was faithful so far. */
  lemma Grow(es: seq<Event>, self: Byte, ss: seq<State>, e: Event)
    requires AdmissibleRun(es, self, ss) && !e.Act?
    requires Mirrors(ss[|es|].table, WorldAfter(es)) && Admissible(ss[|es|].table.objects, ss[|es|].phase, e)
    ensures var s', w' := Follow(ss[|es|], e), WorldAfter(es + [e]);
            && AdmissibleRun(es + [e], self, ss + [s'])
            && (s'.table.objects == w' <==> Faithful(ss[|es|].table.objects, ss[|es|].phase, e, self))
            && (s'.table.objects == w' ==> Mirrors(s'.table, w'))
  {
    var s' := Follow(ss[|es|], e);
    assert SessionStep(ss[|es|], e, self, s');
    StepMirrors(ss[|es|], s', WorldAfter(es), e, self);
    hide SessionStep, Admissible, Faithful, Follow, WorldStep, Bijective, OneInHand, Rooted, AdmissibleRun;
    GrowRun(es, self, ss, e, s');
    assert (es + [e])[..|es|] == es;
  }

  /** A run that mirrors the server's region all along and ends in s. */
  ghost predicate Tracks(es: seq<Event>, self: Byte, ss: seq<State>, s: State)
  {
    && AdmissibleRun(es, self, ss) && ss[|es|] == s && Mirrors(s.table, s.table.objects)
    && forall i | 0 <= i <= |es| :: ss[i].table.objects == WorldAfter(es[..i])
  }

  lemma TracksWorld(es: seq<Event>, self: Byte, ss: seq<State>, s: State)
    requires Tracks(es, self, ss, s)
    ensures WorldAfter(es) == s.table.objects
  {
    assert es[..|es|] == es;
    hide AdmissibleRun, Mirrors;
  }

  lemma GrowTracks(es: seq<Event>, self: Byte, ss: seq<State>, s: State, e: Event)
    requires Tracks(es, self, ss, s) && !e.Act?
    requires Admissible(s.table.objects, s.phase, e) && Faithful(s.table.objects, s.phase, e, self)
    ensures Tracks(es + [e], self, ss + [Follow(s, e)], Follow(s, e))
  {
    TracksWorld(es, self, ss, s);
    hide Admissible, Faithful, Mirrors, Follow, WorldAfter;
    Grow(es, self, ss, e);
    assert |ss| == |es| + 1;
    MirrorsEqual(Follow(s, e).table, WorldAfter(es + [e]));
    hide AdmissibleRun;
    TablesGrow(es, ss, e, Follow(s, e));
  }

  lemma TablesGrow(es: seq<Event>, ss: seq<State>, e: Event, s': State)
    requires |ss| == |es| + 1 && s'.table.objects == WorldAfter(es + [e])
    requires forall i | 0 <= i <= |es| :: ss[i].table.objects == WorldAfter(es[..i])
    ensures forall i | 0 <= i <= |es| + 1 :: (ss + [s'])[i].table.objects == WorldAfter((es + [e])[..i])
  {
    hide WorldAfter;
    SamePrefixes(es, e);
    var es' := es + [e];
    assert es'[..|es'|] == es';
    forall i | 0 <= i <= |es'| ensures (ss + [s'])[i].table.objects == WorldAfter(es'[..i]) {
      if i <= |es| {
        assert es'[..i] == es[..i];
      }
    }
  }

  function Sample(ref: string, noid: Byte, containerRef: string, avatar: bool, you: Option<bool>): Arrival
  {
    Arrival(Make(ref, true, Some(noid), None, None, None, None), containerRef, avatar, you, None)
  }

  /** A sample object can be made while nothing has its names. */
  lemma SampleCreatable(t: Table, ref: string, noid: Byte, containerRef: string, avatar: bool, you: Option<bool>)
    requires Mirrors(t, t.objects) && noid !in t.objects && ref !in t.refToNoid
    ensures var a := Sample(ref, noid, containerRef, avatar, you);
            && Creatable(t.objects, a)
            && Created(t.objects, a).container
               == (if a.OtherAvatar() then REGION_NOID else ContainerNoid(t, containerRef))
  {
    NameAgrees(t, ref);
    NameAgrees(t, containerRef);
  }

  function SamplePhase(p: Phase, noid: Byte, avatar: bool, you: Option<bool>): Phase
  {
    var contents := p.waitingForContents || you == Some(true) || (p.waitingForAvatar && you.Some?);
    var other := if avatar && you != Some(true) && !p.waitingForAvatar then Some(noid) else p.otherNoid;
    Phase(p.waitingForAvatar, contents, other)
  }

  /** The session after a sample object that is not bundled. */
  lemma SampleMade(s: State, ref: string, noid: Byte, containerRef: string, avatar: bool, you: Option<bool>)
    requires Mirrors(s.table, s.table.objects) && noid !in s.table.objects && ref !in s.table.refToNoid
    ensures var s' := Follow(s, Made(Sample(ref, noid, containerRef, avatar, you)));
            && s'.table.refToNoid == s.table.refToNoid[ref := noid]
            && s'.table.objects.Keys == s.table.objects.Keys + {noid}
            && s'.phase == SamplePhase(s.phase, noid, avatar, you)
  {
    SampleCreatable(s.table, ref, noid, containerRef, avatar, you);
    MadeInserts(s.table, s.phase, Sample(ref, noid, containerRef, avatar, you));
    hide Bijective, Creatable, Created, OneInHand, Rooted;
  }

  lemma TrackSample(es: seq<Event>, self: Byte, ss: seq<State>, s: State,
                    ref: string, noid: Byte, containerRef: string, avatar: bool, you: Option<bool>)
    returns (es': seq<Event>, ss': seq<State>, s': State)
    requires Tracks(es, self, ss, s) && noid !in s.table.objects && ref !in s.table.refToNoid
    requires s.phase.otherNoid == None
    ensures Tracks(es', self, ss', s') && |es'| == |es| + 1
    ensures s'.table.refToNoid == s.table.refToNoid[ref := noid]
    ensures s'.table.objects.Keys == s.table.objects.Keys + {noid}
    ensures s'.phase == SamplePhase(s.phase, noid, avatar, you)
  {
    var a := Sample(ref, noid, containerRef, avatar, you);
    SampleCreatable(s.table, ref, noid, containerRef, avatar, you);
    SampleMade(s, ref, noid, containerRef, avatar, you);
    hide AdmissibleRun, Mirrors, Creatable, Follow, SamplePhase;
    GrowTracks(es, self, ss, s, Made(a));
    es', ss', s' := es + [Made(a)], ss + [Follow(s, Made(a))], Follow(s, Made(a));
  }

  lemma TrackReady(es: seq<Event>, self: Byte, ss: seq<State>, s: State)
    returns (es': seq<Event>, ss': seq<State>, s': State)
    requires Tracks(es, self, ss, s)
    ensures Tracks(es', self, ss', s') && |es'| == |es| + 1 && s' == s.(phase := ReadyStep(s.phase))
  {
    hide Tracks;
    GrowTracks(es, self, ss, s, Ready);
    es', ss', s' := es + [Ready], ss + [Follow(s, Ready)], Follow(s, Ready);
  }

  /** A region with a chest is entered, another avatar arrives and is complete. */
  lemma LateArrival(self: Byte) returns (es: seq<Event>, ss: seq<State>, s: State)
    ensures Tracks(es, self, ss, s) && |es| == 6 && s.phase == Phase(false, false, Some(0))
    ensures s.table.objects.Keys == {1, 2, 3}
    ensures s.table.refToNoid == map["me" := 1, "chest" := 2, "other" := 3]
  {
    s := State(EMPTY, ENTERING);
    StartTracks(self);
    hide Tracks;
    GrowTracks([], self, [s], s, Enter);
    es, ss := [] + [Enter], [s] + [s];
    es, ss, s := TrackSample(es, self, ss, s, "me", 1, "region", true, Some(true));
    es, ss, s := TrackSample(es, self, ss, s, "chest", 2, "region", false, None);
    es, ss, s := TrackReady(es, self, ss, s);
    es, ss, s := TrackSample(es, self, ss, s, "other", 3, "region", true, None);
    es, ss, s := TrackReady(es, self, ss, s);
  }

  lemma StartTracks(self: Byte)
    ensures Tracks([], self, [State(EMPTY, ENTERING)], State(EMPTY, ENTERING))
  {
    EmptyMirrors();
  }

  /** A region entered, another avatar arriving and completed, and then an object
      made in a chest: the server has it in the chest, the table in the region. */
  lemma LateMakeMisplaced(self: Byte) returns (es: seq<Event>, ss: seq<State>)
    ensures AdmissibleRun(es, self, ss) && |es| == 7
    ensures forall i | 0 <= i < 7 :: ss[i].table.objects == WorldAfter(es[..i])
    ensures var seen, held := ss[7].table.objects, WorldAfter(es);
            4 in seen && 4 in held && seen[4].container == REGION_NOID && held[4].container == 2
  {
    var before, states, s := LateArrival(self);
    var gem := Sample("gem", 4, "chest", false, None);
    GemCreatable(before, self, states, s);
    GemMisplaced(s, gem);
    hide Tracks, Creatable, Created, Follow, WorldStep, AdmissibleRun;
    GrowOnce(before, self, states, s, Made(gem));
    es, ss := before + [Made(gem)], states + [Follow(s, Made(gem))];
  }

  /** One more message, faithful or not, at the end of a mirroring run. */
  lemma GrowOnce(es: seq<Event>, self: Byte, ss: seq<State>, s: State, e: Event)
    requires Tracks(es, self, ss, s) && !e.Act? && Admissible(s.table.objects, s.phase, e)
    ensures var es', ss' := es + [e], ss + [Follow(s, e)];
            && AdmissibleRun(es', self, ss') && |ss'| == |es| + 2 && ss'[|es| + 1] == Follow(s, e)
            && (forall i | 0 <= i <= |es| :: ss'[i].table.objects == WorldAfter(es'[..i]))
            && WorldAfter(es') == WorldStep(s.table.objects, e)
  {
    TracksWorld(es, self, ss, s);
    WorldGrows(es, e);
    hide Admissible, Mirrors, Follow, WorldAfter, WorldStep;
    Grow(es, self, ss, e);
    assert |ss| == |es| + 1;
    hide AdmissibleRun;
    SamePrefixes(es, e);
  }

  lemma WorldGrows(es: seq<Event>, e: Event)
    ensures WorldAfter(es + [e]) == WorldStep(WorldAfter(es), e)
  {
    assert (es + [e])[..|es|] == es;
  }

  lemma GemCreatable(es: seq<Event>, self: Byte, ss: seq<State>, s: State)
    requires Tracks(es, self, ss, s) && 4 !in s.table.objects && "gem" !in s.table.refToNoid
    requires "chest" in s.table.refToNoid && s.table.refToNoid["chest"] == 2
    ensures var gem := Sample("gem", 4, "chest", false, None);
            && Mirrors(s.table, s.table.objects) && Creatable(s.table.objects, gem)
            && Created(s.table.objects, gem).container == 2 && Admissible(s.table.objects, s.phase, Made(gem))
  {
    SampleCreatable(s.table, "gem", 4, "chest", false, None);
    hide Mirrors, Creatable, Created;
  }

  lemma GemMisplaced(s: State, gem: Arrival)
    requires gem == Sample("gem", 4, "chest", false, None) && Mirrors(s.table, s.table.objects)
    requires Creatable(s.table.objects, gem) && Created(s.table.objects, gem).container == 2
    requires s.phase == Phase(false, false, Some(0))
    ensures var t' := Follow(s, Made(gem)).table;
            && 4 in t'.objects && t'.objects[4].container == REGION_NOID
            && WorldStep(s.table.objects, Made(gem))[4].container == 2
  {
    MadeInserts(s.table, s.phase, gem);
    hide MakeStep, Bijective, OneInHand, Rooted, Creatable, Created;
  }

  // ------------------------------------------------ the giver walks away

  lemma {:induction false} NeverReaches(up: Containers, x: Byte, to: Byte, giver: Byte, y: Byte, k: nat)
    requires x != giver && !Inside(up, to, giver) && !Inside(up, y, giver)
    ensures !Reaches(up[x := to], y, giver, k)
    decreases k
  {
    if k == 0 {
      assert Reaches(up, y, y, 0);
    } else if y == x {
      NeverReaches(up, x, to, giver, to, k - 1);
    } else if y != giver && y in up {
      if Inside(up, up[y], giver) {
        var j: nat :| Reaches(up, up[y], giver, j);
        assert Reaches(up, y, giver, j + 1);
      }
      NeverReaches(up, x, to, giver, up[y], k - 1);
    }
  }

  /** A handed-over item stays when its giver leaves: it is still in the receiver's
      hand, for the server and so for the table. */
  lemma TransferOutlivesGiver(w: World, item: Byte, giver: Byte, to: Byte)
    requires Legal(w, Hand(item, giver, to)) && item != giver && !Inside(ContainersOf(w), to, giver)
    ensures var left := Departed(Perform(w, Hand(item, giver, to)), giver);
            giver !in left && item in left && InHand(left[item], to) && to in left
  {
    var up := ContainersOf(w);
    var up' := up[item := to];
    assert Reaches(up, giver, giver, 0);
    assert ContainersOf(Perform(w, Hand(item, giver, to))) == up';
    forall k: nat | Reaches(up', item, giver, k) ensures false {
      NeverReaches(up, item, to, giver, to, k - 1);
    }
    forall k: nat | Reaches(up', to, giver, k) ensures false {
      NeverReaches(up, item, to, giver, to, k);
    }
  }

  /** So the bridge's table keeps it: after the message about the transfer and the
      sweep of the giver the item is still known, in the receiver's hand. */
  lemma TransferOutlivesSweep(t: Table, t': Table, item: Byte, giver: Byte, to: Byte, self: Byte)
    requires Mirrors(t, t.objects) && Legal(t.objects, Hand(item, giver, to)) && item != giver
    requires !Inside(ContainersOf(t.objects), to, giver) && Observed(Hand(item, giver, to), self, t, t')
    ensures var left := Removed(t', Within(ContainersOf(t'.objects), giver) + {giver});
            && giver !in left.objects && item in left.objects && InHand(left.objects[item], to)
            && left.objects[item].ref in left.refToNoid && left.refToNoid[left.objects[item].ref] == item
  {
    var a := Hand(item, giver, to);
    ActionMoves(t, t', a, self);
    ActionMirrors(t, t', a, self);
    TransferOutlivesGiver(t.objects, item, giver, to);
    RemovedBijective(t', Within(ContainersOf(t'.objects), giver) + {giver});
    assert t'.objects == Perform(t.objects, a);
    hide Within, OneInHand, Legal, HandMoved, Rooted;
  }
}
