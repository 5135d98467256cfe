/** One object at a time: when the bridge's entry for it is right, whatever the table
    has wrong about others. */
module RegionObjects {
  import opened Bits
  import opened Options
  import opened ContainerGraph
  import opened ObjectTable
  import opened RegionRuns
  import opened RegionNames

  /** The table knows exactly the objects that are there, by their names. */
  ghost predicate NamesAgree(t: Table, w: World)
  {
    && Bijective(t) && (forall n :: n in t.objects <==> n in w)
    && forall n | n in w :: t.objects[n].ref == w[n].ref
  }

  /** What a message does to the table does not depend on entries that are wrong: a
      transfer finds its item alone in the giver's hand, and a departure takes along
      for the table what it takes along for the server. */
  ghost predicate Guided(t: Table, w: World, e: Event, self: Byte)
  {
    match e
    case Act(a) =>
      a.Hand? || (a.Grab? && a.actor != self) ==>
        forall n | n in t.objects :: InHand(t.objects[n], a.from) <==> n == a.item
    case Gone(ref) =>
      ref in t.refToNoid ==>
        Within(ContainersOf(t.objects), t.refToNoid[ref]) == Within(ContainersOf(w), t.refToNoid[ref])
    case _ => true
  }

  predicate About(e: Event, n: Byte)
  {
    match e
    case Made(a) => !Unassigned(a.make) && ElkoNoid(a.make) == n
    case HereIs(m, _) => ElkoNoid(m) == n
    case Act(a) => n == a.item || (a.Select? && n == a.chosen)
    case _ => false
  }

  /** The bridge records where the message puts its object. */
  ghost predicate Shown(w: World, p: Phase, e: Event, self: Byte)
  {
    match e
    case Made(a) => Bundling(p, a).Some? ==> Created(w, a).container == Bundling(p, a).value
    case Act(a) => Mirrored(a, self)
    case _ => true
  }

  ghost predicate Right(t: Table, w: World, n: Byte)
  {
    n in t.objects && n in w && t.objects[n] == w[n]
  }

  // ------------------------------------------------------------- one message

  lemma NamedAlike(t: Table, w: World, ref: string)
    requires NamesAgree(t, w)
    ensures Named(w, ref) == if ref in t.refToNoid then Some(t.refToNoid[ref]) else None
    ensures WorldContainer(w, ref) == WorldContainer(t.objects, ref)
  {
    NameAgrees(t, ref);
    if ref in t.refToNoid {
      assert NamedBy(w, t.refToNoid[ref], ref);
    }
  }

  lemma CreatedAlike(t: Table, w: World, a: Arrival)
    requires NamesAgree(t, w)
    ensures Created(t.objects, a) == Created(w, a)
  {
    NamedAlike(t, w, a.containerRef);
    hide NamesAgree, WorldContainer;
  }

  lemma MadeObject(s: State, w: World, a: Arrival)
    requires NamesAgree(s.table, w) && Creatable(w, a)
    ensures var noid, entry := ElkoNoid(a.make), Created(w, a);
            var seen := if Bundling(s.phase, a).Some? then entry.(container := Bundling(s.phase, a).value) else entry;
            && MakeStep(s.table, NO_RESTORE, s.phase, a).table == Insert(s.table, noid, seen)
            && noid !in s.table.objects && entry.ref !in s.table.refToNoid
  {
    NamedAlike(s.table, w, a.make.ref);
    NameAgrees(s.table, a.make.ref);
    CreatedAlike(s.table, w, a);
    hide Bijective, Created, Insert, Bundling, MakeStep;
    MadeInserts(s.table, s.phase, a);
  }

  lemma InsertObject(t: Table, w: World, noid: Byte, seen: Entry, entry: Entry)
    requires NamesAgree(t, w) && noid !in t.objects && seen.ref == entry.ref && seen.ref !in t.refToNoid
    ensures NamesAgree(Insert(t, noid, seen), w[noid := entry])
  {
    FreshBijective(t, noid, seen);
    hide Bijective;
  }

  lemma ActObject(t: Table, t': Table, w: World, a: Action, self: Byte)
    requires NamesAgree(t, w) && Legal(w, a) && Observed(a, self, t, t') && Guided(t, w, Act(a), self)
    ensures t' == if Mirrored(a, self) then Moved(t, a.item, Receiver(a), ReceivingSlot(a)) else t
  {
    hide Bijective;
  }

  lemma SameNamesAgree(t: Table, t': Table, w: World, w': World)
    requires NamesAgree(t, w) && SameNames(t, t')
    requires (forall n :: n in w' <==> n in w) && forall n | n in w :: w'[n].ref == w[n].ref
    ensures NamesAgree(t', w')
  {
    SameNamesBijective(t, t');
    hide Bijective;
    assert forall n :: n in t.objects <==> n in t.objects.Keys;
    assert forall n :: n in t'.objects <==> n in t'.objects.Keys;
  }

  lemma ActNamesAgree(t: Table, t': Table, w: World, a: Action, self: Byte)
    requires NamesAgree(t, w) && Observed(a, self, t, t')
    ensures NamesAgree(t', Perform(w, a))
  {
    hide NamesAgree, SameNames, Observed, Perform;
    ActNames(t, t', a, self);
    PerformNames(w, a);
    SameNamesAgree(t, t', w, Perform(w, a));
  }

  lemma PerformNames(w: World, a: Action)
    ensures forall n :: n in Perform(w, a) <==> n in w
    ensures forall n | n in w :: Perform(w, a)[n].ref == w[n].ref
  {
    hide Receiver, ReceivingSlot;
  }

  lemma RemovedAgrees(t: Table, w: World, gone: set<Byte>)
    requires NamesAgree(t, w)
    ensures NamesAgree(Removed(t, gone), w - gone)
    ensures forall n | n in w - gone :: n in w && (w - gone)[n] == w[n] && Removed(t, gone).objects[n] == t.objects[n]
  {
    RemovedBijective(t, gone);
    hide Bijective, Remaining;
  }

  lemma GoneObject(t: Table, w: World, ref: string, self: Byte)
    requires NamesAgree(t, w) && Guided(t, w, Gone(ref), self)
    ensures NamesAgree(AfterDelete(t, ref), WorldStep(w, Gone(ref)))
    ensures forall n | n in WorldStep(w, Gone(ref)) :: n in w && n in AfterDelete(t, ref).objects
              && WorldStep(w, Gone(ref))[n] == w[n] && AfterDelete(t, ref).objects[n] == t.objects[n]
  {
    NamedAlike(t, w, ref);
    hide Named, Within, Removed, Bijective;
    if ref in t.refToNoid {
      RemovedAgrees(t, w, Within(ContainersOf(w), t.refToNoid[ref]) + {t.refToNoid[ref]});
    }
  }

  /** A guided message keeps the names in agreement, whatever else is wrong. */
  lemma StepNames(s: State, s': State, w: World, e: Event, self: Byte)
    requires NamesAgree(s.table, w) && Admissible(w, s.phase, e) && SessionStep(s, e, self, s')
    requires Guided(s.table, w, e, self)
    ensures NamesAgree(s'.table, WorldStep(w, e))
  {
    hide NamesAgree, Observed, MakeStep, AfterDelete, Perform, Created, Creatable, Legal, Bundling, Unpack;
    hide Insert;
    match e
    case Enter => EmptyAgrees();
    case Made(a) =>
      if Unassigned(a.make) {
        UnassignedChangesNothing(s.table, s.phase, a);
      } else {
        var entry := Created(w, a);
        MadeObject(s, w, a);
        var seen := if Bundling(s.phase, a).Some? then entry.(container := Bundling(s.phase, a).value) else entry;
        InsertObject(s.table, w, ElkoNoid(a.make), seen, entry);
      }
    case HereIs(m, ref) =>
      HereIsObject(s.table, w, m, ref);
      InsertObject(s.table, w, ElkoNoid(m), Created(w, Described(m, ref)), Created(w, Described(m, ref)));
    case Ready =>
    case Gone(ref) => GoneObject(s.table, w, ref, self);
    case Act(a) => ActNamesAgree(s.table, s'.table, w, a, self);
  }

  lemma EmptyAgrees()
    ensures NamesAgree(EMPTY, map[])
  {
  }

  lemma HereIsObject(t: Table, w: World, m: Make, ref: string)
    requires NamesAgree(t, w) && Creatable(w, Described(m, ref))
    ensures var noid, entry := ElkoNoid(m), Created(w, Described(m, ref));
            && Unpack(t, NO_RESTORE, m, ref).table == Insert(t, noid, entry)
            && noid !in t.objects && entry.ref !in t.refToNoid
  {
    NameAgrees(t, m.ref);
    CreatedAlike(t, w, Described(m, ref));
    hide Bijective, Created, Insert, Unpack;
    UnpackInserts(t, m, ref);
  }

  /** What a message is not about keeps its entry on both sides; what it is about is
      right afterwards exactly when the bridge records the message, or has the object
      already where a movement puts it. */
  lemma StepObject(s: State, s': State, w: World, e: Event, self: Byte, n: Byte)
    requires NamesAgree(s.table, w) && Admissible(w, s.phase, e) && SessionStep(s, e, self, s')
    requires Guided(s.table, w, e, self) && n in WorldStep(w, e)
    ensures !About(e, n) ==> n in w && (Right(s'.table, WorldStep(w, e), n) <==> Right(s.table, w, n))
    ensures About(e, n) ==> (Right(s'.table, WorldStep(w, e), n) <==>
              Shown(w, s.phase, e, self)
              || (e.Act? && n in s.table.objects && s.table.objects[n] == WorldStep(w, e)[n]))
  {
    hide Bijective, Observed, MakeStep, AfterDelete, Created, Creatable, Bundling, Unpack, Named, Departed;
    hide Guided;
    match e
    case Enter =>
    case Made(a) =>
      if Unassigned(a.make) {
        UnassignedChangesNothing(s.table, s.phase, a);
      } else {
        MadeObject(s, w, a);
      }
    case HereIs(m, ref) => HereIsObject(s.table, w, m, ref);
    case Ready =>
    case Gone(ref) => GoneObject(s.table, w, ref, self);
    case Act(a) => ActObject(s.table, s'.table, w, a, self);
  }

  // -------------------------------------------------------------------- runs

  ghost predicate GuidedRun(es: seq<Event>, self: Byte, ss: seq<State>)
  {
    && AdmissibleRun(es, self, ss)
    && forall i | 0 <= i < |es| :: Guided(ss[i].table, WorldAfter(es[..i]), es[i], self)
  }

  lemma StepOfRun(es: seq<Event>, self: Byte, ss: seq<State>, i: nat)
    requires GuidedRun(es, self, ss) && i < |es|
    ensures |ss| == |es| + 1 && SessionStep(ss[i], es[i], self, ss[i + 1])
    ensures Admissible(WorldAfter(es[..i]), ss[i].phase, es[i])
    ensures Guided(ss[i].table, WorldAfter(es[..i]), es[i], self)
    ensures WorldAfter(es[..i + 1]) == WorldStep(WorldAfter(es[..i]), es[i])
  {
    assert es[..i + 1][..i] == es[..i] && es[..i + 1][i] == es[i];
    hide SessionStep, Admissible, Guided, WorldStep;
  }

  /** Over every guided run the table knows exactly the objects that are there, even
      where it has them in the wrong place. */
  lemma {:induction false} NamesAgreeAll(es: seq<Event>, self: Byte, ss: seq<State>, j: nat)
    requires GuidedRun(es, self, ss) && j <= |es|
    ensures |ss| == |es| + 1 && NamesAgree(ss[j].table, WorldAfter(es[..j]))
    decreases j
  {
    hide NamesAgree, GuidedRun, SessionStep, Admissible, Guided, WorldStep, WorldAfter;
    if j == 0 {
      RunStarts(es, self, ss);
      EmptyAgrees();
    } else {
      NamesAgreeAll(es, self, ss, j - 1);
      StepOfRun(es, self, ss, j - 1);
      StepNames(ss[j - 1], ss[j], WorldAfter(es[..j - 1]), es[j - 1], self);
    }
  }

  lemma RunStarts(es: seq<Event>, self: Byte, ss: seq<State>)
    requires GuidedRun(es, self, ss)
    ensures |ss| == |es| + 1 && ss[0].table == EMPTY && WorldAfter(es[..0]) == map[]
  {
    hide SessionStep, Admissible, Guided;
  }

  /** The i-th message is the last about n before the j-th. */
  predicate LastAbout(es: seq<Event>, n: Byte, i: nat, j: nat)
    requires j <= |es|
  {
    i < j && About(es[i], n) && forall k | i < k < j :: !About(es[k], n)
  }

  /** Every object that is there has a last message about it. */
  lemma {:induction false} LastAboutExists(es: seq<Event>, self: Byte, ss: seq<State>, n: Byte, j: nat)
    returns (i: nat)
    requires GuidedRun(es, self, ss) && j <= |es| && n in WorldAfter(es[..j])
    ensures LastAbout(es, n, i, j)
    decreases j
  {
    hide NamesAgree, GuidedRun, SessionStep, Admissible, Guided, WorldStep, WorldAfter, About, Right, Shown;
    if j == 0 {
      RunStarts(es, self, ss);
    } else if About(es[j - 1], n) {
      i := j - 1;
    } else {
      NamesAgreeAll(es, self, ss, j - 1);
      StepOfRun(es, self, ss, j - 1);
      StepObject(ss[j - 1], ss[j], WorldAfter(es[..j - 1]), es[j - 1], self, n);
      i := LastAboutExists(es, self, ss, n, j - 1);
    }
  }

  /** An object's entry is right exactly when the bridge recorded the last message
      about it, or had it already where that message moved it; nothing that is wrong
      about other objects matters. */
  lemma {:induction false} ObjectRight(es: seq<Event>, self: Byte, ss: seq<State>, n: Byte, i: nat, j: nat)
    requires GuidedRun(es, self, ss) && j <= |es| && LastAbout(es, n, i, j) && n in WorldAfter(es[..j])
    ensures |ss| == |es| + 1 && n in WorldAfter(es[..i + 1])
    ensures Right(ss[j].table, WorldAfter(es[..j]), n) <==>
              Shown(WorldAfter(es[..i]), ss[i].phase, es[i], self)
              || (es[i].Act? && n in ss[i].table.objects && ss[i].table.objects[n] == WorldAfter(es[..i + 1])[n])
    decreases j
  {
    hide NamesAgree, GuidedRun, SessionStep, Admissible, Guided, WorldStep, WorldAfter, About, Right, Shown;
    NamesAgreeAll(es, self, ss, j - 1);
    StepOfRun(es, self, ss, j - 1);
    StepObject(ss[j - 1], ss[j], WorldAfter(es[..j - 1]), es[j - 1], self, n);
    if i < j - 1 {
      ObjectRight(es, self, ss, n, i, j - 1);
    }
  }
}
