/** The names in the bridge's table over whole runs, whatever the messages record
    wrongly: when noids and refs stay mutually inverse, and how they cease to be. */
module RegionNames {
  import opened Bits
  import opened Options
  import opened ContainerGraph
  import opened ObjectTable
  import opened RegionRuns

  /** Both names of a described object are new to the table, unless it is passed
      over. */
  predicate UnusedBy(t: Table, m: Make)
  {
    Unassigned(m) || !m.supported || (ElkoNoid(m) !in t.objects && m.ref !in t.refToNoid)
  }

  predicate NamesUnused(t: Table, e: Event)
  {
    match e
    case Made(a) => UnusedBy(t, a.make)
    case HereIs(m, _) => UnusedBy(t, m)
    case _ => true
  }

  /** Two tables that name the same objects the same way. */
  ghost predicate SameNames(t: Table, u: Table)
  {
    && t.objects.Keys == u.objects.Keys && t.refToNoid == u.refToNoid && t.order == u.order
    && forall n | n in t.objects :: t.objects[n].ref == u.objects[n].ref
  }

  lemma SameNamesBijective(t: Table, u: Table)
    requires SameNames(t, u)
    ensures Bijective(t) <==> Bijective(u)
  {
    assert forall n :: n in t.objects <==> n in u.objects by {
      assert forall n :: n in t.objects <==> n in t.objects.Keys;
    }
  }

  lemma UnpackNames(t: Table, m: Make, containerRef: string)
    requires Bijective(t)
    ensures Bijective(Unpack(t, NO_RESTORE, m, containerRef).table) <==> UnusedBy(t, m)
  {
    if !Unassigned(m) && m.supported {
      InsertBijective(t, ElkoNoid(m), Entry(m.ref, ContainerNoid(t, containerRef), m.y));
      hide Bijective, Insert;
    }
  }

  /** Seating and bundling change places only. */
  lemma MakeNames(t: Table, p: Phase, a: Arrival)
    ensures SameNames(Unpack(t, NO_RESTORE, a.make, a.containerRef).table, MakeStep(t, NO_RESTORE, p, a).table)
  {
    hide ContainerNoid, TranslateField, TranslateWide, Learn;
  }

  lemma ActNames(t: Table, t': Table, a: Action, self: Byte)
    requires Observed(a, self, t, t')
    ensures SameNames(t, t')
  {
    hide Mirrored, ReceivingSlot, Receiver;
  }

  /** A message keeps the names in bijection exactly when the names it brings are
      new. */
  lemma StepExactly(s: State, e: Event, self: Byte, s': State)
    requires Bijective(s.table) && SessionStep(s, e, self, s')
    ensures Bijective(s'.table) <==> NamesUnused(s.table, e)
  {
    hide Unpack, MakeStep, Observed, UnusedBy, Removed, SameNames;
    match e
    case Enter =>
    case Made(a) =>
      UnpackNames(s.table, a.make, a.containerRef);
      MakeNames(s.table, s.phase, a);
      SameNamesBijective(Unpack(s.table, NO_RESTORE, a.make, a.containerRef).table, s'.table);
      hide Bijective;
    case HereIs(m, ref) =>
      UnpackNames(s.table, m, ref);
      hide Bijective;
    case Ready =>
    case Gone(ref) =>
      if ref in s.table.refToNoid {
        var n := s.table.refToNoid[ref];
        RemovedBijective(s.table, Within(ContainersOf(s.table.objects), n) + {n});
      }
      hide Bijective;
    case Act(a) =>
      ActNames(s.table, s'.table, a, self);
      SameNamesBijective(s.table, s'.table);
      hide Bijective;
  }

  lemma {:induction false} RunKeepsNames(es: seq<Event>, self: Byte, ss: seq<State>, n: nat)
    requires SessionRun(es, self, ss) && n <= |es|
    requires forall i | 0 <= i < n :: NamesUnused(ss[i].table, es[i])
    ensures Bijective(ss[n].table)
    decreases n
  {
    hide NamesUnused, SessionStep;
    if n > 0 {
      RunKeepsNames(es, self, ss, n - 1);
      hide Bijective;
      StepExactly(ss[n - 1], es[n - 1], self, ss[n]);
    }
  }

  /** Over every run of a session, faithful or not, noids and refs are mutually
      inverse all along exactly when every described object has a noid and a ref
      that the table does not hold. */
  lemma RunExactly(es: seq<Event>, self: Byte, ss: seq<State>)
    requires SessionRun(es, self, ss)
    ensures (forall i | 0 <= i <= |es| :: Bijective(ss[i].table))
            <==> (forall i | 0 <= i < |es| :: NamesUnused(ss[i].table, es[i]))
  {
    hide NamesUnused, SessionStep, Bijective;
    if forall i | 0 <= i < |es| :: NamesUnused(ss[i].table, es[i]) {
      forall i | 0 <= i <= |es| ensures Bijective(ss[i].table) {
        RunKeepsNames(es, self, ss, i);
      }
    } else if forall i | 0 <= i <= |es| :: Bijective(ss[i].table) {
      forall i | 0 <= i < |es| ensures NamesUnused(ss[i].table, es[i]) {
        StepExactly(ss[i], es[i], self, ss[i + 1]);
      }
    }
  }

  // ---------------------------------------------------- a noid used again

  const GEM: Arrival := Sample("gem", 4, "chest", false, None)
  const NEW: Arrival := Sample("new", 4, "region", false, None)

  /** A region with a chest, and a gem inside the chest that the table has in the
      region; two more names are free. */
  ghost predicate GemOutside(s: State, w: World)
  {
    && Bijective(s.table) && s.phase == Phase(false, false, Some(0)) && GemNamed(s.table)
    && "chest" in s.table.refToNoid && s.table.refToNoid["chest"] == 2
    && "new" !in s.table.refToNoid && "region" !in s.table.refToNoid && REGION_NOID !in s.table.objects
    && (forall n | n in w :: n in s.table.objects && w[n].ref == s.table.objects[n].ref)
    && 2 in w && 4 in w && w[4].container == 2 && s.table.objects[4].container == REGION_NOID
  }

  ghost predicate GemNamed(t: Table)
  {
    4 in t.objects && "gem" in t.refToNoid && t.refToNoid["gem"] == 4
  }

  /** A run that kept the names in bijection and ends in s. */
  ghost predicate NamedRun(es: seq<Event>, self: Byte, ss: seq<State>, s: State)
  {
    && AdmissibleRun(es, self, ss) && ss[|es|] == s
    && forall i | 0 <= i <= |es| :: Bijective(ss[i].table)
  }

  lemma NamedGrow(es: seq<Event>, self: Byte, ss: seq<State>, s: State, e: Event, s': State)
    requires NamedRun(es, self, ss, s) && SessionStep(s, e, self, s') && Bijective(s'.table)
    requires Admissible(WorldAfter(es), s.phase, e)
    ensures NamedRun(es + [e], self, ss + [s'], s')
  {
    assert |ss| == |es| + 1;
    hide SessionStep, Admissible, WorldAfter, Bijective, AdmissibleRun;
    GrowRun(es, self, ss, e, s');
    forall i | 0 <= i <= |es| + 1 ensures Bijective((ss + [s'])[i].table) {
      if i <= |es| {
        assert (ss + [s'])[i] == ss[i];
      }
    }
  }

  lemma TracksNamed(es: seq<Event>, self: Byte, ss: seq<State>, s: State)
    requires Tracks(es, self, ss, s)
    ensures NamedRun(es, self, ss, s)
  {
    hide Bijective;
    forall i | 0 <= i <= |es| ensures Bijective(ss[i].table) {
      TracksBijective(es, self, ss, s, i);
    }
    hide AdmissibleRun;
  }

  lemma MisplacedGem(self: Byte) returns (es: seq<Event>, ss: seq<State>, s: State)
    ensures NamedRun(es, self, ss, s) && |es| == 7 && GemOutside(s, WorldAfter(es))
  {
    var before, states, s' := LateArrival(self);
    GemCreatable(before, self, states, s');
    GemMade(s');
    TracksNamed(before, self, states, s');
    s := Follow(s', Made(GEM));
    TracksWorld(before, self, states, s');
    hide Tracks, Created, Creatable;
    WorldGrows(before, Made(GEM));
    OutsideNamed(s, WorldAfter(before + [Made(GEM)]));
    assert SessionStep(s', Made(GEM), self, s);
    hide NamedRun, Admissible, SessionStep, Follow, WorldStep, WorldAfter, GemOutside, Bijective;
    NamedGrow(before, self, states, s', Made(GEM), s);
    es, ss := before + [Made(GEM)], states + [s];
  }

  lemma OutsideNamed(s: State, w: World)
    requires GemOutside(s, w)
    ensures Bijective(s.table)
  {
  }

  lemma TracksBijective(es: seq<Event>, self: Byte, ss: seq<State>, s: State, i: nat)
    requires Tracks(es, self, ss, s) && i <= |es|
    ensures |ss| == |es| + 1 && Bijective(ss[i].table)
  {
    hide Admissible, Mirrors;
    assert SessionRun(es, self, ss);
    TracksFaithful(es, self, ss, s);
    hide AdmissibleRun;
    RunMirrors(es, self, ss, i);
    MirroredNames(ss[i].table, WorldAfter(es[..i]));
  }

  lemma MirroredNames(t: Table, w: World)
    requires Mirrors(t, w)
    ensures Bijective(t)
  {
  }

  lemma TracksFaithful(es: seq<Event>, self: Byte, ss: seq<State>, s: State)
    requires Tracks(es, self, ss, s)
    ensures |ss| == |es| + 1 && forall i | 0 <= i < |es| :: FaithfulAt(es, self, ss, i)
  {
    RunMirrorsExactly(es, self, ss);
    hide AdmissibleRun, Mirrors, FaithfulAt;
  }

  lemma GemMade(s: State)
    requires Mirrors(s.table, s.table.objects) && s.phase == Phase(false, false, Some(0))
    requires s.table.refToNoid == map["me" := 1, "chest" := 2, "other" := 3] && s.table.objects.Keys == {1, 2, 3}
    requires Creatable(s.table.objects, GEM) && Created(s.table.objects, GEM).container == 2
    ensures GemOutside(Follow(s, Made(GEM)), WorldStep(s.table.objects, Made(GEM)))
  {
    var entry := Created(s.table.objects, GEM);
    GemPlaced(s);
    hide OneInHand, Rooted, Creatable, Created, MakeStep;
    ThreeNames(s.table);
    hide Bijective;
    GemInserted(s.table, entry, Follow(s, Made(GEM)));
  }

  lemma GemPlaced(s: State)
    requires Mirrors(s.table, s.table.objects) && s.phase == Phase(false, false, Some(0))
    requires Creatable(s.table.objects, GEM)
    ensures var s', entry := Follow(s, Made(GEM)), Created(s.table.objects, GEM);
            && entry.ref == "gem" && s'.phase == s.phase
            && s'.table == Insert(s.table, 4, entry.(container := REGION_NOID))
            && WorldStep(s.table.objects, Made(GEM)) == s.table.objects[4 := entry]
  {
    hide Bijective, OneInHand, Rooted, Creatable, Insert, WorldContainer, Unpack;
    MadeInserts(s.table, s.phase, GEM);
  }

  lemma ThreeNames(t: Table)
    requires t.refToNoid == map["me" := 1, "chest" := 2, "other" := 3] && t.objects.Keys == {1, 2, 3}
    ensures 2 in t.objects && 4 !in t.objects && REGION_NOID !in t.objects
    ensures "chest" in t.refToNoid && t.refToNoid["chest"] == 2 && "gem" !in t.refToNoid
    ensures "new" !in t.refToNoid && "region" !in t.refToNoid
  {
    assert 2 in t.objects.Keys && 4 !in t.objects.Keys && REGION_NOID !in t.objects.Keys;
  }

  lemma GemInserted(t: Table, entry: Entry, s: State)
    requires Bijective(t) && entry.ref == "gem" && entry.container == 2 && 2 in t.objects && 4 !in t.objects
    requires REGION_NOID !in t.objects && "chest" in t.refToNoid && t.refToNoid["chest"] == 2
    requires "gem" !in t.refToNoid && "new" !in t.refToNoid && "region" !in t.refToNoid
    requires s == State(Insert(t, 4, entry.(container := REGION_NOID)), Phase(false, false, Some(0)))
    ensures GemOutside(s, t.objects[4 := entry])
  {
    hide Bijective;
    FreshBijective(t, 4, entry.(container := REGION_NOID));
  }

  lemma NotInChest(up: Containers)
    requires 4 in up && up[4] == REGION_NOID && REGION_NOID !in up
    ensures 4 !in Within(up, 2)
  {
    forall k: nat ensures !Reaches(up, 4, 2, k) {
      if k > 0 {
        assert !Reaches(up, up[4], 2, k - 1);
      }
    }
  }

  /** The chest goes: the table keeps the gem. */
  lemma GemSurvives(t: Table)
    requires Bijective(t) && GemNamed(t) && "chest" in t.refToNoid && t.refToNoid["chest"] == 2
    requires t.objects[4].container == REGION_NOID && REGION_NOID !in t.objects
    ensures GemNamed(AfterDelete(t, "chest")) && Bijective(AfterDelete(t, "chest"))
  {
    hide Within, Bijective, Removed, Remaining;
    var gone := Within(ContainersOf(t.objects), 2) + {2};
    NotInChest(ContainersOf(t.objects));
    RemovedBijective(t, gone);
    GemKeepsName(t, gone);
    hide GemNamed;
  }

  lemma GemKeepsName(t: Table, gone: set<Byte>)
    requires Bijective(t) && GemNamed(t) && 4 !in gone
    ensures GemNamed(Removed(t, gone))
  {
    assert t.objects[4].ref == "gem";
    hide Remaining;
  }

  lemma ChestTakesGem(w: World)
    requires 2 in w && 4 in w && w[4].container == 2 && w[2].ref == "chest"
    requires forall n | n in w :: w[n].ref == "chest" ==> n == 2
    ensures Named(w, "chest") == Some(2) && 4 !in Departed(w, 2)
    ensures forall n | n in Departed(w, 2) :: n in w && Departed(w, 2)[n] == w[n]
  {
    assert NamedBy(w, 2, "chest");
    assert Reaches(ContainersOf(w), 2, 2, 0) && Reaches(ContainersOf(w), 4, 2, 1);
    assert 4 in Within(ContainersOf(w), 2);
    hide Within;
  }

  /** For the server the gem goes with it, and both its names are free. */
  lemma NamesFree(s: State, w: World)
    requires GemOutside(s, w)
    ensures Admissible(WorldStep(w, Gone("chest")), s.phase, Made(NEW))
  {
    hide Within, Departed, Named, Creatable, Created, Perform, MakeStep;
    hide Bijective;
    NamedChest(s.table);
    NamesFit(s.table);
    ChestTakesGem(w);
    NewCreatable(Departed(w, 2));
  }

  lemma NamedChest(t: Table)
    requires Bijective(t) && "chest" in t.refToNoid && t.refToNoid["chest"] == 2
    ensures 2 in t.objects && forall n | n in t.objects :: t.objects[n].ref == "chest" <==> n == 2
  {
  }

  lemma NamesFit(t: Table)
    requires Bijective(t)
    ensures forall n | n in t.objects :: t.objects[n].ref in t.refToNoid
  {
  }

  lemma NewCreatable(w: World)
    requires 4 !in w && forall n | n in w :: w[n].ref != "new" && w[n].ref != "region"
    ensures Creatable(w, NEW)
  {
    assert Named(w, "region") == None;
  }

  lemma ChestGone(self: Byte) returns (es: seq<Event>, ss: seq<State>, s: State)
    ensures NamedRun(es, self, ss, s) && |es| == 8 && Bijective(s.table) && GemNamed(s.table)
    ensures Admissible(WorldAfter(es), s.phase, Made(NEW))
  {
    hide *;
    var made, states, before := MisplacedGem(self);
    s := before.(table := AfterDelete(before.table, "chest"));
    OutsideGem(before, WorldAfter(made));
    GemSurvives(before.table);
    NamesFree(before, WorldAfter(made));
    GoneSteps(before, WorldAfter(made), "chest", self);
    WorldGrows(made, Gone("chest"));
    NamedGrow(made, self, states, before, Gone("chest"), s);
    es, ss := made + [Gone("chest")], states + [s];
  }

  lemma OutsideGem(s: State, w: World)
    requires GemOutside(s, w)
    ensures Bijective(s.table) && GemNamed(s.table) && "chest" in s.table.refToNoid && s.table.refToNoid["chest"] == 2
    ensures 4 in s.table.objects && s.table.objects[4].container == REGION_NOID && REGION_NOID !in s.table.objects
  {
    hide Bijective;
  }

  lemma GoneSteps(s: State, w: World, ref: string, self: Byte)
    ensures SessionStep(s, Gone(ref), self, s.(table := AfterDelete(s.table, ref)))
    ensures Admissible(w, s.phase, Gone(ref))
  {
    hide AfterDelete;
  }

  /** A run in which the server never uses a name twice at one time, after which one
      noid stands twice in the order of creation and has two refs. */
  lemma NoidReused(self: Byte) returns (es: seq<Event>, ss: seq<State>)
    ensures AdmissibleRun(es, self, ss) && |es| == 9
    ensures forall i | 0 <= i <= 8 :: Bijective(ss[i].table)
    ensures var t := ss[9].table;
            && !Bijective(t) && "gem" in t.refToNoid && "new" in t.refToNoid
            && t.refToNoid["gem"] == t.refToNoid["new"] == 4
  {
    var before, states, s := ChestGone(self);
    var s' := Follow(s, Made(NEW));
    NewNamed(s, self);
    hide NamedRun, Admissible, AdmissibleRun, SessionStep, Follow, Bijective, WorldAfter;
    OneMore(before, self, states, s, Made(NEW), s');
    es, ss := before + [Made(NEW)], states + [s'];
  }

  lemma OneMore(es: seq<Event>, self: Byte, ss: seq<State>, s: State, e: Event, s': State)
    requires NamedRun(es, self, ss, s) && SessionStep(s, e, self, s') && Admissible(WorldAfter(es), s.phase, e)
    ensures AdmissibleRun(es + [e], self, ss + [s']) && |ss| == |es| + 1 && (ss + [s'])[|es| + 1] == s'
    ensures forall i | 0 <= i <= |es| :: Bijective((ss + [s'])[i].table)
  {
    assert |ss| == |es| + 1;
    hide SessionStep, Admissible, WorldAfter, Bijective, AdmissibleRun;
    GrowRun(es, self, ss, e, s');
    assert forall i | 0 <= i <= |es| :: (ss + [s'])[i] == ss[i];
  }

  lemma NewNamed(s: State, self: Byte)
    requires Bijective(s.table) && GemNamed(s.table)
    ensures var s' := Follow(s, Made(NEW));
            && SessionStep(s, Made(NEW), self, s') && !Bijective(s'.table)
            && "gem" in s'.table.refToNoid && "new" in s'.table.refToNoid
            && s'.table.refToNoid["gem"] == s'.table.refToNoid["new"] == 4
  {
    var s' := Follow(s, Made(NEW));
    MakeNames(s.table, s.phase, NEW);
    assert SessionStep(s, Made(NEW), self, s');
    StepExactly(s, Made(NEW), self, s');
    hide Bijective, MakeStep, SessionStep;
  }
}
