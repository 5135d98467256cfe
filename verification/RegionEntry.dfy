/** Entering a region: when a session takes the region for complete, and what its
    messages do at the edges. */
module RegionEntry {
  import opened Bits
  import opened Options
  import opened ObjectTable
  import opened RegionRuns

  /** A message by which the session learns of its own avatar while it waits for it:
      one marked as its own, or one about an object the bridge takes that is marked
      at all. */
  predicate OwnAvatar(e: Event)
  {
    && e.Made? && e.arrival.you.Some?
    && (e.arrival.you.value || e.arrival.make.supported || e.arrival.make.noid == Some(256))
  }

  ghost predicate OwnSeen(es: seq<Event>, i: nat, j: nat)
    requires j <= |es|
  {
    exists k | i <= k < j :: OwnAvatar(es[k])
  }

  /** A `ready` has come after the own avatar. */
  ghost predicate Complete(es: seq<Event>, i: nat, j: nat)
    requires j <= |es|
  {
    exists l | i <= l < j :: es[l].Ready? && OwnSeen(es, i, l)
  }

  lemma EntryStep(s: State, e: Event, self: Byte, s': State)
    requires SessionStep(s, e, self, s') && !e.Enter?
    ensures s'.phase.waitingForAvatar <==>
              s.phase.waitingForAvatar && !(e.Ready? && s.phase.waitingForContents)
    ensures s'.phase.waitingForAvatar ==>
              (s'.phase.waitingForContents <==> s.phase.waitingForContents || OwnAvatar(e))
              && (s.phase.otherNoid == None ==> s'.phase.otherNoid == None)
  {
    hide Observed, AfterDelete, Insert, Learn, ClientNoid, ContainerNoid, TranslateField, TranslateWide, Bundle;
  }

  /** From a context entry on, a session takes its region for complete exactly when a
      `ready` came after its own avatar, and knows of no later arrival before that. */
  lemma {:induction false} EntersExactly(es: seq<Event>, self: Byte, ss: seq<State>, i: nat, j: nat)
    requires SessionRun(es, self, ss) && i <= j <= |es| && ss[i].phase == Phase(true, false, None)
    requires forall k | i <= k < j :: !es[k].Enter?
    ensures !ss[j].phase.waitingForAvatar <==> Complete(es, i, j)
    ensures ss[j].phase.waitingForAvatar ==>
              (ss[j].phase.waitingForContents <==> OwnSeen(es, i, j)) && ss[j].phase.otherNoid == None
    decreases j
  {
    if i < j {
      EntersExactly(es, self, ss, i, j - 1);
      EntryStep(ss[j - 1], es[j - 1], self, ss[j]);
      hide SessionStep, OwnAvatar;
      CompleteLater(es, i, j);
    }
  }

  lemma CompleteLater(es: seq<Event>, i: nat, j: nat)
    requires i < j <= |es|
    ensures OwnSeen(es, i, j) <==> OwnSeen(es, i, j - 1) || OwnAvatar(es[j - 1])
    ensures Complete(es, i, j) <==> Complete(es, i, j - 1) || (es[j - 1].Ready? && OwnSeen(es, i, j - 1))
  {
    hide OwnAvatar;
  }

  /** Entering is where that begins. */
  lemma EnterBegins(s: State, self: Byte, s': State)
    requires SessionStep(s, Enter, self, s')
    ensures s'.phase == Phase(true, false, None) && s'.table.objects == map[] && s'.table.refToNoid == map[]
            && s'.table.order == []
  {
  }

  /** A missing noid is dereferenced exactly for an unassigned object that is made once
      the region is complete, with no later arrival kept, and is no arriving avatar. */
  lemma PanicsExactly(t: Table, r: Restore, p: Phase, a: Arrival)
    ensures MakeStep(t, r, p, a).panics <==>
              a.make.noid == Some(256) && !p.waitingForAvatar && p.otherNoid == None
              && !(a.avatar && a.you != Some(true))
  {
    hide Insert, Learn, ClientNoid, ContainerNoid, TranslateField, TranslateWide, Seated;
  }

  /** A server noid is narrowed to a byte, and one that is missing is the region's. */
  lemma NoidExactly(m: Make)
    ensures m.noid == None ==> ElkoNoid(m) == 0
    ensures m.noid.Some? ==> ElkoNoid(m) < 256 && (m.noid.value - ElkoNoid(m)) % 256 == 0
  {
  }

  /** A restore is over exactly when the `ready` that completes the region comes; from
      then on every message is taken as it is. */
  lemma RestoreEnds(r: Restore, p: Phase, m: Make, n: Byte)
    requires r.active
    ensures var r' := ReadyRestore(r, p);
            && (!r'.active <==> p.waitingForContents) && (r'.active ==> r' == r)
            && (!r'.active ==> ClientNoid(r', m) == ElkoNoid(m) && Learn(r', m) == r' && Translate(r', n) == n)
  {
  }

  /** Without an active restore a message is taken as if there had never been one,
      whatever noids are still remembered. */
  lemma InactiveIsPlain(t: Table, r: Restore, a: Arrival)
    requires !r.active
    ensures Arrive(t, r, a) == Arrive(t, NO_RESTORE, a).(restore := r)
  {
  }
}
