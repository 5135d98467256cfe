/** Login alerts: a login is posted unless the user left within the last five
    minutes. The clock of departures is pruned, and must answer as if it were not. */
module Presence {
  import opened Options

  /** Times in nanoseconds. */
  const SECOND := 1_000_000_000
  const DEBOUNCE_WINDOW := 300 * SECOND
  const HISTORY_CAP := 500
  const PRUNE_LEN := 1024

  type Clock = map<string, int>

  /** Why a login was not posted. */
  datatype Reason = ConcurrentSession | Debounce | Hidden | Bot | Disabled

  datatype Observation =
    | Connected(time: int, userRef: string, reason: Option<Reason>)
    | Disconnected(time: int, userRef: string)

  /** A login as the alert sees it: whether another session of the user is live,
      whether the avatar is hidden or a bot. */
  datatype Login = Login(userRef: string, concurrent: bool, hidden: bool, bot: bool)

  predicate Debounced(last: Clock, ref: string, now: int)
  {
    ref in last && now - last[ref] < DEBOUNCE_WINDOW
  }

  function Decide(last: Clock, login: Login, enabled: bool, now: int): Option<Reason>
  {
    if login.concurrent then Some(ConcurrentSession)
    else if Debounced(last, login.userRef, now) then Some(Debounce)
    else if login.hidden then Some(Hidden)
    else if login.bot then Some(Bot)
    else if !enabled then Some(Disabled)
    else None
  }

  function Pruned(last: Clock, now: int): Clock
  {
    map ref | ref in last && now - last[ref] < DEBOUNCE_WINDOW :: last[ref]
  }

  function Stamped(last: Clock, ref: string, now: int): Clock
  {
    var all := last[ref := now];
    if |all| > PRUNE_LEN then Pruned(all, now) else all
  }

  /** The later of two stamps for every user; `unix` holds seconds. */
  function Imported(last: Clock, unix: map<string, int>): Clock
  {
    map ref | ref in last.Keys + unix.Keys ::
      if ref in unix && (ref !in last || unix[ref] * SECOND > last[ref]) then unix[ref] * SECOND else last[ref]
  }

  function Exported(last: Clock): map<string, int>
  {
    map ref | ref in last :: last[ref] / SECOND
  }

  function Tail<T>(s: seq<T>, n: nat): seq<T>
  {
    if |s| > n then s[|s| - n..] else s
  }

  /** A session of the bridge as the scan sees it; without a user yet its ref is
      empty. */
  datatype Live = Live(userRef: string, hidden: bool, bot: bool)

  function Refs(live: seq<Live>): set<string>
  {
    set s | s in live && s.userRef != "" && !s.hidden && !s.bot :: s.userRef
  }

  /** What the other sessions say about a login: whether the user is already in, and
      how many different people are, the one arriving included. */
  method ScanSessions(userRef: string, hidden: bool, bot: bool, others: seq<Live>)
    returns (concurrent: bool, humans: nat)
    requires userRef != ""
    ensures concurrent <==> exists s | s in others :: s.userRef == userRef
    ensures humans == |Refs([Live(userRef, hidden, bot)] + others)|
  {
    var arriving := Live(userRef, hidden, bot);
    var seen := {};
    if !hidden && !bot {
      seen := {userRef};
    }
    concurrent := false;
    assert [arriving] + others[..0] == [arriving];
    for i := 0 to |others|
      invariant concurrent <==> exists s | s in others[..i] :: s.userRef == userRef
      invariant seen == Refs([arriving] + others[..i])
    {
      var s := others[i];
      assert others[..i + 1] == others[..i] + [s];
      assert [arriving] + others[..i + 1] == [arriving] + others[..i] + [s];
      RefsSnoc([arriving] + others[..i], s);
      if s.userRef == "" {
        continue;
      }
      if s.userRef == userRef {
        concurrent := true;
      }
      if !s.hidden && !s.bot {
        seen := seen + {s.userRef};
      }
    }
    assert others[..|others|] == others;
    humans := |seen|;
  }

  lemma RefsSnoc(live: seq<Live>, s: Live)
    ensures Refs(live + [s]) == Refs(live) + if s.userRef != "" && !s.hidden && !s.bot then {s.userRef} else {}
  {
    forall r | r in Refs(live + [s]) && !(r == s.userRef && !s.hidden && !s.bot) ensures r in Refs(live) {
      var o :| o in live + [s] && o.userRef == r && o.userRef != "" && !o.hidden && !o.bot;
      assert o in live;
    }
  }

  /** Those counted are the users of the visible sessions, bots apart. */
  lemma RefsExactly(live: seq<Live>, ref: string)
    ensures ref in Refs(live) <==>
              ref != "" && exists i | 0 <= i < |live| :: live[i].userRef == ref && !live[i].hidden && !live[i].bot
  {
    if i :| 0 <= i < |live| && live[i].userRef == ref && !live[i].hidden && !live[i].bot {
      assert live[i] in live;
    }
  }

  class Registry {
    const enabled: bool
    var lastDisconnect: Clock
    var history: seq<Observation>

    constructor (enabled: bool)
      ensures this.enabled == enabled && lastDisconnect == map[] && history == []
    {
      this.enabled, lastDisconnect, history := enabled, map[], [];
    }

    method Record(ev: Observation)
      modifies this`history
      ensures history == Tail(old(history) + [ev], HISTORY_CAP)
    {
      history := history + [ev];
      if |history| > HISTORY_CAP {
        history := history[|history| - HISTORY_CAP..];
      }
    }

    /** Decides whether a login is posted, and records it either way. */
    method NoteConnect(login: Login, now: int) returns (posted: bool)
      modifies this`history
      ensures login.userRef == "" ==> !posted && history == old(history)
      ensures login.userRef != "" ==>
                var ev := Connected(now, login.userRef, Decide(lastDisconnect, login, enabled, now));
                history == Tail(old(history) + [ev], HISTORY_CAP)
      ensures posted <==> login.userRef != "" && enabled && !login.concurrent && !login.hidden && !login.bot
                          && !Debounced(lastDisconnect, login.userRef, now)
    {
      if login.userRef == "" {
        return false;
      }
      var reason := None;
      if login.concurrent {
        reason := Some(ConcurrentSession);
      } else if login.userRef in lastDisconnect && now - lastDisconnect[login.userRef] < DEBOUNCE_WINDOW {
        reason := Some(Debounce);
      }
      if reason == None {
        if login.hidden {
          reason := Some(Hidden);
        } else if login.bot {
          reason := Some(Bot);
        }
      }
      if reason == None && !enabled {
        reason := Some(Disabled);
      }
      Record(Connected(now, login.userRef, reason));
      posted := reason == None;
    }

    /** Stamps the clock, and forgets expired stamps once there are many. */
    method NoteDisconnect(userRef: string, now: int)
      modifies this
      ensures userRef == "" ==> lastDisconnect == old(lastDisconnect) && history == old(history)
      ensures userRef != "" ==>
                && lastDisconnect == Stamped(old(lastDisconnect), userRef, now)
                && history == Tail(old(history) + [Disconnected(now, userRef)], HISTORY_CAP)
    {
      if userRef == "" {
        return;
      }
      lastDisconnect := lastDisconnect[userRef := now];
      if |lastDisconnect| > PRUNE_LEN {
        Prune(now);
      }
      Record(Disconnected(now, userRef));
    }

    method Prune(now: int)
      modifies this`lastDisconnect
      ensures lastDisconnect == Pruned(old(lastDisconnect), now)
    {
      var keys := lastDisconnect.Keys;
      while keys != {}
        invariant keys <= lastDisconnect.Keys <= old(lastDisconnect).Keys
        invariant forall ref | ref in lastDisconnect :: lastDisconnect[ref] == old(lastDisconnect)[ref]
        invariant forall ref | ref in old(lastDisconnect) && ref !in keys ::
                    ref in lastDisconnect <==> now - old(lastDisconnect)[ref] < DEBOUNCE_WINDOW
        decreases keys
      {
        var ref :| ref in keys;
        keys := keys - {ref};
        if now - lastDisconnect[ref] >= DEBOUNCE_WINDOW {
          lastDisconnect := lastDisconnect - {ref};
        }
      }
    }

    /** Takes over the stamps of the process before a handoff. */
    method ImportDebounce(unix: map<string, int>)
      modifies this`lastDisconnect
      ensures lastDisconnect == Imported(old(lastDisconnect), unix)
    {
      var keys := unix.Keys;
      while keys != {}
        invariant keys <= unix.Keys
        invariant lastDisconnect.Keys == old(lastDisconnect).Keys + (unix.Keys - keys)
        invariant forall ref | ref in lastDisconnect ::
                    lastDisconnect[ref] == if ref in keys && ref in old(lastDisconnect) then old(lastDisconnect)[ref]
                                           else Imported(old(lastDisconnect), unix)[ref]
        decreases keys
      {
        var ref :| ref in keys;
        keys := keys - {ref};
        var t := unix[ref] * SECOND;
        if ref !in lastDisconnect || t > lastDisconnect[ref] {
          lastDisconnect := lastDisconnect[ref := t];
        }
      }
    }
  }

  // --------------------------------------------- the clock that never forgets

  datatype Event =
    | Connect(login: Login, now: int)
    | Disconnect(userRef: string, now: int)
    | Import(unix: map<string, int>)

  datatype State = State(last: Clock, history: seq<Observation>)

  /** The registry's own step. */
  function Step(s: State, e: Event, enabled: bool): State
  {
    match e
    case Connect(login, now) =>
      if login.userRef == "" then s
      else
        var ev := Connected(now, login.userRef, Decide(s.last, login, enabled, now));
        s.(history := Tail(s.history + [ev], HISTORY_CAP))
    case Disconnect(ref, now) =>
      if ref == "" then s
      else State(Stamped(s.last, ref, now), Tail(s.history + [Disconnected(now, ref)], HISTORY_CAP))
    case Import(unix) => s.(last := Imported(s.last, unix))
  }

  /** The same with a clock that keeps every stamp and a history that keeps every
      observation. */
  function FullStep(s: State, e: Event, enabled: bool): State
  {
    match e
    case Connect(login, now) =>
      if login.userRef == "" then s
      else s.(history := s.history + [Connected(now, login.userRef, Decide(s.last, login, enabled, now))])
    case Disconnect(ref, now) =>
      if ref == "" then s else State(s.last[ref := now], s.history + [Disconnected(now, ref)])
    case Import(unix) => s.(last := Imported(s.last, unix))
  }

  function Run(es: seq<Event>, enabled: bool): State
    decreases |es|
  {
    if es == [] then State(map[], []) else Step(Run(es[..|es| - 1], enabled), es[|es| - 1], enabled)
  }

  function FullRun(es: seq<Event>, enabled: bool): State
    decreases |es|
  {
    if es == [] then State(map[], []) else FullStep(FullRun(es[..|es| - 1], enabled), es[|es| - 1], enabled)
  }

  /** The clock does not run backwards. */
  ghost predicate Monotone(es: seq<Event>)
  {
    forall i, j | 0 <= i < j < |es| && !es[i].Import? && !es[j].Import? :: es[i].now <= es[j].now
  }

  /** No event of the run is later than t. */
  ghost predicate EndsBy(es: seq<Event>, t: int)
  {
    forall i | 0 <= i < |es| && !es[i].Import? :: es[i].now <= t
  }

  /** Pruning at p changes the answer for a query at q exactly when the stamp is
      expired at p and not at q. */
  lemma PruneExact(last: Clock, ref: string, p: int, q: int)
    ensures Debounced(Pruned(last, p), ref, q) == Debounced(last, ref, q)
            <==> !(ref in last && q < last[ref] + DEBOUNCE_WINDOW <= p)
  {
  }

  /** The pruned clock agrees with the full one, or both have long expired. */
  ghost predicate Agree(pruned: Clock, full: Clock, t: int)
  {
    && pruned.Keys <= full.Keys
    && forall ref | ref in full ::
      (ref in pruned && pruned[ref] == full[ref])
      || (t - full[ref] >= DEBOUNCE_WINDOW && (ref in pruned ==> pruned[ref] <= full[ref]))
  }

  lemma AgreeLater(pruned: Clock, full: Clock, s: int, t: int)
    requires Agree(pruned, full, s) && s <= t
    ensures Agree(pruned, full, t)
  {
  }

  lemma StampAgrees(pruned: Clock, full: Clock, ref: string, now: int)
    requires Agree(pruned, full, now)
    ensures Agree(Stamped(pruned, ref, now), full[ref := now], now)
  {
  }

  lemma ImportAgrees(pruned: Clock, full: Clock, unix: map<string, int>, t: int)
    requires Agree(pruned, full, t)
    ensures Agree(Imported(pruned, unix), Imported(full, unix), t)
  {
  }

  lemma TailGrows<T>(s: seq<T>, x: T, n: nat)
    requires n > 0
    ensures Tail(Tail(s, n) + [x], n) == Tail(s + [x], n)
  {
  }

  lemma {:induction false} PrunedFollows(es: seq<Event>, enabled: bool, t: int)
    requires Monotone(es) && EndsBy(es, t)
    ensures Run(es, enabled).history == Tail(FullRun(es, enabled).history, HISTORY_CAP)
    ensures Agree(Run(es, enabled).last, FullRun(es, enabled).last, t)
    ensures var pruned, full := Run(es, enabled).last, FullRun(es, enabled).last;
            forall login, now | t <= now :: Decide(pruned, login, enabled, now) == Decide(full, login, enabled, now)
    decreases |es|
  {
    if es != [] {
      var k := |es| - 1;
      var e := es[k];
      var u := if e.Import? then t else e.now;
      assert Monotone(es[..k]) && EndsBy(es[..k], u);
      PrunedFollows(es[..k], enabled, u);
      var s, f := Run(es[..k], enabled), FullRun(es[..k], enabled);
      match e
      case Connect(login, now) =>
        TailGrows(f.history, Connected(now, login.userRef, Decide(f.last, login, enabled, now)), HISTORY_CAP);
      case Disconnect(ref, now) =>
        StampAgrees(s.last, f.last, ref, now);
        TailGrows(f.history, Disconnected(now, ref), HISTORY_CAP);
      case Import(unix) =>
        ImportAgrees(s.last, f.last, unix, t);
      AgreeLater(Run(es, enabled).last, FullRun(es, enabled).last, u, t);
    }
    AgreeDecides(Run(es, enabled).last, FullRun(es, enabled).last, enabled, t);
  }

  /** On every run whose clock does not run backwards the registry decides every
      login, and records it, as if it forgot nothing; only the oldest observations
      beyond the cap are missing. */
  lemma PrunedAnswersAsFull(es: seq<Event>, enabled: bool, t: int)
    requires Monotone(es) && EndsBy(es, t)
    ensures var kept, all := Run(es, enabled).history, FullRun(es, enabled).history;
            kept == if |all| <= 500 then all else all[|all| - 500..]
    ensures Agree(Run(es, enabled).last, FullRun(es, enabled).last, t)
    ensures var pruned, full := Run(es, enabled).last, FullRun(es, enabled).last;
            forall login, now | t <= now :: Decide(pruned, login, enabled, now) == Decide(full, login, enabled, now)
  {
    PrunedFollows(es, enabled, t);
    hide Run, FullRun, Agree, Decide;
  }

  lemma AgreeDecides(pruned: Clock, full: Clock, enabled: bool, t: int)
    requires Agree(pruned, full, t)
    ensures forall login, now | t <= now :: Decide(pruned, login, enabled, now) == Decide(full, login, enabled, now)
  {
  }

  /** A clock longer than the limit holds only users who left within the window. */
  lemma PruningBounds(last: Clock, ref: string, now: int)
    ensures ref in Stamped(last, ref, now) && Stamped(last, ref, now)[ref] == now
    ensures |last.Keys + {ref}| <= 1024 ==> Stamped(last, ref, now) == last[ref := now]
    ensures |Stamped(last, ref, now)| <= 1024
            || forall r | r in Stamped(last, ref, now) :: now - Stamped(last, ref, now)[r] < 300_000_000_000
  {
    var all := last[ref := now];
    assert all.Keys == last.Keys + {ref} && |all| == |all.Keys|;
    if |all| > PRUNE_LEN {
      PrunedKeeps(all, ref, now);
    }
  }

  lemma PrunedKeeps(last: Clock, ref: string, now: int)
    requires ref in last && last[ref] == now
    ensures ref in Pruned(last, now) && Pruned(last, now)[ref] == now
  {
  }

  /** A handoff rounds stamps down to seconds: nobody is debounced who was not, and
      nobody is let through more than a second early. */
  lemma HandoffDebounce(last: Clock, ref: string, now: int)
    ensures var carried := Imported(map[], Exported(last));
            && carried.Keys == last.Keys
            && (Debounced(carried, ref, now) ==> Debounced(last, ref, now))
            && (Debounced(last, ref, now + SECOND) ==> Debounced(carried, ref, now))
  {
    if ref in last {
      assert last[ref] - SECOND < last[ref] / SECOND * SECOND <= last[ref];
    }
  }

  // ---------------------------------------- the decision in the run's own terms

  /** Every user gets the later of the stamps known here and carried over. */
  lemma ImportedExactly(last: Clock, unix: map<string, int>, ref: string)
    ensures ref in Imported(last, unix) <==> ref in last || ref in unix
    ensures ref in Imported(last, unix) ==>
              var t := Imported(last, unix)[ref];
              && (ref in last ==> t >= last[ref]) && (ref in unix ==> t >= unix[ref] * 1_000_000_000)
              && ((ref in last && t == last[ref]) || (ref in unix && t == unix[ref] * 1_000_000_000))
  {
  }

  /** The user left at that event, or a handoff told of it. */
  predicate Stamps(e: Event, ref: string)
  {
    match e
    case Disconnect(r, _) => r == ref && ref != ""
    case Import(unix) => ref in unix
    case Connect(_, _) => false
  }

  /** Between the i-th event, where the user left, and the end nothing is heard of the
      user's leaving again. */
  ghost predicate LeftLast(es: seq<Event>, ref: string, i: nat)
  {
    && i < |es| && es[i].Disconnect? && es[i].userRef == ref && ref != ""
    && forall k | i < k < |es| :: !Stamps(es[k], ref)
  }

  lemma {:induction false} ClockRemembers(es: seq<Event>, enabled: bool, ref: string, i: nat)
    requires LeftLast(es, ref, i)
    ensures var last := FullRun(es, enabled).last; ref in last && last[ref] == es[i].now
    decreases |es|
  {
    var k := |es| - 1;
    if i < k {
      assert forall m | i < m < k :: es[..k][m] == es[m];
      ClockRemembers(es[..k], enabled, ref, i);
      assert !Stamps(es[k], ref);
    }
  }

  lemma {:induction false} ClockSilent(es: seq<Event>, enabled: bool, ref: string)
    requires forall k | 0 <= k < |es| :: !Stamps(es[k], ref)
    ensures ref !in FullRun(es, enabled).last
    decreases |es|
  {
    if es != [] {
      var k := |es| - 1;
      assert forall m | 0 <= m < k :: es[..k][m] == es[m];
      ClockSilent(es[..k], enabled, ref);
      assert !Stamps(es[k], ref);
    }
  }

  /** After any run whose clock does not run backwards, the pruned registry silences a
      login for a recent departure exactly when the user, not live elsewhere, left
      less than 300 seconds ago, as far as the user's leaving was last heard of here;
      a user never heard of leaving is never silenced for it. */
  lemma DebounceExactly(es: seq<Event>, enabled: bool, login: Login, now: int)
    requires Monotone(es) && EndsBy(es, now) && login.userRef != ""
    ensures forall i: nat | LeftLast(es, login.userRef, i) ::
              Decide(Run(es, enabled).last, login, enabled, now) == Some(Debounce)
              <==> !login.concurrent && now - es[i].now < 300_000_000_000
    ensures (forall k | 0 <= k < |es| :: !Stamps(es[k], login.userRef)) ==>
              Decide(Run(es, enabled).last, login, enabled, now) != Some(Debounce)
  {
    PrunedAnswersAsFull(es, enabled, now);
    hide Run, Agree;
    forall i: nat | LeftLast(es, login.userRef, i)
      ensures Decide(FullRun(es, enabled).last, login, enabled, now) == Some(Debounce)
              <==> !login.concurrent && now - es[i].now < 300_000_000_000
    {
      ClockRemembers(es, enabled, login.userRef, i);
    }
    if forall k | 0 <= k < |es| :: !Stamps(es[k], login.userRef) {
      ClockSilent(es, enabled, login.userRef);
    }
  }

  /** The reason recorded is the first that applies, in this order: another session,
      a recent departure, a hidden avatar, a bot, alerts switched off. */
  lemma ReasonExactly(last: Clock, login: Login, enabled: bool, now: int)
    ensures var r := Decide(last, login, enabled, now);
            var recent := login.userRef in last && now - last[login.userRef] < 300_000_000_000;
            && (r == Some(ConcurrentSession) <==> login.concurrent)
            && (r == Some(Debounce) <==> !login.concurrent && recent)
            && (r == Some(Hidden) <==> !login.concurrent && !recent && login.hidden)
            && (r == Some(Bot) <==> !login.concurrent && !recent && !login.hidden && login.bot)
            && (r == None ==> enabled)
            && (r == Some(Disabled) ==> !enabled)
  {
  }
}
