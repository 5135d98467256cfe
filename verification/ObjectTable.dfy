/** The table of the objects a client knows, as a value: noid to object, ref to
    noid and the order of creation; what removal, creation and movement do to it;
    and the rewriting of freshly allocated server noids after a restart. */
module ObjectTable {
  import opened Bits
  import opened Options
  import opened ContainerGraph

  const REGION_NOID: Byte := 0
  const AVATAR_HAND: Byte := 5
  const AVATAR_HEAD: Byte := 6
  const UNASSIGNED_NOID: Wide := 256
  const PHANTOM_REQUEST: Byte := 0xFA
  const GOAWAY: Byte := 9

  /** Noids as the server sends them; one past the byte range is a sentinel. */
  type Wide = n: int | 0 <= n < 0x10000

  /** A tracked object as a value. */
  datatype Entry = Entry(ref: string, container: Byte, y: Option<Byte>)

  datatype Table = Table(objects: map<Byte, Entry>, refToNoid: map<string, Byte>, order: seq<Byte>)

  const EMPTY := Table(map[], map[], [])

  function ContainersOf(objects: map<Byte, Entry>): Containers
  {
    map n | n in objects :: objects[n].container
  }

  // ------------------------------------------------------- sequences of noids

  predicate NoDups(s: seq<Byte>)
  {
    forall i, j | 0 <= i < j < |s| :: s[i] != s[j]
  }

  /** s with the first occurrence of every member of `gone` deleted. */
  ghost function Remaining(s: seq<Byte>, gone: set<Byte>): seq<Byte>
    decreases s
  {
    if s == [] then []
    else if s[0] in gone then Remaining(s[1..], gone - {s[0]})
    else [s[0]] + Remaining(s[1..], gone)
  }

  lemma {:induction false} RemainingTwice(s: seq<Byte>, a: set<Byte>, b: set<Byte>)
    requires a !! b
    ensures Remaining(Remaining(s, a), b) == Remaining(s, a + b)
    decreases s
  {
    if s != [] {
      var n, rest := s[0], s[1..];
      if n in a {
        RemainingTwice(rest, a - {n}, b);
        assert a - {n} + b == a + b - {n};
      } else if n in b {
        RemainingTwice(rest, a, b - {n});
        assert a + (b - {n}) == a + b - {n};
        assert ([n] + Remaining(rest, a))[1..] == Remaining(rest, a);
      } else {
        RemainingTwice(rest, a, b);
        assert ([n] + Remaining(rest, a))[1..] == Remaining(rest, a);
      }
    }
  }

  /** Deleting the one element where it first occurs. */
  lemma {:induction false} RemainingAt(s: seq<Byte>, i: nat)
    requires i < |s| && s[i] !in s[..i]
    ensures Remaining(s, {s[i]}) == s[..i] + s[i + 1..]
    decreases s
  {
    if i == 0 {
      RemainingNone(s[1..]);
      assert {s[0]} - {s[0]} == {};
    } else {
      assert s[1..][..i - 1] == s[1..i] && s[..i] == [s[0]] + s[1..i];
      RemainingAt(s[1..], i - 1);
      assert s[0] in s[..i] && s[0] != s[i];
    }
  }

  lemma {:induction false} RemainingNone(s: seq<Byte>)
    ensures Remaining(s, {}) == s
    decreases s
  {
    if s != [] {
      RemainingNone(s[1..]);
    }
  }

  lemma {:induction false} RemainingAbsent(s: seq<Byte>, n: Byte)
    requires n !in s
    ensures Remaining(s, {n}) == s
    decreases s
  {
    if s != [] {
      RemainingAbsent(s[1..], n);
    }
  }

  /** On a duplicate-free sequence this keeps exactly the elements outside. */
  lemma {:induction false} RemainingMembers(s: seq<Byte>, gone: set<Byte>)
    requires NoDups(s)
    ensures NoDups(Remaining(s, gone))
    ensures forall n :: n in Remaining(s, gone) <==> n in s && n !in gone
    decreases s
  {
    if s != [] {
      forall i, j | 0 <= i < j < |s[1..]| ensures s[1..][i] != s[1..][j] {
        assert s[1..][i] == s[i + 1] && s[1..][j] == s[j + 1];
      }
      assert s[0] !in s[1..];
      RemainingMembers(s[1..], gone - {s[0]});
      RemainingMembers(s[1..], gone);
    }
  }

  // ----------------------------------------------------------------- removal

  /** The table without the given noids. */
  ghost function Removed(t: Table, gone: set<Byte>): Table
  {
    Table(
      t.objects - gone,
      t.refToNoid - (set n | n in gone && n in t.objects :: t.objects[n].ref),
      Remaining(t.order, gone))
  }

  lemma RemovedTwice(t: Table, a: set<Byte>, b: set<Byte>)
    requires a !! b
    ensures Removed(Removed(t, a), b) == Removed(t, a + b)
  {
    RemainingTwice(t.order, a, b);
    assert t.objects - a - b == t.objects - (a + b);
    var ra := set n | n in a && n in t.objects :: t.objects[n].ref;
    var rb := set n | n in b && n in t.objects - a :: t.objects[n].ref;
    var rc := set n | n in a + b && n in t.objects :: t.objects[n].ref;
    forall r ensures r in ra + rb <==> r in rc {
      if r in rc {
        var n :| n in a + b && n in t.objects && t.objects[n].ref == r;
        assert n in a || n in t.objects - a;
      }
    }
    assert ra + rb == rc;
    assert t.refToNoid - ra - rb == t.refToNoid - rc;
  }

  /** The GOAWAY packet that makes the client forget a noid. */
  function GoAway(noid: Byte): seq<Byte>
  {
    [0x55, PHANTOM_REQUEST, REGION_NOID, GOAWAY, noid]
  }

  function GoAways(noids: seq<Byte>): seq<seq<Byte>>
  {
    seq(|noids|, i requires 0 <= i < |noids| => GoAway(noids[i]))
  }

  lemma GoAwaysConcat(a: seq<Byte>, b: seq<Byte>)
    ensures GoAways(a + b) == GoAways(a) + GoAways(b)
  {
  }

  /** The order in which a sweep reports what it removes: the start first, then
      exactly the objects inside it, each once and each after its container. */
  ghost predicate IsSweep(up: Containers, start: Byte, log: seq<Byte>)
  {
    && log != [] && log[0] == start && NoDups(log)
    && (forall n :: n in log <==> n == start || n in Within(up, start))
    && ContainersFirst(up, log)
  }

  ghost predicate ContainersFirst(up: Containers, log: seq<Byte>)
  {
    forall i | 0 < i < |log| :: log[i] in up && up[log[i]] in log[..i]
  }

  /** A sweep that has dealt with some children of its start: `gone` is what was
      inside them, and `log` reports the start and all of it. */
  ghost predicate PartialSweep(up: Containers, start: Byte, swept: set<Byte>, gone: set<Byte>, log: seq<Byte>)
  {
    && swept <= Children(up, start)
    && (forall x :: x in gone <==> exists c | c in swept :: x in Within(up - {start}, c))
    && log != [] && log[0] == start && NoDups(log)
    && (forall n :: n in log <==> n == start || n in gone)
    && ContainersFirst(up, log)
  }

  lemma ChildApart(up: Containers, start: Byte, swept: set<Byte>, gone: set<Byte>, log: seq<Byte>, c: Byte)
    requires PartialSweep(up, start, swept, gone, log) && c in Children(up, start) && c !in swept
    ensures gone !! Within(up - {start}, c)
    ensures Within(up - {start} - gone, c) == Within(up - {start}, c)
    ensures c in Within(up - {start}, c) && start !in Within(up - {start}, c) && start !in gone
  {
    var rest := up - {start};
    forall x | x in gone ensures x !in Within(rest, c) {
      var d :| d in swept && x in Within(rest, d);
      SiblingsDisjoint(rest, start, d, c);
    }
    WithinAfter(rest, gone, c);
    assert Reaches(rest, c, c, 0);
  }

  lemma SweepChild(up: Containers, start: Byte, swept: set<Byte>, gone: set<Byte>, log: seq<Byte>,
                   c: Byte, sub: seq<Byte>)
    requires PartialSweep(up, start, swept, gone, log) && c in Children(up, start) && c !in swept
    requires IsSweep(up - {start} - gone, c, sub)
    ensures PartialSweep(up, start, swept + {c}, gone + Within(up - {start}, c), log + sub)
  {
    ChildApart(up, start, swept, gone, log, c);
    var inner := Within(up - {start}, c);
    forall x ensures x in gone + inner <==> exists d | d in swept + {c} :: x in Within(up - {start}, d) {
      if x in inner {
        assert c in swept + {c};
      }
    }
    assert forall n | n in log :: n !in sub;
    AppendSweep(up, log, sub, up - {start} - gone);
  }

  lemma AppendSweep(up: Containers, log: seq<Byte>, sub: seq<Byte>, left: Containers)
    requires NoDups(log) && ContainersFirst(up, log) && log != []
    requires NoDups(sub) && ContainersFirst(left, sub) && sub != []
    requires sub[0] in up && up[sub[0]] in log
    requires forall n | n in left :: n in up && up[n] == left[n]
    requires forall n | n in log :: n !in sub
    ensures NoDups(log + sub) && ContainersFirst(up, log + sub)
  {
    var all := log + sub;
    forall i | 0 < i < |all| ensures all[i] in up && up[all[i]] in all[..i] {
      if i < |log| {
        assert all[..i] == log[..i];
      } else {
        assert all[..i] == log + sub[..i - |log|];
      }
    }
    forall i, j | 0 <= i < j < |all| ensures all[i] != all[j] {
      if i < |log| <= j {
        assert all[i] in log && all[j] in sub;
      }
    }
  }

  /** What was inside the children, and the start, is what was inside the start. */
  lemma InnerIsWithin(up: Containers, start: Byte, gone: set<Byte>, x: Byte)
    requires forall y :: y in gone <==> exists c | c in Children(up, start) :: y in Within(up - {start}, c)
    ensures x in gone + {start} <==> x in Within(up, start) + {start}
  {
    WithinByChildren(up, start, x);
    assert x in gone ==> x in up;
    hide Within, Children;
  }

  lemma SweepDone(up: Containers, start: Byte, gone: set<Byte>, log: seq<Byte>)
    requires PartialSweep(up, start, Children(up, start), gone, log)
    ensures IsSweep(up, start, log)
    ensures gone + {start} == Within(up, start) + {start}
  {
    hide Within, Children, ContainersFirst, NoDups;
    forall x ensures x in gone + {start} <==> x in Within(up, start) + {start} {
      InnerIsWithin(up, start, gone, x);
    }
    forall n ensures n in log <==> n == start || n in Within(up, start) {
      assert n in gone + {start} <==> n in Within(up, start) + {start};
    }
  }

  /** A sweep that a failing write cut short: containers still come first, but
      something is missing. */
  ghost predicate IsCut(up: Containers, start: Byte, log: seq<Byte>)
  {
    && NoDups(log) && (log != [] ==> log[0] == start)
    && (forall n | n in log :: n == start || n in Within(up, start))
    && ContainersFirst(up, log)
    && exists n | n in Within(up, start) + {start} :: n !in log
  }

  lemma NothingSent(up: Containers, start: Byte)
    ensures IsCut(up, start, [])
  {
    assert start in Within(up, start) + {start};
  }

  /** A cut in the sweep of a child cuts the whole. */
  lemma CutChild(up: Containers, start: Byte, swept: set<Byte>, gone: set<Byte>, log: seq<Byte>,
                 c: Byte, sub: seq<Byte>)
    requires PartialSweep(up, start, swept, gone, log) && c in Children(up, start) && c !in swept
    requires IsCut(up - {start} - gone, c, sub)
    ensures IsCut(up, start, log + sub)
    ensures Elems(log) == {start} + gone && Elems(log) !! Elems(sub) && Elems(log + sub) == Elems(log) + Elems(sub)
  {
    ChildApart(up, start, swept, gone, log, c);
    var inner := Within(up - {start}, c);
    forall n | n in inner ensures n in Within(up, start) {
      WithinByChildren(up, start, n);
    }
    forall n | n in gone ensures n in Within(up, start) {
      WithinByChildren(up, start, n);
    }
    var n :| n in inner + {c} && n !in sub;
    assert n !in log + sub;
    if sub == [] {
      assert log + sub == log;
    } else {
      AppendSweep(up, log, sub, up - {start} - gone);
    }
  }

  lemma {:induction false} Crossing(up: Containers, start: Byte, log: seq<Byte>, x: Byte, k: nat) returns (y: Byte)
    requires Reaches(up, x, start, k) && start in log && x !in log
    ensures y in up && y !in log && up[y] in log
    decreases k
  {
    if up[x] in log {
      y := x;
    } else {
      y := Crossing(up, start, log, up[x], k - 1);
    }
  }

  /** A sweep cut short strands something exactly when it had begun. */
  lemma CutStrands(up: Containers, start: Byte, log: seq<Byte>)
    requires IsCut(up, start, log)
    ensures (exists x | x in up && x !in log :: up[x] in log) <==> log != []
  {
    if log != [] {
      var n :| n in Within(up, start) + {start} && n !in log;
      var k: nat :| Reaches(up, n, start, k);
      var y := Crossing(up, start, log, n, k);
    }
  }

  /** A sweep leaves nothing behind whose container it removed. */
  lemma NoOrphans(up: Containers, start: Byte, x: Byte)
    requires x in up && (up[x] == start || up[x] in Within(up, start))
    ensures x == start || x in Within(up, start)
  {
    if up[x] == start {
      assert Reaches(up, start, start, 0);
    }
    var k: nat :| Reaches(up, up[x], start, k);
    assert x != start ==> Reaches(up, x, start, k + 1);
  }

  // ---------------------------------------------------------------- creation

  /** The parts of a `make` message that the table depends on; `supported` says
      whether the class of the object is one the client knows. */
  datatype Make = Make(
    ref: string,
    supported: bool,
    noid: Option<Wide>,
    y: Option<Byte>,
    sittingIn: Option<Byte>,
    restrainer: Option<Byte>,
    wisher: Option<Wide>)

  /** After a restart: the client's noids by ref, and the server noids that were
      rewritten to them so far. */
  datatype Restore = Restore(active: bool, saved: map<string, Byte>, elkoToSaved: map<Byte, Byte>)

  const NO_RESTORE := Restore(false, map[], map[])

  datatype Unpacked =
    | Skipped
    | Unsupported
    | Tracked(noid: Byte, sittingIn: Option<Byte>, restrainer: Option<Byte>, wisher: Option<Wide>)

  datatype UnpackResult = UnpackResult(table: Table, restore: Restore, outcome: Unpacked)

  /** The server's noid, narrowed to a byte; a missing one is the region's. */
  function ElkoNoid(m: Make): Byte
  {
    match m.noid case None => 0 case Some(n) => n % 0x100
  }

  /** The noid under which the client knows the object. */
  function ClientNoid(r: Restore, m: Make): Byte
  {
    if r.active && m.ref in r.saved then r.saved[m.ref] else ElkoNoid(m)
  }

  function Learn(r: Restore, m: Make): Restore
  {
    if ClientNoid(r, m) != ElkoNoid(m) then r.(elkoToSaved := r.elkoToSaved[ElkoNoid(m) := ClientNoid(r, m)]) else r
  }

  /** A server noid mentioned inside an object's state, as the client knows it. */
  function Translate(r: Restore, n: Byte): Byte
  {
    if r.active && n in r.elkoToSaved then r.elkoToSaved[n] else n
  }

  function TranslateField(r: Restore, field: Option<Byte>): Option<Byte>
  {
    match field case None => None case Some(n) => Some(Translate(r, n))
  }

  /** Wide fields hold noids only up to 255. */
  function TranslateWide(r: Restore, field: Option<Wide>): Option<Wide>
  {
    match field case None => None case Some(n) => Some(if n > 255 then n else Translate(r, n))
  }

  function ContainerNoid(t: Table, containerRef: string): Byte
  {
    if containerRef in t.refToNoid then t.refToNoid[containerRef] else REGION_NOID
  }

  function Insert(t: Table, noid: Byte, entry: Entry): Table
  {
    Table(t.objects[noid := entry], t.refToNoid[entry.ref := noid], t.order + [noid])
  }

  function Unpack(t: Table, r: Restore, m: Make, containerRef: string): UnpackResult
  {
    if m.noid == Some(UNASSIGNED_NOID) then
      UnpackResult(t, r, Skipped)
    else
      var r' := Learn(r, m);
      if !m.supported then
        UnpackResult(t, r', Unsupported)
      else
        var noid := ClientNoid(r, m);
        UnpackResult(
          Insert(t, noid, Entry(m.ref, ContainerNoid(t, containerRef), m.y)),
          r',
          Tracked(noid, TranslateField(r', m.sittingIn), TranslateField(r', m.restrainer), TranslateWide(r', m.wisher)))
  }

  /** A `make` message; `you` is the server's mark of the session's own avatar, which
      may be missing. */
  datatype Arrival = Arrival(
    make: Make,
    containerRef: string,
    avatar: bool,
    you: Option<bool>,
    sittingSlot: Option<Byte>)
  {
    predicate OtherAvatar()
    {
      avatar && you != Some(true)
    }
  }

  /** Another avatar stands in the region or is taken to be inside its seat,
      whatever the message's container was. */
  function Seated(entry: Entry, sittingIn: Option<Byte>, sittingSlot: Option<Byte>): Entry
  {
    match sittingIn
    case None => entry.(container := REGION_NOID)
    case Some(seat) => entry.(container := seat, y := sittingSlot)
  }

  function Arrive(t: Table, r: Restore, a: Arrival): UnpackResult
  {
    var u := Unpack(t, r, a.make, a.containerRef);
    if u.outcome.Tracked? && a.OtherAvatar() then
      var noid := u.outcome.noid;
      u.(table := u.table.(objects :=
        u.table.objects[noid := Seated(u.table.objects[noid], u.outcome.sittingIn, a.sittingSlot)]))
    else
      u
  }

  /** The object is put into `noid` whatever the message said. */
  function Bundle(u: UnpackResult, noid: Byte): UnpackResult
  {
    if u.outcome.Tracked? && u.outcome.noid in u.table.objects then
      var n := u.outcome.noid;
      u.(table := u.table.(objects := u.table.objects[n := u.table.objects[n].(container := noid)]))
    else
      u
  }

  /** Where a session is in entering a region: whether it waits for its own avatar,
      whether that has come and the next `ready` completes the region, and the noid
      of the avatar that arrived later, 0 once that is complete. */
  datatype Phase = Phase(waitingForAvatar: bool, waitingForContents: bool, otherNoid: Option<Byte>)

  const ENTERING := Phase(true, false, None)

  datatype MakeResult = MakeResult(table: Table, restore: Restore, phase: Phase, panics: bool)

  /** What a `make` message does. Without an avatar arriving, an object without a
      noid is dereferenced all the same. */
  function MakeStep(t: Table, r: Restore, p: Phase, a: Arrival): MakeResult
  {
    var p' := if a.you == Some(true) then p.(waitingForContents := true) else p;
    var u := Arrive(t, r, a);
    if u.outcome.Unsupported? then
      MakeResult(u.table, u.restore, p', false)
    else if a.OtherAvatar() && !p.waitingForAvatar then
      var noid := if u.outcome.Tracked? then u.outcome.noid else 0;
      MakeResult(u.table, u.restore, p'.(otherNoid := Some(noid)), false)
    else if p.waitingForAvatar then
      MakeResult(u.table, u.restore, if a.you.Some? then p'.(waitingForContents := true) else p', false)
    else match p.otherNoid
      case Some(noid) => MakeResult(Bundle(u, noid).table, u.restore, p', false)
      case None => MakeResult(u.table, u.restore, p', u.outcome.Skipped?)
  }

  /** The `ready` is about an avatar that arrived later. */
  predicate Completes(p: Phase)
  {
    !p.waitingForContents && p.otherNoid.Some? && p.otherNoid.value != 0
  }

  /** What a `ready` message does: the region is complete, or the avatar that
      arrived later. Its noid is not forgotten but becomes 0. */
  function ReadyStep(p: Phase): Phase
  {
    if p.waitingForContents then Phase(false, false, p.otherNoid)
    else if Completes(p) then p.(otherNoid := Some(0))
    else p
  }

  /** The `ready` that completes the region ends a restore. */
  function ReadyRestore(r: Restore, p: Phase): Restore
  {
    if p.waitingForContents && r.active then NO_RESTORE else r
  }

  // ---------------------------------------------------------------- movement

  /** The table after a known object moved into a container at a slot. */
  function Moved(t: Table, noid: Byte, container: Byte, y: Byte): Table
  {
    if noid in t.objects then
      t.(objects := t.objects[noid := t.objects[noid].(container := container, y := Some(y))])
    else
      t
  }

  predicate InHand(entry: Entry, avatar: Byte)
  {
    entry.container == avatar && entry.y == Some(AVATAR_HAND)
  }

  /** Something in the avatar's hand moved to another hand; with an empty hand
      nothing did. */
  ghost predicate HandMoved(before: Table, after: Table, from: Byte, to: Byte)
  {
    if exists n :: n in before.objects && InHand(before.objects[n], from) then
      exists n :: n in before.objects && InHand(before.objects[n], from) && after == Moved(before, n, to, AVATAR_HAND)
    else
      after == before
  }

  // ------------------------------------------------- one round of a sweep

  lemma MinusTwice<V>(m: map<Byte, V>, a: set<Byte>, b: set<Byte>)
    ensures m - a - b == m - (a + b)
  {
  }

  lemma UnionAssoc(a: set<Byte>, b: set<Byte>, c: set<Byte>)
    ensures a + b + c == a + (b + c)
  {
  }

  lemma GoAwaysAfter(sent: seq<seq<Byte>>, log: seq<Byte>, sub: seq<Byte>)
    ensures sent + GoAways(log) + GoAways(sub) == sent + GoAways(log + sub)
  {
    GoAwaysConcat(log, sub);
  }

  ghost function Elems(s: seq<Byte>): set<Byte>
  {
    set x | x in s
  }

  lemma ElemsSnoc(s: seq<Byte>, x: Byte)
    ensures Elems(s + [x]) == Elems(s) + {x}
  {
  }

  lemma PartialStart(up: Containers, start: Byte)
    ensures PartialSweep(up, start, {}, {}, [start])
  {
  }

  /** What the table and the graph look like when the i-th child is swept. */
  lemma ChildNext(t: Table, up: Containers, start: Byte, children: seq<Byte>, i: nat, gone: set<Byte>, log: seq<Byte>)
    requires up == ContainersOf(t.objects) && i < |children| && NoDups(children)
    requires forall c :: c in children <==> c in Children(up, start)
    requires PartialSweep(up, start, Elems(children[..i]), gone, log)
    ensures var c, left := children[i], Removed(t, {start} + gone);
            && c in Children(up, start) && c !in Elems(children[..i])
            && ContainersOf(left.objects) == up - {start} - gone
            && c in left.objects
            && Within(up - {start} - gone, c) == Within(up - {start}, c)
            && c in Within(up - {start}, c) && gone !! Within(up - {start}, c)
            && Removed(left, Within(up - {start}, c) + {c}) == Removed(t, {start} + (gone + Within(up - {start}, c)))
  {
    var c := children[i];
    var inner := Within(up - {start}, c);
    ChildApart(up, start, Elems(children[..i]), gone, log, c);
    assert c !in gone;
    RemovedTwice(t, {start} + gone, inner);
    assert inner + {c} == inner;
    assert {start} + gone + inner == {start} + (gone + inner);
    assert ContainersOf(t.objects - ({start} + gone)) == up - {start} - gone;
  }

  lemma FewerObjects<V>(now: map<Byte, V>, before: map<Byte, V>, gone: set<Byte>, start: Byte)
    requires now == before - gone && start in gone
    ensures |now| <= |before| && (start in before ==> |now| < |before|)
  {
    assert now.Keys <= before.Keys - {start};
    SubsetSize(now.Keys, before.Keys - {start});
  }

  lemma {:induction false} SubsetSize(a: set<Byte>, b: set<Byte>)
    requires a <= b
    ensures |a| <= |b|
  {
    if a != {} {
      var x :| x in a;
      SubsetSize(a - {x}, b - {x});
    }
  }

  lemma SweptAll(up: Containers, start: Byte, log: seq<Byte>)
    requires IsSweep(up, start, log)
    ensures Elems(log) == Within(up, start) + {start}
    ensures start in Within(up, start) ==> Elems(log) == Within(up, start)
  {
  }

  lemma AllSwept(up: Containers, start: Byte, children: seq<Byte>, gone: set<Byte>, log: seq<Byte>)
    requires PartialSweep(up, start, Elems(children), gone, log)
    requires forall c :: c in children <==> c in Children(up, start)
    ensures IsSweep(up, start, log) && Elems(log) == {start} + gone
  {
    assert Elems(children) == Children(up, start);
    SweepDone(up, start, gone, log);
  }

  lemma EmptyElems(s: seq<Byte>)
    ensures Elems(s[..0]) == {} && s[..0] == []
  {
  }

  lemma NothingRemoved<V>(t: Table, objects: map<Byte, V>, sent: seq<seq<Byte>>, up: Containers, start: Byte)
    ensures IsCut(up, start, []) && t == Removed(t, Elems([])) && objects == objects - Elems([])
    ensures sent == sent + GoAways([])
  {
    NothingSent(up, start);
    RemainingNone(t.order);
    assert Elems([]) == {};
    assert t.objects - {} == t.objects;
    assert Removed(t, {}).refToNoid == t.refToNoid;
  }
}
