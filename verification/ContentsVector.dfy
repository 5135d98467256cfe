/** The description of a region's contents: a list of every object with its class,
    contents before their containers, followed by the objects' states. */
module ContentsVector {
  import opened Bits
  import opened Options
  import opened ContainerGraph
  import opened ObjectTable
  import HabitatPackets

  const DESCRIBE: Byte := 1
  const GHOST_NOID: Byte := 255

  /** A made object: the ref it was sent to, its class and its encoded state. */
  datatype Item = Item(noid: Byte, to: string, classNumber: Byte, state: seq<Byte>)

  type Objects = map<Byte, Item>

  // ------------------------------------------------------------- the forest

  /** Contents lists that form a forest: `up` gives each listed noid the one
      container that lists it, and the region is in no list. */
  ghost predicate Forest(kids: map<Byte, seq<Byte>>, up: Containers)
  {
    && REGION_NOID !in up
    && (forall p | p in kids :: NoDups(kids[p]))
    && (forall p, c | p in kids && c in kids[p] :: c in up && up[c] == p)
    && (forall c | c in up :: up[c] in kids && c in kids[up[c]])
  }

  /** c comes before d in one contents list. */
  ghost predicate Earlier(kids: map<Byte, seq<Byte>>, c: Byte, d: Byte)
  {
    exists p | p in kids :: EarlierIn(kids[p], c, d)
  }

  ghost predicate EarlierIn(list: seq<Byte>, c: Byte, d: Byte)
  {
    exists i, j | 0 <= i < j < |list| :: list[i] == c && list[j] == d
  }

  /** The order of the description: contents before their container; otherwise what
      is in an earlier sibling first. */
  ghost predicate Before(kids: map<Byte, seq<Byte>>, up: Containers, a: Byte, b: Byte)
  {
    (a != b && Inside(up, a, b)) || exists c, d | Earlier(kids, c, d) :: Inside(up, a, c) && Inside(up, b, d)
  }

  ghost predicate Ordered(kids: map<Byte, seq<Byte>>, up: Containers, log: seq<Byte>)
  {
    forall i, j | 0 <= i < j < |log| :: Before(kids, up, log[i], log[j])
  }

  /** A full listing of what is inside `top`: everything once, in order. */
  ghost predicate IsListing(kids: map<Byte, seq<Byte>>, up: Containers, top: Byte, log: seq<Byte>)
  {
    && NoDups(log) && Ordered(kids, up, log)
    && forall n :: n in log <==> n != top && n in Within(up, top)
  }

  function ListOf(kids: map<Byte, seq<Byte>>, p: Byte): seq<Byte>
  {
    if p in kids then kids[p] else []
  }

  /** A listing of what is inside the first i contents of p, and those. */
  ghost predicate IsPrefix(kids: map<Byte, seq<Byte>>, up: Containers, p: Byte, i: nat, log: seq<Byte>)
    requires i <= |ListOf(kids, p)|
  {
    && NoDups(log) && Ordered(kids, up, log)
    && forall n :: n in log <==> exists j | 0 <= j < i :: n in Within(up, ListOf(kids, p)[j])
  }

  ghost predicate Rooted(up: Containers, p: Byte)
  {
    Inside(up, p, REGION_NOID)
  }

  lemma PrefixStart(kids: map<Byte, seq<Byte>>, up: Containers, p: Byte)
    ensures IsPrefix(kids, up, p, 0, [])
  {
  }

  /** One more of the contents: first what is inside it, then itself. */
  lemma PrefixGrows(kids: map<Byte, seq<Byte>>, up: Containers, p: Byte, i: nat, log: seq<Byte>, sub: seq<Byte>)
    requires Forest(kids, up) && Rooted(up, p) && i < |ListOf(kids, p)|
    requires IsPrefix(kids, up, p, i, log) && IsListing(kids, up, ListOf(kids, p)[i], sub)
    ensures IsPrefix(kids, up, p, i + 1, log + sub + [ListOf(kids, p)[i]])
  {
    var list := ListOf(kids, p);
    var c := list[i];
    var block := sub + [c];
    assert c in list && up[c] == p;
    BlockIsWithin(kids, up, c, sub);
    forall a, b | a in log && b in block ensures a != b && Before(kids, up, a, b) {
      var j :| 0 <= j < i && a in Within(up, list[j]);
      assert list[j] in list && up[list[j]] == p && list[j] != c;
      assert b in Within(up, c);
      if a == b {
        RootedSiblings(up, REGION_NOID, p, list[j], c, a);
      }
      EarlierAt(kids, p, j, i);
    }
    assert log + sub + [c] == log + block;
    OrderedConcat(kids, up, log, block);
    forall n ensures n in log + block <==> exists j | 0 <= j < i + 1 :: n in Within(up, list[j]) {
      assert n in log + block <==> n in log || n in block;
      assert n in block <==> n in Within(up, list[i]);
    }
  }

  lemma EarlierAt(kids: map<Byte, seq<Byte>>, p: Byte, j: nat, i: nat)
    requires p in kids && j < i < |kids[p]|
    ensures Earlier(kids, kids[p][j], kids[p][i])
  {
  }

  lemma BlockIsWithin(kids: map<Byte, seq<Byte>>, up: Containers, c: Byte, sub: seq<Byte>)
    requires c in up && IsListing(kids, up, c, sub)
    ensures NoDups(sub + [c]) && Ordered(kids, up, sub + [c])
    ensures forall n :: n in sub + [c] <==> n in Within(up, c)
  {
    assert Reaches(up, c, c, 0);
    forall n ensures n in sub + [c] <==> n in Within(up, c) {
      assert n in sub + [c] <==> n in sub || n == c;
    }
    assert forall i | 0 <= i < |sub| :: sub[i] in sub;
  }

  lemma OrderedConcat(kids: map<Byte, seq<Byte>>, up: Containers, a: seq<Byte>, b: seq<Byte>)
    requires NoDups(a) && NoDups(b) && Ordered(kids, up, a) && Ordered(kids, up, b)
    requires forall x, y | x in a && y in b :: x != y && Before(kids, up, x, y)
    ensures NoDups(a + b) && Ordered(kids, up, a + b)
  {
    forall i, j | 0 <= i < j < |a + b| ensures (a + b)[i] != (a + b)[j] && Before(kids, up, (a + b)[i], (a + b)[j]) {
      if i < |a| <= j {
        assert (a + b)[i] in a && (a + b)[j] in b;
      }
    }
  }

  lemma PrefixDone(kids: map<Byte, seq<Byte>>, up: Containers, p: Byte, log: seq<Byte>)
    requires Forest(kids, up) && Rooted(up, p) && IsPrefix(kids, up, p, |ListOf(kids, p)|, log)
    ensures IsListing(kids, up, p, log)
  {
    var list := ListOf(kids, p);
    forall n | n in log ensures n != p && n in Within(up, p) {
      var j :| 0 <= j < |list| && n in Within(up, list[j]);
      assert list[j] in list;
      RootedParent(up, REGION_NOID, p, list[j]);
      var k: nat :| Reaches(up, n, list[j], k);
      ToParent(up, n, list[j], p, k);
    }
    forall n | n != p && n in Within(up, p) ensures n in log {
      var k: nat :| Reaches(up, n, p, k);
      var c := FirstStepDown(up, n, p, k);
      assert c in list && n in Within(up, c);
    }
  }

  // ---------------------------------------------------------------- the bytes

  /** The noid and class of each listed object. */
  function ClassPairs(objects: Objects, log: seq<Byte>): seq<Byte>
    requires forall n | n in log :: n in objects
    decreases log
  {
    if log == [] then [] else [log[0], objects[log[0]].classNumber] + ClassPairs(objects, log[1..])
  }

  function Bundles(objects: Objects, log: seq<Byte>): seq<Byte>
    requires forall n | n in log :: n in objects
    decreases log
  {
    if log == [] then [] else objects[log[0]].state + Bundles(objects, log[1..])
  }

  lemma {:induction false} ClassPairsConcat(objects: Objects, a: seq<Byte>, b: seq<Byte>)
    requires (forall n | n in a :: n in objects) && (forall n | n in b :: n in objects)
    ensures (forall n | n in a + b :: n in objects)
            && ClassPairs(objects, a + b) == ClassPairs(objects, a) + ClassPairs(objects, b)
    decreases a
  {
    if a == [] {
      assert a + b == b;
    } else {
      assert (a + b)[1..] == a[1..] + b;
      ClassPairsConcat(objects, a[1..], b);
    }
  }

  lemma {:induction false} BundlesConcat(objects: Objects, a: seq<Byte>, b: seq<Byte>)
    requires (forall n | n in a :: n in objects) && (forall n | n in b :: n in objects)
    ensures (forall n | n in a + b :: n in objects)
            && Bundles(objects, a + b) == Bundles(objects, a) + Bundles(objects, b)
    decreases a
  {
    if a == [] {
      assert a + b == b;
    } else {
      assert (a + b)[1..] == a[1..] + b;
      BundlesConcat(objects, a[1..], b);
    }
  }

  /** How a reader takes the class list apart: pairs up to a zero noid. */
  function ReadClassList(bytes: seq<Byte>): (r: Option<(seq<(Byte, Byte)>, seq<Byte>)>)
    decreases bytes
  {
    if bytes == [] then None
    else if bytes[0] == 0 then Some(([], bytes[1..]))
    else if |bytes| == 1 then None
    else match ReadClassList(bytes[2..])
      case None => None
      case Some((pairs, rest)) => Some(([(bytes[0], bytes[1])] + pairs, rest))
  }

  function Described(objects: Objects, log: seq<Byte>): seq<(Byte, Byte)>
    requires forall n | n in log :: n in objects
  {
    seq(|log|, i requires 0 <= i < |log| => (log[i], objects[log[i]].classNumber))
  }

  /** The terminator is unambiguous because the region is in no list. */
  lemma {:induction false} ClassListReadsBack(objects: Objects, log: seq<Byte>, rest: seq<Byte>)
    requires REGION_NOID !in log && forall n | n in log :: n in objects
    ensures ReadClassList(ClassPairs(objects, log) + [0] + rest) == Some((Described(objects, log), rest))
    decreases log
  {
    var bytes := ClassPairs(objects, log) + [0] + rest;
    if log == [] {
      assert bytes == [0] + rest && bytes[1..] == rest;
      assert Described(objects, log) == [];
    } else {
      ClassListReadsBack(objects, log[1..], rest);
      assert bytes[2..] == ClassPairs(objects, log[1..]) + [0] + rest;
      assert Described(objects, log) == [(log[0], objects[log[0]].classNumber)] + Described(objects, log[1..]);
    }
  }

  // ----------------------------------------------------------- the vector

  /** The added noids sent to a ref, in the order they were added; the head object
      is in no list. */
  ghost function Listed(objects: Objects, added: seq<Byte>, head: Byte, ref: string): seq<Byte>
    requires forall n | n in added :: n in objects
    decreases added
  {
    if added == [] then []
    else
      var k := |added| - 1;
      var n := added[k];
      Listed(objects, added[..k], head, ref) + if n != head && objects[n].to == ref then [n] else []
  }

  /** The lists hold exactly the added noids, by the refs they were sent to. */
  ghost predicate Lists(contents: map<string, seq<Byte>>, objects: Objects, added: seq<Byte>, head: Byte)
    requires forall n | n in added :: n in objects
  {
    forall ref ::
      if ref in contents then contents[ref] == Listed(objects, added, head, ref) && contents[ref] != []
      else Listed(objects, added, head, ref) == []
  }

  /** The states of all objects added, save that of the container itself. */
  ghost predicate HasStates(bundles: map<Byte, seq<Byte>>, objects: Objects, added: seq<Byte>, head: Byte)
    requires forall n | n in added :: n in objects
  {
    forall n | n in added && n != head :: n in bundles && bundles[n] == objects[n].state
  }

  lemma StatesGrow(bundles: map<Byte, seq<Byte>>, objects: Objects, added: seq<Byte>, head: Byte, n: Byte)
    requires n in objects && (forall m | m in added :: m in objects) && HasStates(bundles, objects, added, head)
    ensures forall m | m in added + [n] :: m in objects
    ensures HasStates(if n == head then bundles else bundles[n := objects[n].state], objects, added + [n], head)
  {
  }

  lemma NoStates(bundles: map<Byte, seq<Byte>>, objects: Objects, head: Byte)
    ensures HasStates(bundles, objects, [], head)
  {
  }

  lemma ListsStart(objects: Objects, head: Byte)
    ensures Lists(map[], objects, [], head)
  {
  }

  lemma ListsHead(contents: map<string, seq<Byte>>, objects: Objects, head: Byte, head': Byte)
    requires Lists(contents, objects, [], head)
    ensures Lists(contents, objects, [], head')
  {
    assert forall ref :: Listed(objects, [], head, ref) == Listed(objects, [], head', ref);
  }

  lemma ListsGrow(contents: map<string, seq<Byte>>, objects: Objects, added: seq<Byte>, head: Byte, n: Byte)
    requires n in objects && (forall m | m in added :: m in objects) && Lists(contents, objects, added, head)
    ensures var ref := objects[n].to;
            var list := if ref in contents then contents[ref] else [];
            && (forall m | m in added + [n] :: m in objects)
            && Lists(if n == head then contents else contents[ref := list + [n]], objects, added + [n], head)
  {
    assert (added + [n])[..|added|] == added;
  }

  /** The state of the head object, once for each time it was added. */
  ghost function HeadStates(objects: Objects, added: seq<Byte>, head: Byte): seq<Byte>
    requires forall n | n in added :: n in objects
    decreases added
  {
    if added == [] then []
    else
      var k := |added| - 1;
      HeadStates(objects, added[..k], head) + if added[k] == head then objects[head].state else []
  }

  lemma HeadStatesGrow(objects: Objects, added: seq<Byte>, n: Byte, head: Byte)
    requires n in objects && forall m | m in added :: m in objects
    ensures HeadStates(objects, [], head) == [] && forall m | m in added + [n] :: m in objects
    ensures HeadStates(objects, added + [n], head)
         == HeadStates(objects, added, head) + if n == head then objects[head].state else []
  {
    assert (added + [n])[..|added|] == added;
  }

  /** Added at most once it is there at most once. */
  lemma {:induction false} HeadOnce(objects: Objects, added: seq<Byte>, head: Byte)
    requires NoDups(added) && forall n | n in added :: n in objects
    ensures HeadStates(objects, added, head) == if head in added then objects[head].state else []
    decreases added
  {
    if added != [] {
      var k := |added| - 1;
      HeadOnce(objects, added[..k], head);
      assert added == added[..k] + [added[k]];
      assert added[k] !in added[..k];
    }
  }

  lemma {:induction false} ListedMembers(objects: Objects, added: seq<Byte>, head: Byte, ref: string)
    requires NoDups(added) && forall n | n in added :: n in objects
    ensures NoDups(Listed(objects, added, head, ref))
    ensures forall n :: n in Listed(objects, added, head, ref) <==> n in added && n != head && objects[n].to == ref
    decreases added
  {
    if added != [] {
      var k := |added| - 1;
      ListedMembers(objects, added[..k], head, ref);
      assert added == added[..k] + [added[k]];
      assert added[k] !in added[..k];
    }
  }

  /** The container of every added object whose own container is known. */
  ghost function Up(objects: Objects, added: seq<Byte>, head: Byte, refToNoid: map<string, Byte>): Containers
    requires forall n | n in added :: n in objects
  {
    map n | n in objects && n in added && n != head && objects[n].to in refToNoid :: refToNoid[objects[n].to]
  }

  ghost predicate Injective(refToNoid: map<string, Byte>)
  {
    forall r, q | r in refToNoid && q in refToNoid && r != q :: refToNoid[r] != refToNoid[q]
  }

  // ------------------------------------------ the avatar in the description

  /** A 32-bit balance. */
  type Balance = b: nat | b < 0x1_0000_0000

  /** What is known of the client's own avatar. */
  datatype Me = Me(amAGhost: bool, noid: Option<Wide>, bankBalance: Option<Balance>)

  /** The noid by which the description introduces the client's avatar. */
  function MeNoid(me: Me): Byte
  {
    if me.amAGhost || me.noid == None then GHOST_NOID else me.noid.value % 0x100
  }

  /** The region's state comes with a placeholder for the avatar and its money. */
  predicate HasPlaceholder(data: seq<Byte>)
  {
    |data| >= 9 && data[4] == 0
  }

  function FillMe(data: seq<Byte>, me: Option<Me>): (r: seq<Byte>)
    ensures |r| == |data|
  {
    if me == None || !HasPlaceholder(data) then data
    else
      var named := data[4 := MeNoid(me.value)];
      match me.value.bankBalance
      case None => named
      case Some(b) =>
        named[5 := b % 0x100][6 := b / 0x100 % 0x100][7 := b / 0x10000 % 0x100][8 := b / 0x1000000 % 0x100]
  }

  function ReadBalance(data: seq<Byte>): nat
    requires |data| >= 9
  {
    var b5: int, b6: int, b7: int, b8: int := data[5], data[6], data[7], data[8];
    b5 + 0x100 * b6 + 0x10000 * b7 + 0x1000000 * b8
  }

  /** Filling in changes at most bytes 4 to 8, and what it fills in can be read back;
      a placeholder is filled at most once unless the noid is 0. */
  lemma FillReadsBack(data: seq<Byte>, me: Me)
    requires HasPlaceholder(data)
    ensures var r := FillMe(data, Some(me));
            && r[..4] == data[..4] && r[9..] == data[9..]
            && r[4] == (if !me.amAGhost && me.noid.Some? then me.noid.value % 256 else 255)
            && (me.bankBalance.Some? ==> ReadBalance(r) == me.bankBalance.value)
            && (me.bankBalance == None ==> r[5..] == data[5..])
            && (r[4] != 0 ==> FillMe(r, Some(me)) == r)
  {
    if me.bankBalance.Some? {
      FourBytes(me.bankBalance.value);
    }
  }

  lemma FourBytes(b: nat)
    requires b < 0x1_0000_0000
    ensures b % 0x100 + 0x100 * (b / 0x100 % 0x100)
            + 0x10000 * (b / 0x10000 % 0x100) + 0x1000000 * (b / 0x1000000 % 0x100) == b
  {
    assert b / 0x10000 == b / 0x100 / 0x100 && b / 0x1000000 == b / 0x10000 / 0x100;
  }

  function PacketHeader(replySeq: Byte, msgType: Byte): seq<Byte>
  {
    HabitatPackets.MakeHabitatPacketHeader(true, true, replySeq, [REGION_NOID, msgType])
  }

  class Vector {
    const objects: Objects
    const refToNoid: map<string, Byte>
    const replySeq: Byte
    const msgType: Byte
    var containerRef: Option<string>
    var containerNoid: Byte
    var container: seq<Byte>
    var contents: map<string, seq<Byte>>
    var clientStateBundles: map<Byte, seq<Byte>>
    var noidContents: map<Byte, seq<Byte>>
    var noidClassList: seq<Byte>
    var objectStateBundles: seq<Byte>
    ghost var added: seq<Byte>

    ghost predicate Valid()
      reads this`containerRef, this`containerNoid, this`container, this`contents, this`clientStateBundles, this`added
    {
      && (forall n | n in objects :: objects[n].noid == n)
      && (forall n | n in added :: n in objects)
      && (containerRef == None ==> added == [])
      && container == HeadStates(objects, added, containerNoid)
      && HasStates(clientStateBundles, objects, added, containerNoid)
      && Lists(contents, objects, added, containerNoid)
    }

    constructor (objects: Objects, refToNoid: map<string, Byte>, replySeq: Byte, ref: Option<string>, msgType: Byte)
      requires forall n | n in objects :: objects[n].noid == n
      ensures Valid() && this.objects == objects && this.refToNoid == refToNoid
      ensures this.replySeq == replySeq && this.msgType == msgType
      ensures added == [] && containerRef == ref && containerNoid == REGION_NOID
    {
      this.objects, this.refToNoid, containerRef := objects, refToNoid, ref;
      this.replySeq, this.msgType := replySeq, msgType;
      containerNoid, container, contents, clientStateBundles, added := REGION_NOID, [], map[], map[], [];
      noidContents, noidClassList, objectStateBundles := map[], [], [];
      ListsStart(objects, REGION_NOID);
    }

    /** Adds an object: to the list of its container, or, if it is the one the
        vector is about, to the description itself. */
    method Add(o: Item)
      requires Valid() && o.noid in objects && o == objects[o.noid]
      modifies this
      ensures Valid() && added == old(added) + [o.noid]
      ensures containerNoid == if old(containerRef) == None then o.noid else old(containerNoid)
      ensures containerRef == if old(containerRef) == None then Some(o.to) else old(containerRef)
    {
      hide Lists, HasStates, HeadStates;
      HeadStatesGrow(objects, added, o.noid, containerNoid);
      if containerRef == None {
        containerRef := Some(o.to);
        containerNoid := o.noid;
        ListsHead(contents, objects, old(containerNoid), o.noid);
        NoStates(clientStateBundles, objects, o.noid);
        HeadStatesGrow(objects, added, o.noid, o.noid);
      }
      ListsGrow(contents, objects, added, containerNoid, o.noid);
      StatesGrow(clientStateBundles, objects, added, containerNoid, o.noid);
      if o.noid != containerNoid {
        clientStateBundles := clientStateBundles[o.noid := o.state];
        if o.to !in contents {
          contents := contents[o.to := []];
        }
        contents := contents[o.to := contents[o.to] + [o.noid]];
        assert contents == old(contents)[o.to := contents[o.to]];
      } else {
        container := container + o.state;
      }
      added := added + [o.noid];
    }

    /** The lists by the noids of their containers. */
    method ResolveContents()
      requires Valid() && Injective(refToNoid)
      modifies this`noidContents
      ensures forall ref | ref in contents && ref in refToNoid ::
                refToNoid[ref] in noidContents && noidContents[refToNoid[ref]] == contents[ref]
      ensures forall p | p in noidContents :: exists ref | ref in contents && ref in refToNoid :: refToNoid[ref] == p
    {
      hide Valid;
      noidContents := map[];
      var refs := contents.Keys;
      while refs != {}
        invariant refs <= contents.Keys
        invariant forall ref | ref in contents && ref in refToNoid && ref !in refs ::
                    refToNoid[ref] in noidContents && noidContents[refToNoid[ref]] == contents[ref]
        invariant forall p | p in noidContents ::
                    exists ref | ref in contents && ref in refToNoid && ref !in refs :: refToNoid[ref] == p
        decreases refs
      {
        var cont :| cont in refs;
        refs := refs - {cont};
        if cont in refToNoid && refToNoid[cont] !in noidContents {
          noidContents := noidContents[refToNoid[cont] := contents[cont]];
        }
      }
    }

    /** Appends what is inside a container to the description. */
    method AddContents(contnoid: Byte, ghost up: Containers) returns (ghost log: seq<Byte>)
      requires Forest(noidContents, up) && Rooted(up, contnoid)
      requires forall n | n in up ::
                 n in objects && n in clientStateBundles && clientStateBundles[n] == objects[n].state
      modifies this`noidClassList, this`objectStateBundles
      ensures IsListing(noidContents, up, contnoid, log) && forall n | n in log :: n in objects
      ensures noidClassList == old(noidClassList) + ClassPairs(objects, log)
      ensures objectStateBundles == old(objectStateBundles) + Bundles(objects, log)
      decreases Within(up, contnoid) + {contnoid}
    {
      hide IsListing, IsPrefix, Forest, Rooted, Within, ClassPairs, Bundles, ListOf;
      log := [];
      PrefixStart(noidContents, up, contnoid);
      EmptyBytes(objects);
      var list := ListOf(noidContents, contnoid);
      for i := 0 to |list|
        invariant IsPrefix(noidContents, up, contnoid, i, log) && forall n | n in log :: n in objects
        invariant noidClassList == old(noidClassList) + ClassPairs(objects, log)
        invariant objectStateBundles == old(objectStateBundles) + Bundles(objects, log)
      {
        var noid := list[i];
        ContentAt(noidContents, up, contnoid, i);
        ghost var sub := [];
        if noid in noidContents {
          sub := AddContents(noid, up);
        } else {
          LeafListing(noidContents, up, noid);
        }
        noidClassList := noidClassList + [noid];
        noidClassList := noidClassList + [objects[noid].classNumber];
        objectStateBundles := objectStateBundles + clientStateBundles[noid];
        PrefixGrows(noidContents, up, contnoid, i, log, sub);
        BytesGrow(objects, old(noidClassList), old(objectStateBundles), log, sub, noid);
        log := log + sub + [noid];
      }
      PrefixDone(noidContents, up, contnoid, log);
    }

    method FillIn(me: Option<Me>)
      modifies this`container
      ensures container == FillMe(old(container), me)
    {
      if me.Some? && |container| >= 9 && container[4] == 0 {
        if me.value.amAGhost {
          container := container[4 := GHOST_NOID];
        } else if me.value.noid.Some? {
          container := container[4 := me.value.noid.value % 0x100];
        } else {
          container := container[4 := GHOST_NOID];
        }
        if me.value.bankBalance.Some? {
          var b := me.value.bankBalance.value;
          container := container[5 := b % 0x100];
          container := container[6 := b / 0x100 % 0x100];
          container := container[7 := b / 0x10000 % 0x100];
          container := container[8 := b / 0x1000000 % 0x100];
        }
      }
    }

    /** The description packet: its header, the state of the head object with the
        avatar filled in, the class list, the states of the listed objects. */
    method Send(me: Option<Me>, ghost up: Containers) returns (packet: seq<Byte>, ghost log: seq<Byte>)
      requires Valid() && NoDups(added) && Injective(refToNoid)
      requires containerNoid == REGION_NOID || REGION_NOID !in added
      requires up == Up(objects, added, containerNoid, refToNoid)
      modifies this`noidContents, this`noidClassList, this`objectStateBundles, this`container
      ensures Forest(noidContents, up) && IsListing(noidContents, up, REGION_NOID, log)
      ensures forall n | n in log :: n in objects
      ensures forall p | p in noidContents :: exists ref | ref in refToNoid && refToNoid[ref] == p ::
                noidContents[p] == Listed(objects, added, containerNoid, ref)
      ensures packet == PacketHeader(replySeq, msgType)
                        + (if msgType == DESCRIBE then FillMe(old(container), me) else [])
                        + ClassPairs(objects, log) + [0] + Bundles(objects, log) + [0]
    {
      hide IsListing, Forest, Rooted, Listed, ClassPairs, Bundles, NoDups, Lists, Up, Injective, Valid;
      hide FillMe, PacketHeader;
      noidClassList, objectStateBundles := [], [];
      ResolveContents();
      ContentsForest(up);
      packet := PacketHeader(replySeq, msgType);
      if msgType == DESCRIBE {
        FillIn(me);
        packet := packet + container;
      }
      log := AddContents(REGION_NOID, up);
      packet := packet + noidClassList + [0] + objectStateBundles + [0];
    }

    lemma ContentsForest(up: Containers)
      requires Valid() && NoDups(added) && Injective(refToNoid)
      requires containerNoid == REGION_NOID || REGION_NOID !in added
      requires up == Up(objects, added, containerNoid, refToNoid)
      requires forall ref | ref in contents && ref in refToNoid ::
                 refToNoid[ref] in noidContents && noidContents[refToNoid[ref]] == contents[ref]
      requires forall p | p in noidContents :: exists ref | ref in contents && ref in refToNoid :: refToNoid[ref] == p
      ensures Forest(noidContents, up) && Rooted(up, REGION_NOID)
      ensures forall n | n in up :: n in objects && n in clientStateBundles && clientStateBundles[n] == objects[n].state
      ensures forall p | p in noidContents :: exists ref | ref in refToNoid && refToNoid[ref] == p ::
                noidContents[p] == Listed(objects, added, containerNoid, ref)
    {
      forall p | p in noidContents ensures exists ref | ref in refToNoid && refToNoid[ref] == p ::
        noidContents[p] == Listed(objects, added, containerNoid, ref)
        && NoDups(noidContents[p]) && forall c | c in noidContents[p] :: c in up && up[c] == p
      {
        var ref :| ref in contents && ref in refToNoid && refToNoid[ref] == p;
        ListedMembers(objects, added, containerNoid, ref);
        assert noidContents[p] == Listed(objects, added, containerNoid, ref);
      }
      forall c | c in up ensures up[c] in noidContents && c in noidContents[up[c]] {
        ListedMembers(objects, added, containerNoid, objects[c].to);
        assert objects[c].to in contents;
      }
      assert Reaches(up, REGION_NOID, REGION_NOID, 0);
    }
  }

  lemma ContentAt(kids: map<Byte, seq<Byte>>, up: Containers, p: Byte, i: nat)
    requires Forest(kids, up) && Rooted(up, p) && i < |ListOf(kids, p)|
    ensures var c := ListOf(kids, p)[i];
            c in up && Rooted(up, c) && Within(up, c) + {c} < Within(up, p) + {p}
  {
    var c := ListOf(kids, p)[i];
    assert c in kids[p];
    RootedParent(up, REGION_NOID, p, c);
    SmallerBelow(up, REGION_NOID, p, c);
  }

  lemma EmptyBytes(objects: Objects)
    ensures ClassPairs(objects, []) == [] && Bundles(objects, []) == []
  {
  }

  lemma BytesGrow(objects: Objects, classes: seq<Byte>, states: seq<Byte>, log: seq<Byte>, sub: seq<Byte>, n: Byte)
    requires n in objects && (forall m | m in log :: m in objects) && (forall m | m in sub :: m in objects)
    ensures forall m | m in log + sub + [n] :: m in objects
    ensures classes + ClassPairs(objects, log) + ClassPairs(objects, sub) + [n] + [objects[n].classNumber]
            == classes + ClassPairs(objects, log + sub + [n])
    ensures states + Bundles(objects, log) + Bundles(objects, sub) + objects[n].state
            == states + Bundles(objects, log + sub + [n])
  {
    ClassPairsConcat(objects, log, sub);
    ClassPairsConcat(objects, log + sub, [n]);
    BundlesConcat(objects, log, sub);
    BundlesConcat(objects, log + sub, [n]);
    OneObject(objects, n);
    hide ClassPairs, Bundles;
    Regroup(classes, ClassPairs(objects, log), ClassPairs(objects, sub), [n], [objects[n].classNumber]);
    Regroup(states, Bundles(objects, log), Bundles(objects, sub), objects[n].state, []);
  }

  lemma OneObject(objects: Objects, n: Byte)
    requires n in objects
    ensures ClassPairs(objects, [n]) == [n] + [objects[n].classNumber] && Bundles(objects, [n]) == objects[n].state
  {
    assert [n][1..] == [];
    EmptyBytes(objects);
  }

  lemma Regroup(a: seq<Byte>, b: seq<Byte>, c: seq<Byte>, d: seq<Byte>, e: seq<Byte>)
    ensures a + b + c + d + e == a + (b + c + (d + e))
  {
  }

  lemma LeafListing(kids: map<Byte, seq<Byte>>, up: Containers, p: Byte)
    requires Forest(kids, up) && Rooted(up, p) && p !in kids
    ensures IsListing(kids, up, p, [])
  {
    PrefixStart(kids, up, p);
    PrefixDone(kids, up, p, []);
  }

  // ------------------------------------------------------ a region's contents

  predicate Sorted(s: seq<Byte>)
  {
    forall i, j | 0 <= i < j < |s| :: s[i] < s[j]
  }

  function Ascending(keys: set<Byte>, least: nat): (s: seq<Byte>)
    requires least <= 256
    ensures Sorted(s) && forall n :: n in s <==> n in keys && least <= n
    decreases 256 - least
  {
    if least == 256 then []
    else if least in keys then
      var rest := Ascending(keys, least + 1);
      assert forall i | 0 <= i < |rest| :: rest[i] in rest;
      [least] + rest
    else Ascending(keys, least + 1)
  }

  lemma {:induction false} ListedSorted(objects: Objects, added: seq<Byte>, head: Byte, ref: string)
    requires Sorted(added) && forall n | n in added :: n in objects
    ensures Sorted(Listed(objects, added, head, ref))
    ensures forall n | n in Listed(objects, added, head, ref) :: n in added
    decreases added
  {
    if added != [] {
      var k := |added| - 1;
      ListedSorted(objects, added[..k], head, ref);
      forall n | n in added[..k] ensures n < added[k] {
      }
      var l := Listed(objects, added[..k], head, ref);
      forall i | 0 <= i < |l| ensures l[i] < added[k] {
        assert l[i] in added[..k];
      }
    }
  }

  /** Contents first, and siblings in the order of their noids. */
  ghost predicate ByNoid(up: Containers, a: Byte, b: Byte)
  {
    (a != b && Inside(up, a, b))
    || exists c, d | c in up && d in up && up[c] == up[d] && c < d :: Inside(up, a, c) && Inside(up, b, d)
  }

  lemma EarlierIsLess(kids: map<Byte, seq<Byte>>, up: Containers, c: Byte, d: Byte)
    requires Forest(kids, up) && (forall p | p in kids :: Sorted(kids[p])) && Earlier(kids, c, d)
    ensures c in up && d in up && up[c] == up[d] && c < d
  {
    hide Sorted, EarlierIn;
    var p :| p in kids && EarlierIn(kids[p], c, d);
    SortedEarlier(kids[p], c, d);
    hide Earlier;
  }

  lemma SortedEarlier(list: seq<Byte>, c: Byte, d: Byte)
    requires Sorted(list) && EarlierIn(list, c, d)
    ensures c in list && d in list && c < d
  {
  }

  lemma BeforeIsByNoid(kids: map<Byte, seq<Byte>>, up: Containers, a: Byte, b: Byte)
    requires Forest(kids, up) && (forall p | p in kids :: Sorted(kids[p])) && Before(kids, up, a, b)
    ensures ByNoid(up, a, b)
  {
    hide Forest, Sorted, Earlier, Inside;
    if !(a != b && Inside(up, a, b)) {
      var c, d :| Earlier(kids, c, d) && Inside(up, a, c) && Inside(up, b, d);
      EarlierIsLess(kids, up, c, d);
    }
  }

  /** The head of the description: the object with the least noid, the region when
      it is known. */
  function Head(objects: Objects): Byte
  {
    var all := Ascending(objects.Keys, 0);
    if all == [] then REGION_NOID else all[0]
  }

  /** The container of every object but the head, where it is known. */
  ghost function KnownContainers(objects: Objects, refToNoid: map<string, Byte>): Containers
  {
    map n | n in objects && n != Head(objects) && objects[n].to in refToNoid :: refToNoid[objects[n].to]
  }

  /** Every object that is in the region through known containers, once, its
      contents before it and siblings in the order of their noids. */
  ghost predicate RegionListing(objects: Objects, refToNoid: map<string, Byte>, log: seq<Byte>)
  {
    var up := KnownContainers(objects, refToNoid);
    && NoDups(log) && (forall n :: n in log <==> n in up && Inside(up, n, REGION_NOID))
    && (forall i, j | 0 <= i < j < |log| :: ByNoid(up, log[i], log[j]))
    && forall n | n in log :: n in objects
  }

  /** The description with the given listing: the region itself, the classes, the
      states. */
  function Description(replySeq: Byte, me: Option<Me>, objects: Objects, log: seq<Byte>): seq<Byte>
    requires forall n | n in log :: n in objects
  {
    PacketHeader(replySeq, DESCRIBE)
    + FillMe(if objects == map[] then [] else objects[Head(objects)].state, me)
    + ClassPairs(objects, log) + [0] + Bundles(objects, log) + [0]
  }

  /** The avatar that the state of a region introduces, with its money; without a
      placeholder for them the state is shown as it is. */
  ghost predicate Introduces(shown: seq<Byte>, state: seq<Byte>, me: Option<Me>)
  {
    |shown| == |state|
    && if me == None || |state| < 9 || state[4] != 0 then shown == state
       else
         var ghostly := me.value.amAGhost || me.value.noid == None;
         && shown[..4] == state[..4] && shown[9..] == state[9..]
         && (!ghostly ==> shown[4] == me.value.noid.value % 256)
         && (shown[4] == 255 <==> ghostly || me.value.noid.value % 256 == 255)
         && match me.value.bankBalance
            case None => shown[5..9] == state[5..9]
            case Some(b) => ReadBalance(shown) == b
  }

  lemma FillIntroduces(state: seq<Byte>, me: Option<Me>)
    ensures Introduces(FillMe(state, me), state, me)
  {
    if me.Some? && HasPlaceholder(state) {
      FillReadsBack(state, me.value);
      hide FillMe;
      assert me.value.bankBalance == None ==> FillMe(state, me)[5..][..4] == state[5..][..4];
    }
  }

  lemma RegionIsHead(objects: Objects)
    requires REGION_NOID in objects
    ensures Head(objects) == REGION_NOID
  {
    assert REGION_NOID in objects.Keys;
  }

  /** Read by the rules for any packet, the description is one whole reply with
      request 1, and its first argument bytes are the state of the region with the
      client's own avatar in it. */
  lemma DescriptionReads(replySeq: Byte, me: Option<Me>, objects: Objects, log: seq<Byte>)
    requires REGION_NOID in objects && forall n | n in log :: n in objects
    ensures var packet, size := Description(replySeq, me, objects, log), |objects[0].state|;
            && |packet| >= 4 + size && packet[0] == 0x55
            && HabitatPackets.ParsePacket(packet)
               == HabitatPackets.HabitatMessage(replySeq % 16, true, true, 0, 1, packet[4..])
            && Introduces(packet[4..4 + size], objects[0].state, me)
  {
    hide FillMe, Introduces, Head, HabitatPackets.ParsePacket, HabitatPackets.MakeHabitatPacketHeader;
    hide ClassPairs, Bundles;
    var packet, shown := Description(replySeq, me, objects, log), FillMe(objects[0].state, me);
    RegionIsHead(objects);
    FillIntroduces(objects[0].state, me);
    HabitatPackets.HeaderReads(replySeq, 0, 1, packet[4..]);
    Behind(PacketHeader(replySeq, DESCRIBE), shown, ClassPairs(objects, log), Bundles(objects, log));
  }

  lemma Behind(header: seq<Byte>, shown: seq<Byte>, classes: seq<Byte>, states: seq<Byte>)
    requires |header| == 4
    ensures var packet := header + shown + classes + [0] + states + [0];
            && packet[..4] == header && packet[4..4 + |shown|] == shown && packet == header + packet[4..]
            && packet[4 + |shown|..] == classes + [0] + (states + [0])
  {
  }

  /** Behind the region's state come the listed objects with their classes, up to a
      zero, then their states in the same order and another zero. */
  lemma DescriptionLists(replySeq: Byte, me: Option<Me>, objects: Objects, log: seq<Byte>)
    requires REGION_NOID in objects && REGION_NOID !in log && forall n | n in log :: n in objects
    ensures var packet, size := Description(replySeq, me, objects, log), |objects[0].state|;
            && |packet| >= 4 + size
            && ReadClassList(packet[4 + size..]) == Some((Described(objects, log), Bundles(objects, log) + [0]))
  {
    hide FillMe, Head, HabitatPackets.MakeHabitatPacketHeader, ClassPairs, Bundles, ReadClassList, Described;
    RegionIsHead(objects);
    HabitatPackets.HeaderReads(replySeq, 0, 1, []);
    var shown := FillMe(objects[0].state, me);
    Behind(PacketHeader(replySeq, DESCRIBE), shown, ClassPairs(objects, log), Bundles(objects, log));
    ClassListReadsBack(objects, log, Bundles(objects, log) + [0]);
  }

  /** The states are those of the listed objects, in order. */
  lemma {:induction false} BundlesAt(objects: Objects, a: seq<Byte>, n: Byte, b: seq<Byte>)
    requires forall m | m in a + [n] + b :: m in objects
    ensures (forall m | m in a :: m in objects) && (forall m | m in b :: m in objects)
            && Bundles(objects, a + [n] + b) == Bundles(objects, a) + objects[n].state + Bundles(objects, b)
  {
    assert forall m | m in a :: m in a + [n] + b;
    assert forall m | m in b :: m in a + [n] + b;
    assert n in a + [n] + b;
    BundlesConcat(objects, a, [n]);
    BundlesConcat(objects, a + [n], b);
    assert [n][1..] == [];
  }

  /** What the client is told on entering a region. */
  method DescribeRegion(objects: Objects, refToNoid: map<string, Byte>, replySeq: Byte, me: Option<Me>)
    returns (packet: seq<Byte>)
    requires Injective(refToNoid) && forall n | n in objects :: objects[n].noid == n
    ensures exists log | RegionListing(objects, refToNoid, log) ::
              REGION_NOID !in log && packet == Description(replySeq, me, objects, log)
  {
    hide NoDups, Before, ByNoid, ClassPairs, Bundles, Within, Forest, Injective, Sorted, Ascending;
    hide FillMe, PacketHeader, HeadStates;
    ghost var sortedNoids := Ascending(objects.Keys, 0);
    var vector := AddAll(objects, refToNoid, replySeq);
    ghost var up := KnownContainers(objects, refToNoid);
    assert up == Up(objects, sortedNoids, Head(objects), refToNoid);
    HeadOnce(objects, sortedNoids, Head(objects));
    assert vector.container == if objects == map[] then [] else objects[Head(objects)].state;
    ghost var log;
    packet, log := vector.Send(me, up);
    AllByNoid(vector.noidContents, up, log, objects, sortedNoids, Head(objects), refToNoid);
    assert RegionListing(objects, refToNoid, log);
  }

  /** Every object of the session, in the order of noids. */
  method AddAll(objects: Objects, refToNoid: map<string, Byte>, replySeq: Byte) returns (vector: Vector)
    requires forall n | n in objects :: objects[n].noid == n
    ensures fresh(vector) && vector.Valid() && vector.objects == objects && vector.refToNoid == refToNoid
    ensures vector.replySeq == replySeq && vector.msgType == DESCRIBE
    ensures vector.added == Ascending(objects.Keys, 0) && vector.containerNoid == Head(objects)
    ensures vector.containerNoid == REGION_NOID || REGION_NOID !in vector.added
    ensures NoDups(vector.added) && (objects != map[] ==> Head(objects) in vector.added)
  {
    AscendingNoids(objects);
    hide Vector.Valid, NoDups, Sorted, Ascending;
    vector := new Vector(objects, refToNoid, replySeq, None, DESCRIBE);
    var sortedNoids := Ascending(objects.Keys, 0);
    for i := 0 to |sortedNoids|
      invariant fresh(vector) && vector.objects == objects && vector.refToNoid == refToNoid && vector.Valid()
      invariant vector.replySeq == replySeq && vector.msgType == DESCRIBE
      invariant vector.added == sortedNoids[..i]
      invariant if i == 0 then vector.containerRef == None && vector.containerNoid == REGION_NOID
                else vector.containerRef.Some? && vector.containerNoid == sortedNoids[0]
    {
      assert sortedNoids[i] in sortedNoids;
      vector.Add(objects[sortedNoids[i]]);
    }
    assert vector.added == sortedNoids;
  }

  lemma AscendingNoids(objects: Objects)
    ensures var all := Ascending(objects.Keys, 0);
            && (forall n :: n in all <==> n in objects)
            && NoDups(all)
            && (objects != map[] ==> all != [])
            && (all != [] && all[0] != REGION_NOID ==> REGION_NOID !in all)
  {
    var all := Ascending(objects.Keys, 0);
    assert forall n :: n in all <==> n in objects.Keys;
    if objects != map[] {
      var n :| n in objects;
      assert n in all;
    }
  }

  lemma AllByNoid(kids: map<Byte, seq<Byte>>, up: Containers, log: seq<Byte>,
                  objects: Objects, added: seq<Byte>, head: Byte, refToNoid: map<string, Byte>)
    requires Sorted(added) && (forall n | n in added :: n in objects)
    requires Forest(kids, up) && IsListing(kids, up, REGION_NOID, log)
    requires forall p | p in kids :: exists ref | ref in refToNoid && refToNoid[ref] == p ::
               kids[p] == Listed(objects, added, head, ref)
    ensures forall i, j | 0 <= i < j < |log| :: ByNoid(up, log[i], log[j])
    ensures forall n :: n in log <==> n in up && Inside(up, n, REGION_NOID)
    ensures REGION_NOID !in log
  {
    forall p | p in kids ensures Sorted(kids[p]) {
      var ref :| ref in refToNoid && refToNoid[ref] == p && kids[p] == Listed(objects, added, head, ref);
      ListedSorted(objects, added, head, ref);
    }
    forall i, j | 0 <= i < j < |log| ensures ByNoid(up, log[i], log[j]) {
      BeforeIsByNoid(kids, up, log[i], log[j]);
    }
  }

  // ---------------------------------------------- there is only one listing

  /** Two objects of the region cannot each come before the other. */
  lemma ByNoidAntisymmetric(up: Containers, x: Byte, y: Byte)
    requires REGION_NOID !in up && Rooted(up, x) && Rooted(up, y) && x != y
    requires ByNoid(up, x, y)
    ensures !ByNoid(up, y, x)
  {
    if ByNoid(up, y, x) {
      if Inside(up, x, y) {
        InsideExcludes(up, x, y);
      } else if Inside(up, y, x) {
        InsideExcludes(up, y, x);
      } else {
        var c, d :| c in up && d in up && up[c] == up[d] && c < d && Inside(up, x, c) && Inside(up, y, d);
        var e, f :| e in up && f in up && up[e] == up[f] && e < f && Inside(up, y, e) && Inside(up, x, f);
        PartOnce(up, REGION_NOID, x, y, c, d, e, f);
      }
    }
  }

  /** What is inside a container comes only before it. */
  lemma InsideExcludes(up: Containers, x: Byte, y: Byte)
    requires REGION_NOID !in up && Rooted(up, x) && x != y && Inside(up, x, y)
    ensures !ByNoid(up, y, x)
  {
    if Inside(up, y, x) {
      NotInEachOther(up, REGION_NOID, x, y);
    }
    forall c, d | c in up && d in up && up[c] == up[d] && c < d && Inside(up, y, c) && Inside(up, x, d) ensures false {
      var j: nat :| Reaches(up, x, y, j);
      InsideTrans(up, x, y, c, j);
      var m: nat, k: nat :| Reaches(up, x, REGION_NOID, m) && Reaches(up, x, c, k);
      DepthAbove(up, REGION_NOID, x, c, m, k);
      ParentDepth(up, REGION_NOID, c, c, m - k, m - k);
      RootedSiblings(up, REGION_NOID, up[c], c, d, x);
    }
  }

  lemma {:induction false} SameListing(up: Containers, a: seq<Byte>, b: seq<Byte>, i: nat)
    requires NoDups(a) && NoDups(b) && (forall n :: n in a <==> n in b)
    requires forall x, y | x in a && y in a && x != y && ByNoid(up, x, y) :: !ByNoid(up, y, x)
    requires forall j, k | 0 <= j < k < |a| :: ByNoid(up, a[j], a[k])
    requires forall j, k | 0 <= j < k < |b| :: ByNoid(up, b[j], b[k])
    requires i <= |a| && i <= |b| && a[..i] == b[..i]
    ensures a == b
    decreases |a| - i
  {
    hide ByNoid;
    if i == |a| {
      if i < |b| {
        Unseen(b, i);
        assert false;
      }
    } else {
      NextSame(up, a, b, i);
      SameListing(up, a, b, i + 1);
    }
  }

  lemma NextSame(up: Containers, a: seq<Byte>, b: seq<Byte>, i: nat)
    requires NoDups(a) && NoDups(b) && (forall n :: n in a <==> n in b)
    requires forall x, y | x in a && y in a && x != y && ByNoid(up, x, y) :: !ByNoid(up, y, x)
    requires forall j, k | 0 <= j < k < |a| :: ByNoid(up, a[j], a[k])
    requires forall j, k | 0 <= j < k < |b| :: ByNoid(up, b[j], b[k])
    requires i < |a| && i <= |b| && a[..i] == b[..i]
    ensures i < |b| && a[..i + 1] == b[..i + 1]
  {
    hide ByNoid;
    var x := a[i];
    var j := FoundFrom(b, x, i);
    var y := b[i];
    var k := FoundFrom(a, y, i);
    assert x != y ==> ByNoid(up, x, y) && ByNoid(up, y, x);
  }

  lemma FoundFrom(s: seq<Byte>, x: Byte, i: nat) returns (j: nat)
    requires x in s && i <= |s| && x !in s[..i]
    ensures i <= j < |s| && s[j] == x
  {
    var rest := s[i..];
    assert s == s[..i] + rest;
    var m :| 0 <= m < |rest| && rest[m] == x;
    j := i + m;
  }

  lemma Unseen(s: seq<Byte>, i: nat)
    requires NoDups(s) && i < |s|
    ensures s[i] in s && s[i] !in s[..i]
  {
  }

  /** A region has one listing, so what the client is told is fully determined. */
  lemma ListingUnique(objects: Objects, refToNoid: map<string, Byte>, a: seq<Byte>, b: seq<Byte>)
    requires RegionListing(objects, refToNoid, a) && RegionListing(objects, refToNoid, b)
    ensures a == b
  {
    var up := KnownContainers(objects, refToNoid);
    AscendingNoids(objects);
    assert REGION_NOID !in up;
    forall x, y | x in a && y in a && x != y && ByNoid(up, x, y) ensures !ByNoid(up, y, x) {
      ByNoidAntisymmetric(up, x, y);
    }
    hide ByNoid;
    SameListing(up, a, b, 0);
  }
}
