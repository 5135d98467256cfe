/** Containment as a graph: every object has one container, and nothing rules out
    cycles or containers that are not themselves known. */
module ContainerGraph {
  import opened Bits

  /** The container of every known object. */
  type Containers = map<Byte, Byte>

  /** Following containers from x first reaches `top` after k steps. */
  predicate Reaches(up: Containers, x: Byte, top: Byte, k: nat)
    decreases k
  {
    if k == 0 then x == top else x != top && x in up && Reaches(up, up[x], top, k - 1)
  }

  ghost predicate Inside(up: Containers, x: Byte, top: Byte)
  {
    exists k: nat :: Reaches(up, x, top, k)
  }

  /** The known objects transitively contained in `top`, and `top` if known. */
  ghost function Within(up: Containers, top: Byte): set<Byte>
  {
    set x | x in up && Inside(up, x, top)
  }

  ghost function Children(up: Containers, top: Byte): set<Byte>
  {
    set c | c in up && c != top && up[c] == top
  }

  /** Without `top`, everything else that was inside it is inside a child. */
  lemma {:induction false} ThroughChild(up: Containers, x: Byte, top: Byte, k: nat) returns (c: Byte)
    requires k > 0 && Reaches(up, x, top, k)
    ensures c in Children(up, top) && Reaches(up - {top}, x, c, k - 1)
    decreases k
  {
    if k == 1 {
      c := x;
    } else {
      c := ThroughChild(up, up[x], top, k - 1);
    }
  }

  lemma {:induction false} FromChild(up: Containers, x: Byte, c: Byte, top: Byte, k: nat)
    requires c in Children(up, top) && Reaches(up - {top}, x, c, k) && x != top
    ensures Reaches(up, x, top, k + 1)
    decreases k
  {
    if k == 0 {
      assert Reaches(up, top, top, 0);
    } else if up[x] != top {
      FromChild(up, up[x], c, top, k - 1);
    }
  }

  /** What is inside `top` is `top` itself and what is inside its children once
      `top` is gone. */
  lemma WithinByChildren(up: Containers, top: Byte, x: Byte)
    ensures x in Within(up, top) <==>
      x in up && (x == top || exists c | c in Children(up, top) :: x in Within(up - {top}, c))
  {
    if x in up && x != top {
      if Inside(up, x, top) {
        var k: nat :| Reaches(up, x, top, k);
        var c := ThroughChild(up, x, top, k);
        assert Inside(up - {top}, x, c);
      }
      forall c | c in Children(up, top) && x in Within(up - {top}, c) ensures Inside(up, x, top) {
        var k: nat :| Reaches(up - {top}, x, c, k);
        FromChild(up, x, c, top, k);
      }
    } else if x == top {
      assert Reaches(up, x, top, 0);
    }
  }

  /** With `top` gone, no object is inside two of its children. */
  lemma {:induction false} OneChildOnly(up: Containers, top: Byte, x: Byte, c: Byte, d: Byte, j: nat, k: nat)
    requires top !in up && c in up && d in up && up[c] == top && up[d] == top
    requires Reaches(up, x, c, j) && Reaches(up, x, d, k)
    ensures c == d
    decreases j
  {
    if j > 0 && k > 0 {
      OneChildOnly(up, top, up[x], c, d, j - 1, k - 1);
    }
  }

  /** Removing objects that are not inside `c` leaves what is inside `c` alone. */
  lemma {:induction false} ReachesAfter(up: Containers, gone: set<Byte>, x: Byte, c: Byte, k: nat)
    requires forall y | y in gone && y in up :: !Inside(up, y, c)
    ensures Reaches(up, x, c, k) <==> Reaches(up - gone, x, c, k)
    decreases k
  {
    if k > 0 && x != c && x in up {
      ReachesAfter(up, gone, up[x], c, k - 1);
      if x in gone {
        assert !Inside(up, x, c);
        assert !Reaches(up, x, c, k);
      }
    }
  }

  lemma WithinAfter(up: Containers, gone: set<Byte>, c: Byte)
    requires gone !! Within(up, c)
    ensures Within(up - gone, c) == Within(up, c)
  {
    forall y | y in gone && y in up ensures !Inside(up, y, c) {
      assert y !in Within(up, c);
    }
    forall x ensures x in Within(up - gone, c) <==> x in Within(up, c) {
      if x in up && x !in gone {
        forall k: nat ensures Reaches(up, x, c, k) <==> Reaches(up - gone, x, c, k) {
          ReachesAfter(up, gone, x, c, k);
        }
      }
    }
  }

  lemma SiblingsDisjoint(up: Containers, top: Byte, c: Byte, d: Byte)
    requires top !in up && c in up && d in up && up[c] == top && up[d] == top && c != d
    ensures Within(up, c) !! Within(up, d)
  {
    forall x | x in Within(up, c) && x in Within(up, d) ensures false {
      var j: nat :| Reaches(up, x, c, j);
      var k: nat :| Reaches(up, x, d, k);
      OneChildOnly(up, top, x, c, d, j, k);
    }
  }

  // -------------------------------------------------- below a topmost container

  /** The number of containers up to the topmost is unique. */
  lemma {:induction false} OneDepth(up: Containers, x: Byte, top: Byte, j: nat, k: nat)
    requires Reaches(up, x, top, j) && Reaches(up, x, top, k)
    ensures j == k
    decreases j
  {
    if j > 0 && k > 0 {
      OneDepth(up, up[x], top, j - 1, k - 1);
    }
  }

  lemma {:induction false} DepthAdds(up: Containers, x: Byte, c: Byte, top: Byte, j: nat, k: nat)
    requires top !in up && Reaches(up, x, c, j) && Reaches(up, c, top, k)
    ensures Reaches(up, x, top, j + k)
    decreases j
  {
    if j > 0 {
      DepthAdds(up, up[x], c, top, j - 1, k);
    }
  }

  lemma {:induction false} OneAncestorAt(up: Containers, x: Byte, c: Byte, d: Byte, k: nat)
    requires Reaches(up, x, c, k) && Reaches(up, x, d, k)
    ensures c == d
    decreases k
  {
    if k > 0 {
      OneAncestorAt(up, up[x], c, d, k - 1);
    }
  }

  /** Below the topmost container no object is inside two siblings, nor any
      container inside its own contents. */
  lemma RootedSiblings(up: Containers, top: Byte, p: Byte, c: Byte, d: Byte, x: Byte)
    requires top !in up && Inside(up, p, top) && c in up && d in up && up[c] == p && up[d] == p
    requires Inside(up, x, c) && Inside(up, x, d)
    ensures c == d
  {
    var m: nat :| Reaches(up, p, top, m);
    var j: nat :| Reaches(up, x, c, j);
    var k: nat :| Reaches(up, x, d, k);
    assert Reaches(up, c, top, m + 1) && Reaches(up, d, top, m + 1);
    DepthAdds(up, x, c, top, j, m + 1);
    DepthAdds(up, x, d, top, k, m + 1);
    OneDepth(up, x, top, j + m + 1, k + m + 1);
    OneAncestorAt(up, x, c, d, j);
  }

  lemma RootedParent(up: Containers, top: Byte, p: Byte, c: Byte)
    requires top !in up && Inside(up, p, top) && c in up && up[c] == p
    ensures Inside(up, c, top) && !Inside(up, p, c) && c != p
  {
    var m: nat :| Reaches(up, p, top, m);
    assert Reaches(up, c, top, m + 1);
    forall j: nat | Reaches(up, p, c, j) ensures false {
      DepthAdds(up, p, c, top, j, m + 1);
      OneDepth(up, p, top, m, j + m + 1);
    }
    if c == p {
      OneDepth(up, c, top, m, m + 1);
    }
  }

  lemma {:induction false} ToParent(up: Containers, x: Byte, c: Byte, p: Byte, k: nat)
    requires Reaches(up, x, c, k) && c in up && up[c] == p && c != p && !Inside(up, p, c)
    ensures Reaches(up, x, p, k + 1)
    decreases k
  {
    assert x != p;
    if k == 0 {
      assert Reaches(up, p, p, 0);
    } else {
      ToParent(up, up[x], c, p, k - 1);
    }
  }

  /** The recursion from a container into its contents never comes back. */
  lemma SmallerBelow(up: Containers, top: Byte, p: Byte, c: Byte)
    requires top !in up && Inside(up, p, top) && c in up && up[c] == p
    ensures Within(up, c) + {c} < Within(up, p) + {p}
  {
    RootedParent(up, top, p, c);
    forall x | x in Within(up, c) ensures x in Within(up, p) {
      var k: nat :| Reaches(up, x, c, k);
      ToParent(up, x, c, p, k);
    }
    assert Reaches(up, c, c, 0);
    assert p !in Within(up, c) + {c};
  }

  /** What is inside a container, other than itself, is inside one of its direct
      contents. */
  lemma {:induction false} FirstStepDown(up: Containers, x: Byte, p: Byte, k: nat) returns (c: Byte)
    requires k > 0 && Reaches(up, x, p, k)
    ensures c in up && up[c] == p && Reaches(up, x, c, k - 1)
    decreases k
  {
    if k == 1 {
      c := x;
    } else {
      c := FirstStepDown(up, up[x], p, k - 1);
    }
  }

  // ----------------------------------------------------- where two paths part

  lemma {:induction false} Later(up: Containers, x: Byte, c: Byte, q: Byte, j: nat, k: nat)
    requires Reaches(up, x, c, j) && Reaches(up, x, q, k) && j <= k
    ensures Reaches(up, c, q, k - j)
    decreases j
  {
    if j > 0 {
      Later(up, up[x], c, q, j - 1, k - 1);
    }
  }

  lemma {:induction false} InsideTrans(up: Containers, x: Byte, y: Byte, d: Byte, j: nat)
    requires Reaches(up, x, y, j) && Inside(up, y, d)
    ensures Inside(up, x, d)
    decreases j
  {
    if x == d {
      assert Reaches(up, x, d, 0);
    } else if j > 0 {
      InsideTrans(up, up[x], y, d, j - 1);
      var k: nat :| Reaches(up, up[x], d, k);
      assert Reaches(up, x, d, k + 1);
    }
  }

  /** The depth of a container of a rooted object. */
  lemma DepthAbove(up: Containers, top: Byte, x: Byte, c: Byte, m: nat, j: nat)
    requires top !in up && Reaches(up, x, top, m) && Reaches(up, x, c, j)
    ensures j <= m && Reaches(up, c, top, m - j)
  {
    if m < j {
      Later(up, x, top, c, m, j);
      assert false;
    }
    Later(up, x, c, top, j, m);
  }

  lemma ParentDepth(up: Containers, top: Byte, c: Byte, d: Byte, j: nat, k: nat)
    requires top !in up && c in up && d in up && up[c] == up[d]
    requires Reaches(up, c, top, j) && Reaches(up, d, top, k)
    ensures j == k && j > 0 && Inside(up, up[c], top)
  {
    assert Reaches(up, up[c], top, j - 1);
    OneDepth(up, up[c], top, j - 1, k - 1);
  }

  lemma NotInEachOther(up: Containers, top: Byte, x: Byte, y: Byte)
    requires top !in up && Inside(up, x, top) && Inside(up, x, y) && Inside(up, y, x)
    ensures x == y
  {
    var m: nat :| Reaches(up, x, top, m);
    var j: nat :| Reaches(up, x, y, j);
    var k: nat :| Reaches(up, y, x, k);
    DepthAbove(up, top, x, y, m, j);
    DepthAdds(up, y, x, top, k, m);
    OneDepth(up, y, top, m - j, k + m);
  }

  /** Two rooted objects part at one pair of siblings only. */
  lemma PartOnce(up: Containers, top: Byte, x: Byte, y: Byte, c: Byte, d: Byte, e: Byte, f: Byte)
    requires top !in up && Inside(up, x, top) && Inside(up, y, top)
    requires c in up && d in up && up[c] == up[d] && c != d && Inside(up, x, c) && Inside(up, y, d)
    requires e in up && f in up && up[e] == up[f] && e != f && Inside(up, x, f) && Inside(up, y, e)
    ensures c == f && d == e
  {
    var m: nat :| Reaches(up, x, top, m);
    var n: nat :| Reaches(up, y, top, n);
    var xc: nat :| Reaches(up, x, c, xc);
    var xf: nat :| Reaches(up, x, f, xf);
    var yd: nat :| Reaches(up, y, d, yd);
    var ye: nat :| Reaches(up, y, e, ye);
    DepthAbove(up, top, x, c, m, xc);
    DepthAbove(up, top, x, f, m, xf);
    DepthAbove(up, top, y, d, n, yd);
    DepthAbove(up, top, y, e, n, ye);
    ParentDepth(up, top, c, d, m - xc, n - yd);
    ParentDepth(up, top, e, f, n - ye, m - xf);
    if xc == xf {
      OneAncestorAt(up, x, c, f, xc);
      OneAncestorAt(up, y, d, e, yd);
    } else if xc < xf {
      Later(up, x, c, f, xc, xf);
      Later(up, y, d, e, yd, ye);
      BothContain(up, top, c, d, e, f, xf - xc, ye - yd);
    } else {
      Later(up, x, f, c, xf, xc);
      Later(up, y, e, d, ye, yd);
      BothContain(up, top, f, e, d, c, xc - xf, yd - ye);
    }
  }

  /** Siblings are inside one sibling at most. */
  lemma BothContain(up: Containers, top: Byte, c: Byte, d: Byte, e: Byte, f: Byte, j: nat, k: nat)
    requires top !in up && c in up && d in up && up[c] == up[d] && e in up && f in up && up[e] == up[f]
    requires Inside(up, up[e], top) && j > 0 && k > 0 && Reaches(up, c, f, j) && Reaches(up, d, e, k)
    ensures e == f
  {
    assert Reaches(up, up[c], f, j - 1) && Reaches(up, up[d], e, k - 1);
    RootedSiblings(up, top, up[e], e, f, up[c]);
  }
}
