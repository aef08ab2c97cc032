/** Properties of insertion: where `Add` puts an entity, that it stores it
    exactly once, and that containment and capacity are kept. */
module AddProps {
  import opened Geometry
  import opened Octree

  /** Closed children cover their parent: a point of the parent's region lies
      in at least one child, so the source's zero-match branch (which would
      index `children_nodes[-1]`) cannot be taken. */
  lemma ChildrenCoverParent(n: Node, p: Point)
    requires WF(n) && |n.children| == 8 && Contains(n.region, p)
    ensures |ChildMatches(n, p)| >= 1
    ensures |CountChildrenIntersections(2, n, p)| >= 1
  {
    var i := OctantOf(n.region, p);
    assert Contains(n.children[i].region, p);
    assert i in ChildMatches(n, p);
  }

  /** At the bottom level, or in a childless node with room, `e` is appended
      to the node's own entities and nothing else changes. */
  lemma AddAppendsHere(n: Node, e: Entity, pos: Entity -> Point)
    requires WF(n) && Intersects(n, e, pos)
    requires n.Depth() >= MaxDepth || (|n.children| == 0 && |n.entities| < EntitiesPerNode)
    ensures Add(n, e, pos).entities == n.entities + [e]
    ensures Add(n, e, pos).children == n.children
  {
  }

  /** With exactly one child containing the position, `e` goes to that child:
      this node's entities and its other children are unchanged. */
  lemma AddDelegates(n: Node, e: Entity, pos: Entity -> Point, i: nat)
    requires WF(n) && Intersects(n, e, pos) && n.Depth() < MaxDepth && |n.children| == 8
    requires i < 8 && ChildMatches(n, pos(e)) == [i]
    ensures Add(n, e, pos).entities == n.entities
    ensures Add(n, e, pos).children == n.children[i := Add(n.children[i], e, pos)]
  {
    assert CountChildrenIntersections(2, n, pos(e)) == [i];
  }

  /** With two or more children containing the position, `e` stays here. */
  lemma AddKeepsAmbiguous(n: Node, e: Entity, pos: Entity -> Point)
    requires WF(n) && Intersects(n, e, pos) && n.Depth() < MaxDepth && |n.children| == 8
    requires |ChildMatches(n, pos(e))| >= 2
    ensures Add(n, e, pos).entities == n.entities + [e]
    ensures Add(n, e, pos).children == n.children
  {
    assert |CountChildrenIntersections(2, n, pos(e))| == 2;
  }

  /** A point of the region on one of the mid-planes lies in (at least)
      two children: the one `OctantOf` picks and the one across that
      plane. */
  lemma SharedFaceMatchesTwo(n: Node, p: Point)
    requires WF(n) && |n.children| == 8 && Contains(n.region, p)
    requires OnMidPlane(n.region, p)
    ensures |ChildMatches(n, p)| >= 2
  {
    var axis := if p.x == n.region.origin.x then 0 else if p.y == n.region.origin.y then 1 else 2;
    var i := OctantOf(n.region, p);
    var j := Flip(i, axis);
    OnSharedFace(n.region, p, i, axis);
    assert n.children[i].region == Octant(n.region, i);
    assert n.children[j].region == Octant(n.region, j);
    var m := ChildMatches(n, p);
    assert i in m && j in m;
    TwoMembers(m, i, j);
  }

  lemma TwoMembers(m: seq<nat>, a: nat, b: nat)
    requires a != b && a in m && b in m
    ensures |m| >= 2
  {
    var k1 := IndexOf(m, a);
    var k2 := IndexOf(m, b);
    assert k1 != k2;
  }

  /** A position on any of the three mid-planes of a subdivided node lies in
      two children, so the entity is stored at the parent. */
  lemma AddOnSharedFaceStaysAtParent(n: Node, e: Entity, pos: Entity -> Point)
    requires WF(n) && |n.children| == 8 && Intersects(n, e, pos)
    requires OnMidPlane(n.region, pos(e))
    ensures Add(n, e, pos).entities == n.entities + [e]
    ensures Add(n, e, pos).children == n.children
  {
    SharedFaceMatchesTwo(n, pos(e));
    AddKeepsAmbiguous(n, e, pos);
  }

  /** Inserting an entity whose position lies in the node's region stores it
      exactly once in the subtree, keeps every other stored entity, keeps every
      entity inside the region of the node holding it (also those moved into
      new children by an overflow subdivision) and keeps the capacity bound. */
  lemma {:induction false} AddStores(n: Node, e: Entity, pos: Entity -> Point)
    requires WF(n) && Contained(n, pos) && WithinCapacity(n) && Intersects(n, e, pos)
    ensures Stored(Add(n, e, pos)) == Stored(n) + multiset{e}
    ensures Contained(Add(n, e, pos), pos)
    ensures WithinCapacity(Add(n, e, pos))
    decreases MaxDepth - n.Depth(), if |n.children| == 0 then 1 else 0, 1
  {
    if n.Depth() < MaxDepth && |n.children| == 0 && |n.entities| >= EntitiesPerNode {
      AddOverflowStores(n, e, pos);
    } else if n.Depth() < MaxDepth && |n.children| > 0
              && |CountChildrenIntersections(2, n, pos(e))| == 1 {
      AddDelegateStores(n, e, pos, CountChildrenIntersections(2, n, pos(e))[0]);
    } else {
      AddHereStores(n, e, pos);
    }
  }

  /** The cases that store `e` at this node. */
  lemma AddHereStores(n: Node, e: Entity, pos: Entity -> Point)
    requires WF(n) && Contained(n, pos) && WithinCapacity(n) && Intersects(n, e, pos)
    requires !(n.Depth() < MaxDepth && |n.children| == 0 && |n.entities| >= EntitiesPerNode)
    requires !(n.Depth() < MaxDepth && |n.children| > 0
               && |CountChildrenIntersections(2, n, pos(e))| == 1)
    ensures Stored(Add(n, e, pos)) == Stored(n) + multiset{e}
    ensures Contained(Add(n, e, pos), pos)
    ensures WithinCapacity(Add(n, e, pos))
  {
    var r := AddHere(n, e);
    assert Add(n, e, pos) == r;
    assert multiset(n.entities + [e]) == multiset(n.entities) + multiset{e};
    forall k | 0 <= k < |r.entities| ensures Contains(r.region, pos(r.entities[k])) {
      if k < |n.entities| {
        assert r.entities[k] == n.entities[k];
      }
    }
  }

  /** The overflow case: the single resident is re-inserted into the new
      children (or kept here), then `e` is inserted. */
  lemma {:induction false} AddOverflowStores(n: Node, e: Entity, pos: Entity -> Point)
    requires WF(n) && Contained(n, pos) && WithinCapacity(n) && Intersects(n, e, pos)
    requires n.Depth() < MaxDepth && |n.children| == 0 && |n.entities| >= EntitiesPerNode
    ensures Stored(Add(n, e, pos)) == Stored(n) + multiset{e}
    ensures Contained(Add(n, e, pos), pos)
    ensures WithinCapacity(Add(n, e, pos))
    decreases MaxDepth - n.Depth(), 1, 0
  {
    var x, s1 := OverflowShape(n, e, pos);
    AddStores(s1, x, pos);
    AddStores(Add(s1, x, pos), e, pos);
  }

  /** After an overflow subdivision the node is empty with eight empty
      children; its resident `x` and then `e` are added to it. */
  lemma OverflowShape(n: Node, e: Entity, pos: Entity -> Point) returns (x: Entity, s1: Node)
    requires WF(n) && Contained(n, pos) && WithinCapacity(n) && Intersects(n, e, pos)
    requires n.Depth() < MaxDepth && |n.children| == 0 && |n.entities| >= EntitiesPerNode
    ensures n.entities == [x] && Stored(n) == multiset{x}
    ensures WF(s1) && |s1.children| == 8 && s1.Depth() == n.Depth() && s1.region == n.region
    ensures Stored(s1) == multiset{} && Contained(s1, pos) && WithinCapacity(s1)
    ensures Intersects(s1, x, pos)
    ensures Add(n, e, pos) == Add(Add(s1, x, pos), e, pos)
  {
    x := n.entities[0];
    assert n.entities == [x];
    var s := Subdivide(n).(entities := []);
    SubdivideOctants(n);
    StoredSeqNothing(s.children);
    s1 := Remove(s, x);
    assert s1 == s.(needAllEntitiesUpdate := true);
    assert forall j | 0 <= j < 8 :: Contained(s1.children[j], pos) && WithinCapacity(s1.children[j]);
    var s2 := Add(s1, x, pos);
    assert n.entities[..0] == [];
    assert Redistribute(s, n.entities, pos) == Redistribute(s2, n.entities[..0], pos);
  }

  /** The delegation case: `e` goes into the one child that contains it. */
  lemma {:induction false} AddDelegateStores(n: Node, e: Entity, pos: Entity -> Point, i: nat)
    requires WF(n) && Contained(n, pos) && WithinCapacity(n) && Intersects(n, e, pos)
    requires n.Depth() < MaxDepth && |n.children| == 8
    requires CountChildrenIntersections(2, n, pos(e)) == [i]
    ensures Stored(Add(n, e, pos)) == Stored(n) + multiset{e}
    ensures Contained(Add(n, e, pos), pos)
    ensures WithinCapacity(Add(n, e, pos))
    decreases MaxDepth - n.Depth(), 0, 0
  {
    var c := DelegateShape(n, e, pos, i);
    AddStores(c, e, pos);
    ReattachKeeps(n, i, Add(c, e, pos), multiset{e}, pos);
  }

  lemma DelegateShape(n: Node, e: Entity, pos: Entity -> Point, i: nat) returns (c: Node)
    requires WF(n) && Intersects(n, e, pos)
    requires n.Depth() < MaxDepth && |n.children| == 8
    requires CountChildrenIntersections(2, n, pos(e)) == [i]
    ensures i < 8 && c == n.children[i] && Intersects(c, e, pos)
    ensures c.Depth() == n.Depth() + 1 && WF(c)
    ensures Add(n, e, pos) == Reattach(n, i, Add(c, e, pos))
  {
    var cm := ChildMatches(n, pos(e));
    assert cm[..Min(2, |cm|)] == [i];
    assert cm[0] == i;
    c := n.children[i];
  }

  /** Putting back a child that gained `extra` makes the node gain `extra`,
      and keeps containment and capacity. */
  lemma ReattachKeeps(n: Node, i: nat, c: Node, extra: multiset<Entity>, pos: Entity -> Point)
    requires i < |n.children| && Stored(c) == Stored(n.children[i]) + extra
    requires Contained(n, pos) && WithinCapacity(n) && Contained(c, pos) && WithinCapacity(c)
    ensures Stored(Reattach(n, i, c)) == Stored(n) + extra
    ensures Contained(Reattach(n, i, c), pos) && WithinCapacity(Reattach(n, i, c))
  {
    var r := Reattach(n, i, c);
    StoredSeqGrow(n.children, i, c, extra);
    assert Stored(r) == Stored(n) + extra by {
      assert r.entities == n.entities && r.children == n.children[i := c];
    }
    forall j | 0 <= j < |r.children| ensures Contained(r.children[j], pos) && WithinCapacity(r.children[j]) {
      if j != i {
        assert r.children[j] == n.children[j];
      }
    }
  }

  /** Unfolds the overflow case of `Add`: the node subdivides, loses its own
      entities, and they are re-inserted last first before `e` is. */
  lemma OverflowUnfold(n: Node, e: Entity, pos: Entity -> Point) returns (s1: Node)
    requires WF(n) && Intersects(n, e, pos)
    requires n.Depth() < MaxDepth && |n.children| == 0 && |n.entities| >= EntitiesPerNode
    ensures var es := n.entities; var x := es[|es| - 1];
      && s1 == Remove(Subdivide(n).(entities := []), x)
      && Add(n, e, pos) == Add(Redistribute(Add(s1, x, pos), es[..|es| - 1], pos), e, pos)
    ensures WF(s1) && |s1.children| == 8 && s1.Depth() == n.Depth()
    ensures s1.entities == [] && s1.needAllEntitiesUpdate && s1.needLeavesUpdate
    ensures forall j | 0 <= j < 8 ::
      s1.children[j] == NewNode(Octant(n.region, j), n.path + [j])
    ensures Stored(s1) == multiset{}
  {
    var es := n.entities;
    var x := es[|es| - 1];
    var s := Subdivide(n).(entities := []);
    s1 := Remove(s, x);
    SubdivideOctants(n);
    StoredSeqNothing(s1.children);
  }

  /** Without any assumption on positions, inserting never invents an entity
      (an entity already stored may be lost, see `StrayResidentLost`) and
      keeps the capacity bound. */
  lemma {:induction false} AddKeeps(n: Node, e: Entity, pos: Entity -> Point)
    requires WF(n) && WithinCapacity(n)
    ensures Stored(Add(n, e, pos)) <= Stored(n) + multiset{e}
    ensures WithinCapacity(Add(n, e, pos))
    decreases MaxDepth - n.Depth(), if |n.children| == 0 then 1 else 0, 1, 0
  {
    if !Intersects(n, e, pos) {
    } else if n.Depth() < MaxDepth && |n.children| == 0 && |n.entities| >= EntitiesPerNode {
      AddOverflowKeeps(n, e, pos);
    } else if n.Depth() < MaxDepth && |n.children| > 0
              && |CountChildrenIntersections(2, n, pos(e))| == 1 {
      AddDelegateKeeps(n, e, pos, CountChildrenIntersections(2, n, pos(e))[0]);
    } else {
      AddHereKeeps(n, e, pos);
    }
  }

  /** An entity whose position has left the region of the full childless
      node storing it is dropped when another entity is inserted there: the
      overflow re-inserts it into the subdivided node, whose region does not
      contain it, and that insertion changes nothing. */
  lemma StrayResidentLost(n: Node, x: Entity, e: Entity, pos: Entity -> Point)
    requires WF(n) && Intersects(n, e, pos) && n.Depth() < MaxDepth && |n.children| == 0
    requires n.entities == [x] && !Intersects(n, x, pos) && x != e
    ensures x !in Stored(Add(n, e, pos))
  {
    var s1 := OverflowUnfold(n, e, pos);
    assert n.entities[..0] == [];
    assert Add(s1, x, pos) == s1;
    assert WithinCapacity(s1) by {
      assert forall j | 0 <= j < 8 :: s1.children[j].entities == [] && s1.children[j].children == [];
    }
    AddKeeps(s1, e, pos);
  }

  lemma AddHereKeeps(n: Node, e: Entity, pos: Entity -> Point)
    requires WF(n) && WithinCapacity(n) && Intersects(n, e, pos)
    requires !(n.Depth() < MaxDepth && |n.children| == 0 && |n.entities| >= EntitiesPerNode)
    requires !(n.Depth() < MaxDepth && |n.children| > 0
               && |CountChildrenIntersections(2, n, pos(e))| == 1)
    ensures Stored(Add(n, e, pos)) == Stored(n) + multiset{e}
    ensures WithinCapacity(Add(n, e, pos))
  {
    assert Add(n, e, pos) == AddHere(n, e);
    assert multiset(n.entities + [e]) == multiset(n.entities) + multiset{e};
  }

  lemma {:induction false} AddDelegateKeeps(n: Node, e: Entity, pos: Entity -> Point, i: nat)
    requires WF(n) && WithinCapacity(n) && Intersects(n, e, pos)
    requires n.Depth() < MaxDepth && |n.children| == 8
    requires CountChildrenIntersections(2, n, pos(e)) == [i]
    ensures Stored(Add(n, e, pos)) <= Stored(n) + multiset{e}
    ensures WithinCapacity(Add(n, e, pos))
    decreases MaxDepth - n.Depth(), 0, 0, 0
  {
    var c := DelegateShape(n, e, pos, i);
    AddKeeps(c, e, pos);
    ReattachBounded(n, i, Add(c, e, pos), multiset{e});
  }

  /** Putting back a child that gained at most `extra` makes the node gain
      at most `extra`, and keeps capacity. */
  lemma ReattachBounded(n: Node, i: nat, c: Node, extra: multiset<Entity>)
    requires i < |n.children| && Stored(c) <= Stored(n.children[i]) + extra
    requires WithinCapacity(n) && WithinCapacity(c)
    ensures Stored(Reattach(n, i, c)) <= Stored(n) + extra
    ensures WithinCapacity(Reattach(n, i, c))
  {
    StoredSeqBounded(n.children, i, c, extra);
    var r := Reattach(n, i, c);
    assert forall j | 0 <= j < |r.children| :: WithinCapacity(r.children[j]);
  }

  lemma {:induction false} AddOverflowKeeps(n: Node, e: Entity, pos: Entity -> Point)
    requires WF(n) && WithinCapacity(n) && Intersects(n, e, pos)
    requires n.Depth() < MaxDepth && |n.children| == 0 && |n.entities| >= EntitiesPerNode
    ensures Stored(Add(n, e, pos)) <= Stored(n) + multiset{e}
    ensures WithinCapacity(Add(n, e, pos))
    decreases MaxDepth - n.Depth(), 1, 0, 0
  {
    var es := n.entities;
    var x := es[|es| - 1];
    var s1 := OverflowUnfold(n, e, pos);
    assert forall j | 0 <= j < 8 :: WithinCapacity(s1.children[j]);
    AddKeeps(s1, x, pos);
    var s2 := Add(s1, x, pos);
    RedistributeKeeps(s2, es[..|es| - 1], pos);
    var s3 := Redistribute(s2, es[..|es| - 1], pos);
    AddKeeps(s3, e, pos);
    LastSplit(es);
  }

  /** Re-inserting a list of entities never invents one and keeps capacity. */
  lemma {:induction false} RedistributeKeeps(n: Node, es: seq<Entity>, pos: Entity -> Point)
    requires WF(n) && |n.children| == 8 && WithinCapacity(n)
    ensures Stored(Redistribute(n, es, pos)) <= Stored(n) + multiset(es)
    ensures WithinCapacity(Redistribute(n, es, pos))
    decreases MaxDepth - n.Depth(), 0, 2, |es|
  {
    if es != [] {
      var x := es[|es| - 1];
      var es' := es[..|es| - 1];
      var m := Remove(n, x);
      assert Redistribute(n, es, pos) == Redistribute(Add(m, x, pos), es', pos);
      assert WithinCapacity(m);
      assert Stored(m) <= Stored(n);
      AddKeeps(m, x, pos);
      var a := Add(m, x, pos);
      RedistributeKeeps(a, es', pos);
      LastSplit(es);
      assert Stored(a) <= Stored(n) + multiset{x};
    }
  }

  /** The last element split off a non-empty sequence. */
  lemma LastSplit<T>(es: seq<T>)
    requires es != []
    ensures es == es[..|es| - 1] + [es[|es| - 1]]
    ensures multiset(es) == multiset(es[..|es| - 1]) + multiset{es[|es| - 1]}
  {
    assert es == es[..|es| - 1] + [es[|es| - 1]];
  }
}
