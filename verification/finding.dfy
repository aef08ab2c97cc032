/** A concrete update in which the re-homing pass, as the source runs it,
    stores an entity twice, and the same update run with the corrected pass.

    The root spans [-8, 8] on each axis and has been subdivided once. A is in
    child 0, B in child 6. A moves to (-6, -6, -6), into child 6; B's pose
    changes without it leaving its place (-2, -2, -2). Both are queued, and
    the snapshot of the all-entities list is [(A, [0]), (B, [6])].

    Re-homing A adds it to child 6, which is full: child 6 subdivides and B
    moves down into grandchild [6, 1]. The pass then handles B from the
    snapshot's owner [6]: removing B there removes nothing, and B is added
    to [6, 1] where it already is.

    A second update from the same tree moves B instead to (5, 5, 5), in
    child 1. Child 6 still splits when A arrives, but B is outside it now,
    so the split drops B. Both passes then walk B from [6], climb to the
    root and put B into child 1. */
module StaleOwner {
  import opened Geometry
  import opened Octree
  import opened Caches
  import opened AddProps
  import opened Paths
  import opened Pending
  import opened Rehome

  const Space := Region(Point(0.0, 0.0, 0.0), 8.0, 8.0, 8.0)
  const A := Entity(0)
  const B := Entity(1)

  /** Positions when the pass runs. */
  function Moved(e: Entity): Point
  {
    if e == A then Point(-6.0, -6.0, -6.0) else Point(-2.0, -2.0, -2.0)
  }

  /** Positions when the entities were inserted. */
  function Before(e: Entity): Point
  {
    if e == A then Point(-4.0, 4.0, 4.0) else Point(-2.0, -2.0, -2.0)
  }

  /** What child `i` of the root stores before the update. */
  function Residents(i: nat): seq<Entity>
  {
    if i == 0 then [A] else if i == 6 then [B] else []
  }

  /** Child `i` of the root, childless, storing its residents. */
  function Child(i: nat): (c: Node)
    requires i < 8
    ensures WF(c) && WithinCapacity(c) && c.children == []
    ensures c.region == Octant(Space, i) && c.path == [i] && c.entities == Residents(i)
  {
    NewNode(Octant(Space, i), [i]).(entities := Residents(i))
  }

  /** The tree before the update, its caches up to date. */
  function Start(): Node
  {
    Node(Space, [], [], seq(8, i requires 0 <= i < 8 => Child(i)),
         Snapshot, seq(8, i => [i]), false, false)
  }

  const Snapshot: seq<Owned> := [Owned(A, [0]), Owned(B, [6])]

  /** The only child of `n` containing `p` is child `i`. */
  lemma OnlyChild(n: Node, p: Point, i: nat)
    requires i < |n.children| && Contains(n.children[i].region, p)
    requires forall j | 0 <= j < |n.children| && j != i :: !Contains(n.children[j].region, p)
    ensures ChildMatches(n, p) == [i]
    ensures CountChildrenIntersections(2, n, p) == [i]
  {
    MatchingOnly(n.children, p, 0, i);
  }

  lemma {:induction false} MatchingOnly(cs: seq<Node>, p: Point, from: nat, i: nat)
    requires from <= |cs| && i < |cs| && Contains(cs[i].region, p)
    requires forall j | 0 <= j < |cs| && j != i :: !Contains(cs[j].region, p)
    ensures MatchingFrom(cs, p, from) == if from <= i then [i] else []
    decreases |cs| - from
  {
    if from < |cs| {
      MatchingOnly(cs, p, from + 1, i);
    }
  }

  /** What the lemmas below use of the starting tree. They take any tree of
      this shape rather than `Start()` itself, so that the verifier does not
      evaluate the literal tree. */
  ghost predicate Shaped(t: Node)
  {
    && WF(t) && WithinCapacity(t) && t.region == Space && t.path == [] && t.entities == []
    && |t.children| == 8 && forall j | 0 <= j < 8 :: t.children[j] == Child(j)
  }

  /** The starting tree has that shape, so the lemmas below apply to it. */
  lemma StartShaped()
    ensures Shaped(Start())
  {
  }

  /** The snapshot is the starting tree's entry list; the tree stores A and B
      once each, every entity inside its node before the move, and every
      entity but A after it. */
  lemma ShapedFacts(t: Node)
    requires Shaped(t)
    ensures AllEntries(t) == Snapshot
    ensures Stored(t) == multiset{A, B} && Unique(t)
    ensures Contained(t, Before) && ContainedBut(t, A, Moved)
  {
    ShapedEntries(t);
    ShapedPlaces(t);
  }

  lemma ShapedEntries(t: Node)
    requires Shaped(t)
    ensures AllEntries(t) == Snapshot
    ensures Stored(t) == multiset{A, B} && Unique(t)
  {
    EntriesFrom(t.children, 0);
    assert t.children[0..] == t.children;
    assert OwnPairs(t.entities, t.path) == [];
    assert AllEntries(t) == AllEntriesSeq(t.children) + [];
    EntriesAreStored(t);
    SnapshotEntities();
  }

  lemma ShapedPlaces(t: Node)
    requires Shaped(t)
    ensures Contained(t, Before) && ContainedBut(t, A, Moved)
  {
    forall j | 0 <= j < 8 ensures Contained(t.children[j], Before) && ContainedBut(t.children[j], A, Moved) {
      assert t.children[j] == Child(j);
    }
  }

  /** The entries of the root's children from child `j` on. */
  lemma {:induction false} EntriesFrom(cs: seq<Node>, j: nat)
    requires |cs| == 8
    requires forall i | 0 <= i < 8 :: cs[i].children == [] && cs[i].entities == Residents(i) && cs[i].path == [i]
    requires j <= 8
    ensures AllEntriesSeq(cs[j..]) == Snapshot[(if j == 0 then 0 else if j <= 6 then 1 else 2)..]
    decreases 8 - j
  {
    if j == 8 {
      assert cs[8..] == [];
    } else {
      EntriesFrom(cs, j + 1);
      var rest := AllEntriesSeq(cs[j + 1..]);
      AllEntriesStep(cs, j, rest);
      var own := OwnPairs(cs[j].entities, cs[j].path);
      if j == 0 {
        assert own == Snapshot[..1] && rest == Snapshot[1..];
        assert Snapshot[..1] + Snapshot[1..] == Snapshot;
      } else if j == 6 {
        assert own == Snapshot[1..2] && rest == Snapshot[2..];
        assert Snapshot[1..2] + Snapshot[2..] == Snapshot[1..];
      } else {
        assert own == [];
      }
    }
  }

  lemma SnapshotEntities()
    ensures EntitiesOf(Snapshot) == multiset{A, B}
  {
    var b := Owned(B, [6]);
    var none: seq<Owned> := [];
    assert Snapshot[1..] == [b];
    assert [b][1..] == none;
    assert EntitiesOf([b]) == multiset{B} + EntitiesOf(none);
    assert EntitiesOf(Snapshot) == multiset{A} + EntitiesOf([b]);
  }

  /** One step of the entry list of a run of childless children. */
  lemma AllEntriesStep(cs: seq<Node>, j: nat, rest: seq<Owned>)
    requires j < |cs| && cs[j].children == [] && AllEntriesSeq(cs[j + 1..]) == rest
    ensures AllEntriesSeq(cs[j..]) == OwnPairs(cs[j].entities, cs[j].path) + rest
  {
    assert cs[j..][1..] == cs[j + 1..];
    assert AllEntriesSeq(cs[j].children) == [];
  }

  // ----- which child holds a point -----

  /** A point off the three centre planes of `b` lies in one octant only. */
  lemma StrictOctant(b: Region, p: Point, j: nat)
    requires j < 8 && Contains(Octant(b, j), p)
    requires p.x != b.origin.x && p.y != b.origin.y && p.z != b.origin.z
    ensures j == OctantOf(b, p)
  {
    if j == 0 {} else if j == 1 {} else if j == 2 {} else if j == 3 {}
    else if j == 4 {} else if j == 5 {} else if j == 6 {} else {}
  }

  /** Such a point makes exactly one child of a split node match. */
  lemma UniqueChild(n: Node, p: Point)
    requires WF(n) && |n.children| == 8 && Contains(n.region, p)
    requires p.x != n.region.origin.x && p.y != n.region.origin.y && p.z != n.region.origin.z
    ensures ChildMatches(n, p) == [OctantOf(n.region, p)]
    ensures CountChildrenIntersections(2, n, p) == [OctantOf(n.region, p)]
  {
    var i := OctantOf(n.region, p);
    forall j | 0 <= j < 8 && j != i ensures !Contains(n.children[j].region, p) {
      if Contains(n.children[j].region, p) {
        StrictOctant(n.region, p, j);
      }
    }
    OnlyChild(n, p, i);
  }

  /** The region of child 6 of the root. */
  lemma SixthOctant()
    ensures Octant(Space, 6) == Region(Point(-4.0, -4.0, -4.0), 4.0, 4.0, 4.0)
  {
  }

  // ----- the two re-homing steps -----

  /** Re-homing A finds child 0 childless, climbs to the root, and moves A
      into child 6. */
  lemma FirstWalk(t: Node, pos: Entity -> Point)
    requires Shaped(t) && pos(A) == Moved(A)
    ensures Lookup(t, [0]) == Some(Child(0)) && Lookup(t, [6]) == Some(Child(6))
    ensures Rehome.Rehome(t, [0], A, pos) == AddAt(RemoveAt(t, [0], A), [6], A, pos)
  {
    var owner: Path := [0];
    assert Lookup(t, [6]) == Lookup(t.children[6], []);
    assert Lookup(t, owner) == Lookup(t.children[0], []);
    FirstTarget(t, pos);
  }

  /** The walk for A from [0] climbs to the root and targets child 6. */
  lemma FirstTarget(t: Node, pos: Entity -> Point)
    requires Shaped(t) && pos(A) == Moved(A)
    ensures Target(t, [0], 1, A, pos) == Some([6])
  {
    var owner: Path := [0];
    assert owner[..1] == owner && owner[..0] == [];
    assert Lookup(t, owner) == Lookup(t.children[0], []);
    assert CountChildrenIntersections(2, Child(0), pos(A)) == [];
    assert Target(t, owner, 1, A, pos) == Target(t, owner, 0, A, pos);
    UniqueChild(t, pos(A));
    assert OctantOf(t.region, pos(A)) == 6;
  }

  /** Child 6, full with B, splits when A arrives: B goes down to
      grandchild 1 and A to grandchild 6, and child 6 keeps no entity. */
  lemma SixSplits()
    ensures Add(Child(6), A, Moved).entities == []
    ensures |Add(Child(6), A, Moved).children| == 8
  {
    var c := Child(6);
    SixthOctant();
    var s1 := OverflowUnfold(c, A, Moved);
    assert c.entities[..0] == [];
    var u := Add(s1, B, Moved);
    assert Redistribute(u, [], Moved) == u;
    UniqueChild(s1, Moved(B));
    assert OctantOf(s1.region, Moved(B)) == 1;
    AddDelegates(s1, B, Moved, 1);
    assert u.entities == [];
    UniqueChild(u, Moved(A));
    assert OctantOf(u.region, Moved(A)) == 6;
    AddDelegates(u, A, Moved, 6);
  }

  /** After the first step the tree still stores A and B once each, all in
      place, and child 6 has split and holds no entity itself. */
  lemma FirstStep(t: Node) returns (t1: Node)
    requires Shaped(t)
    ensures Lookup(t, [0]).Some? && t1 == Rehome.Rehome(t, [0], A, Moved)
    ensures WF(t1) && WithinCapacity(t1) && t1.region == Space
    ensures Stored(t1) == multiset{A, B} && Contained(t1, Moved)
    ensures Lookup(t1, [6]).Some?
    ensures Lookup(t1, [6]).value.entities == [] && |Lookup(t1, [6]).value.children| == 8
  {
    t1 := Rehome.Rehome(t, [0], A, Moved);
    ShapedFacts(t);
    FirstWalk(t, Moved);
    RehomeKeeps(t, [0], A, Moved);
    RehomeExact(t, [0], A, Moved);
    var r := RemoveAt(t, [0], A);
    assert r == ReplaceAt(t, [0], Remove(Child(0), A));
    assert r.children[6] == Child(6);
    assert Lookup(r, [6]) == Lookup(r.children[6], []);
    assert t1 == ReplaceAt(r, [6], Add(Child(6), A, Moved));
    ReplaceAtFound(r, [6], Add(Child(6), A, Moved));
    SixSplits();
  }

  /** Re-homing B from the stale owner [6] finds that exactly grandchild
      [6, 1] contains B, removes nothing from [6], and adds B again. */
  lemma SecondStep(t1: Node)
    requires WF(t1) && WithinCapacity(t1) && t1.region == Space
    requires Contained(t1, Moved) && Lookup(t1, [6]).Some?
    requires Lookup(t1, [6]).value.entities == [] && |Lookup(t1, [6]).value.children| == 8
    ensures Stored(Rehome.Rehome(t1, [6], B, Moved)) == Stored(t1) + multiset{B}
  {
    SecondWalk(t1);
    MoveStale(t1, [6], [6, 1], B, Moved);
  }

  lemma SecondWalk(t1: Node)
    requires WF(t1) && t1.region == Space && Lookup(t1, [6]).Some?
    requires |Lookup(t1, [6]).value.children| == 8
    ensures Lookup(t1, [6, 1]).Some? && Intersects(Lookup(t1, [6, 1]).value, B, Moved)
    ensures Rehome.Rehome(t1, [6], B, Moved) == AddAt(RemoveAt(t1, [6], B), [6, 1], B, Moved)
  {
    var owner: Path := [6];
    SecondTarget(t1);
    SixFacts(t1);
    LookupChild(t1, owner, 1);
    assert owner + [1] == [6, 1];
  }

  /** The walk for B from [6] targets grandchild [6, 1]. */
  lemma SecondTarget(t1: Node)
    requires WF(t1) && t1.region == Space && Lookup(t1, [6]).Some?
    requires |Lookup(t1, [6]).value.children| == 8
    ensures Target(t1, [6], 1, B, Moved) == Some([6, 1])
  {
    var owner: Path := [6];
    assert owner[..1] == owner;
    SixFacts(t1);
    var m := CountChildrenIntersections(2, Lookup(t1, owner[..1]).value, Moved(B));
    assert m == [1];
    assert owner[..1] + [m[0]] == [6, 1];
    assert |owner[..1] + [m[0]]| != |owner|;
  }

  /** In child 6 of the root, B's position matches grandchild 1 only. */
  lemma SixFacts(t1: Node)
    requires WF(t1) && t1.region == Space && Lookup(t1, [6]).Some?
    requires |Lookup(t1, [6]).value.children| == 8
    ensures var n6 := Lookup(t1, [6]).value;
      && WF(n6)
      && CountChildrenIntersections(2, n6, Moved(B)) == [1]
      && Contains(n6.children[1].region, Moved(B))
  {
    var n6 := Lookup(t1, [6]).value;
    assert Lookup(t1, [6]) == Lookup(t1.children[6], []);
    assert n6.region == Octant(Space, 6);
    LookupWF(t1, [6]);
    SixthOctant();
    UniqueChild(n6, Moved(B));
    assert OctantOf(n6.region, Moved(B)) == 1;
  }
  // ----- the two passes -----

  /** The pass as written: from a tree storing A and B once each, with both
      queued, it ends storing B twice. */
  lemma AsWrittenDuplicates(t: Node)
    requires Shaped(t)
    ensures Stored(t) == multiset{A, B} && Unique(t)
    ensures Stored(RehomeAll(t, Snapshot, [A, B], Moved).root) == multiset{A, B, B}
    ensures !Unique(RehomeAll(t, Snapshot, [A, B], Moved).root)
  {
    ShapedEntries(t);
    var t1 := FirstStep(t);
    var t2 := Rehome.Rehome(t1, [6], B, Moved);
    SecondStep(t1);
    AsWrittenUnfold(t, t1, Moved);
    BTwice(Stored(t1), t2);
  }

  /** A tree storing what another stores, A and B, plus B again, stores B
      twice. */
  lemma BTwice(m: multiset<Entity>, t2: Node)
    requires m == multiset{A, B} && Stored(t2) == m + multiset{B}
    ensures Stored(t2) == multiset{A, B, B} && !Unique(t2)
  {
    assert Stored(t2)[B] == 2;
  }

  /** One step of the pass as written, for a queued entry whose node
      exists. */
  lemma AsWrittenStep(root: Node, snapshot: seq<Owned>, queue: seq<Entity>, pos: Entity -> Point)
    requires WF(root) && snapshot != [] && snapshot[0].entity in queue
    requires Lookup(root, snapshot[0].owner).Some?
    ensures RehomeAll(root, snapshot, queue, pos)
         == RehomeAll(Rehome.Rehome(root, snapshot[0].owner, snapshot[0].entity, pos), snapshot[1..],
                      RemoveFirst(queue, snapshot[0].entity), pos)
  {
  }

  /** One step of the corrected pass, for a queued entity that is stored. */
  lemma CorrectedStep(root: Node, snapshot: seq<Owned>, queue: seq<Entity>, pos: Entity -> Point)
    requires WF(root) && snapshot != [] && snapshot[0].entity in queue
    requires FindOwner(root, snapshot[0].entity).Some?
    ensures RehomeAllCurrent(root, snapshot, queue, pos)
         == RehomeAllCurrent(Rehome.Rehome(root, FindOwner(root, snapshot[0].entity).value, snapshot[0].entity, pos),
                             snapshot[1..], RemoveFirst(queue, snapshot[0].entity), pos)
  {
  }

  /** The pass as written re-homes A from [0], then B from [6]. */
  lemma AsWrittenUnfold(t: Node, t1: Node, pos: Entity -> Point)
    requires WF(t) && Lookup(t, [0]).Some? && t1 == Rehome.Rehome(t, [0], A, pos)
    requires Lookup(t1, [6]).Some?
    ensures RehomeAll(t, Snapshot, [A, B], pos).root == Rehome.Rehome(t1, [6], B, pos)
  {
    var rest: seq<Owned> := [Owned(B, [6])];
    var none: seq<Owned> := [];
    assert Snapshot[1..] == rest && rest[1..] == none;
    assert RemoveFirst([A, B], A) == [B];
    assert RemoveFirst([B], B) == [];
    AsWrittenStep(t, Snapshot, [A, B], pos);
    AsWrittenStep(t1, rest, [B], pos);
  }

  /** The corrected pass on the same update keeps A and B once each, every
      entity inside its node's region. */
  lemma CorrectedKeeps(t: Node)
    requires Shaped(t)
    ensures var r := RehomeAllCurrent(t, Snapshot, [A, B], Moved).root;
      Stored(r) == multiset{A, B} && Unique(r) && Contained(r, Moved)
  {
    ShapedFacts(t);
    var o1 := FindOwner(t, A).value;
    var t1 := CorrectedFirst(t, o1);
    var o2 := FindOwner(t1, B).value;
    RehomeExact(t1, o2, B, Moved);
    CorrectedUnfold(t, t1, o2);
  }

  /** The corrected pass's first step re-homes A exactly. */
  lemma CorrectedFirst(t: Node, o1: Path) returns (t1: Node)
    requires WF(t) && WithinCapacity(t) && Stored(t) == multiset{A, B} && Unique(t)
    requires ContainedBut(t, A, Moved) && t.region == Space
    requires FindOwner(t, A) == Some(o1)
    ensures t1 == Rehome.Rehome(t, o1, A, Moved)
    ensures WF(t1) && WithinCapacity(t1) && Stored(t1) == multiset{A, B} && Unique(t1)
    ensures ContainedBut(t1, B, Moved) && t1.region == Space
    ensures FindOwner(t1, B).Some?
  {
    MovedInside();
    RehomeExact(t, o1, A, Moved);
    RehomeKeeps(t, o1, A, Moved);
    t1 := Rehome.Rehome(t, o1, A, Moved);
    ContainedIsContainedBut(t1, B, Moved);
    assert B in Stored(t1);
  }

  /** Both moved positions lie in the root's region. */
  lemma MovedInside()
    ensures Contains(Space, Moved(A)) && Contains(Space, Moved(B))
  {
  }

  /** The corrected pass re-homes A, then B, from where each is stored. */
  lemma CorrectedUnfold(t: Node, t1: Node, o2: Path)
    requires WF(t) && FindOwner(t, A).Some? && t1 == Rehome.Rehome(t, FindOwner(t, A).value, A, Moved)
    requires FindOwner(t1, B) == Some(o2)
    ensures RehomeAllCurrent(t, Snapshot, [A, B], Moved).root == Rehome.Rehome(t1, o2, B, Moved)
  {
    var rest: seq<Owned> := [Owned(B, [6])];
    var none: seq<Owned> := [];
    assert Snapshot[1..] == rest && rest[1..] == none;
    assert RemoveFirst([A, B], A) == [B];
    assert RemoveFirst([B], B) == [];
    CorrectedStep(t, Snapshot, [A, B], Moved);
    CorrectedStep(t1, rest, [B], Moved);
  }

  // ----- an entity dropped and put back -----

  /** Positions in a second update from the same tree: A moves to
      (-6, -6, -6) as before, and B leaves child 6 for (5, 5, 5), in
      child 1. */
  function Far(e: Entity): Point
  {
    if e == A then Point(-6.0, -6.0, -6.0) else Point(5.0, 5.0, 5.0)
  }

  /** Child 6 of the root as it was before the update: childless, storing
      B. */
  ghost predicate SixAsBefore(c: Node)
  {
    WF(c) && c.children == [] && c.entities == [B] && c.region == Octant(Space, 6) && c.path == [6]
  }

  /** Child 6, full with B, splits when A arrives. B, no longer inside
      child 6, is re-added to it and ignored; A goes down to grandchild 6.
      Child 6 then stores A only. */
  lemma SixDrops(c: Node)
    requires SixAsBefore(c)
    ensures var d := Add(c, A, Far);
      && Stored(d) == multiset{A} && Contained(d, Far) && WithinCapacity(d)
      && d.region == Octant(Space, 6) && d.entities == [] && |d.children| == 8
  {
    var s1 := SixUnfold(c);
    SplitTakesA(s1);
  }

  /** Adding A to the empty split child 6 stores A in grandchild 6. */
  lemma SplitTakesA(s1: Node)
    requires WF(s1) && |s1.children| == 8 && s1.entities == [] && Stored(s1) == multiset{}
    requires s1.region == Octant(Space, 6) && s1.Depth() < MaxDepth && Contains(s1.region, Far(A))
    requires forall j | 0 <= j < 8 :: s1.children[j].entities == [] && s1.children[j].children == []
    ensures var d := Add(s1, A, Far);
      && Stored(d) == multiset{A} && Contained(d, Far) && WithinCapacity(d)
      && d.region == Octant(Space, 6) && d.entities == [] && |d.children| == 8
  {
    assert Contained(s1, Far) && WithinCapacity(s1) by {
      forall j | 0 <= j < 8 ensures Contained(s1.children[j], Far) && WithinCapacity(s1.children[j]) {
      }
    }
    AddStores(s1, A, Far);
    UniqueChild(s1, Far(A));
    assert OctantOf(s1.region, Far(A)) == 6;
    AddDelegates(s1, A, Far, 6);
  }

  /** The split: child 6 subdivides and empties, B is re-added and ignored,
      and what is left is adding A to the empty split node. */
  lemma SixUnfold(c: Node) returns (s1: Node)
    requires SixAsBefore(c)
    ensures WF(s1) && |s1.children| == 8 && s1.entities == [] && Stored(s1) == multiset{}
    ensures Add(c, A, Far) == Add(s1, A, Far)
    ensures s1.region == Octant(Space, 6) && s1.Depth() < MaxDepth && Contains(s1.region, Far(A))
    ensures forall j | 0 <= j < 8 :: s1.children[j].entities == [] && s1.children[j].children == []
  {
    SixthOctant();
    s1 := OverflowUnfold(c, A, Far);
    var es := c.entities;
    assert es[|es| - 1] == B && es[..|es| - 1] == [];
    assert !Intersects(s1, B, Far);
  }

  /** Re-homing A from [0] overflows child 6, whose redistribution drops B:
      afterwards the tree stores A only, in place, child 6 has split, and
      child 1 is as it was. */
  lemma DropStep(t: Node) returns (t1: Node)
    requires Shaped(t)
    ensures Lookup(t, [0]).Some? && t1 == Rehome.Rehome(t, [0], A, Far)
    ensures WF(t1) && WithinCapacity(t1) && t1.region == Space
    ensures Stored(t1) == multiset{A} && Contained(t1, Far)
    ensures Lookup(t1, [6]).Some? && Lookup(t1, [6]).value.region == Octant(Space, 6)
    ensures Lookup(t1, [1]).Some? && Lookup(t1, [1]).value.region == Octant(Space, 1)
  {
    t1 := Rehome.Rehome(t, [0], A, Far);
    assert Lookup(t, [0]).Some? && t1 == AddAt(RemoveAt(t, [0], A), [6], A, Far) by {
      FirstWalk(t, Far);
    }
    assert WithinCapacity(t1) by {
      RehomeKeeps(t, [0], A, Far);
    }
    var r := DropRemove(t);
    var c6 := Add(r.children[6], A, Far);
    assert Stored(c6) == multiset{A} && Contained(c6, Far) && c6.region == Octant(Space, 6) by {
      SixDrops(r.children[6]);
    }
    assert t1 == Reattach(r, 6, c6) by {
      SixthAt(r, c6);
    }
    var t2 := DropAdd(r, c6);
    TopLookup(t1, 1);
    TopLookup(t1, 6);
  }

  /** The path [i] names child `i`. */
  lemma TopLookup(n: Node, i: nat)
    requires i < |n.children|
    ensures Lookup(n, [i]) == Some(n.children[i])
  {
    assert [i][1..] == [];
    assert Lookup(n, [i]) == Lookup(n.children[i], []);
  }

  /** Taking A out of child 0 leaves B alone, in child 6, and every child
      but child 6 inside its region for the new positions. */
  lemma DropRemove(t: Node) returns (r: Node)
    requires Shaped(t)
    ensures r == RemoveAt(t, [0], A)
    ensures WF(r) && r.region == Space && r.entities == [] && |r.children| == 8
    ensures Stored(r) == multiset{B}
    ensures r.children[1] == Child(1) && r.children[6] == Child(6)
    ensures forall j | 0 <= j < 8 && j != 6 :: Contained(r.children[j], Far)
  {
    r := RemoveAt(t, [0], A);
    ShapedEntries(t);
    var c0 := Remove(Child(0), A);
    assert [0][1..] == [];
    assert Lookup(t, [0]) == Lookup(t.children[0], []);
    assert r == Reattach(t, 0, c0);
    assert c0.entities == [] && c0.children == [];
    RemoveAtStored(t, [0], A);
    forall j | 0 <= j < 8 && j != 6 ensures Contained(r.children[j], Far) {
      if j != 0 {
        assert r.children[j] == Child(j);
      }
    }
  }

  /** Putting the split child 6, which stores A only, back into that tree
      leaves it storing A only, every entity inside its node, with child 1
      unchanged. */
  lemma DropAdd(r: Node, c6: Node) returns (t1: Node)
    requires WF(r) && r.region == Space && r.entities == [] && |r.children| == 8
    requires Stored(r) == multiset{B}
    requires r.children[1] == Child(1) && r.children[6] == Child(6)
    requires forall j | 0 <= j < 8 && j != 6 :: Contained(r.children[j], Far)
    requires Stored(c6) == multiset{A} && Contained(c6, Far)
    ensures t1 == Reattach(r, 6, c6)
    ensures Stored(t1) == multiset{A} && Contained(t1, Far)
    ensures t1.children[6] == c6 && t1.children[1] == Child(1)
  {
    t1 := Reattach(r, 6, c6);
    assert Stored(t1) == multiset{A} by {
      StoredSeqUpdate(r.children, 6, c6);
      assert Stored(t1) == StoredSeq(r.children[6 := c6]);
      assert Stored(r) == StoredSeq(r.children);
      SixStores();
      Cancel(Stored(t1), Stored(r.children[6]), Stored(r), Stored(c6));
    }
    ReattachContained(r, 6, c6);
  }

  /** Before the update child 6 stores B. */
  lemma SixStores()
    ensures Stored(Child(6)) == multiset{B}
  {
    assert Child(6).entities == [B];
  }

  /** Swapping a B for an A. */
  lemma Cancel(x: multiset<Entity>, y: multiset<Entity>, z: multiset<Entity>, w: multiset<Entity>)
    requires x + y == z + w && y == multiset{B} && z == multiset{B} && w == multiset{A}
    ensures x == multiset{A}
  {
    forall e ensures x[e] == multiset{A}[e] {
      assert (x + y)[e] == (z + w)[e];
    }
  }

  /** Adding at [6] re-attaches child 6 of the root. */
  lemma SixthAt(r: Node, c6: Node)
    requires WF(r) && |r.children| == 8 && c6 == Add(r.children[6], A, Far)
    ensures Lookup(r, [6]) == Some(r.children[6])
    ensures AddAt(r, [6], A, Far) == Reattach(r, 6, c6)
  {
    assert [6][1..] == [];
    assert Lookup(r, [6]) == Lookup(r.children[6], []);
  }

  /** A node with no entities of its own whose children are all inside
      their regions, child `i` replaced by `c`, is inside. */
  lemma ReattachContained(r: Node, i: nat, c: Node)
    requires i < |r.children| && r.entities == [] && Contained(c, Far)
    requires forall j | 0 <= j < |r.children| && j != i :: Contained(r.children[j], Far)
    ensures Contained(Reattach(r, i, c), Far)
  {
    var t := Reattach(r, i, c);
    forall j | 0 <= j < |t.children| ensures Contained(t.children[j], Far) {
      if j != i {
        assert t.children[j] == r.children[j];
      }
    }
  }

  /** A point outside a node's region matches none of its children. */
  lemma ChildMatchInside(n: Node, p: Point)
    requires WF(n)
    ensures |ChildMatches(n, p)| > 0 ==> Contains(n.region, p)
  {
    var m := ChildMatches(n, p);
    if |m| > 0 {
      OctantInside(n.region, m[0], p);
    }
  }

  /** With B stored nowhere, the walk from B's entry [6] finds no child of
      child 6 containing B, climbs to the root, and targets child 1. */
  lemma RecoverTarget(t1: Node)
    requires WF(t1) && t1.region == Space
    requires Lookup(t1, [6]).Some? && Lookup(t1, [6]).value.region == Octant(Space, 6)
    ensures Target(t1, [6], 1, B, Far) == Some([1])
  {
    var owner: Path := [6];
    assert owner[..1] == owner && owner[..0] == [];
    var n6 := Lookup(t1, owner).value;
    LookupWF(t1, owner);
    SixthOctant();
    ChildMatchInside(n6, Far(B));
    assert CountChildrenIntersections(2, n6, Far(B)) == [];
    assert Target(t1, owner, 1, B, Far) == Target(t1, owner, 0, B, Far);
    UniqueChild(t1, Far(B));
    assert OctantOf(t1.region, Far(B)) == 1;
  }

  /** The walk from [6] puts B back, in child 1: the tree stores one more
      copy of B, every entity inside its node. */
  lemma RecoverStep(t1: Node)
    requires WF(t1) && WithinCapacity(t1) && t1.region == Space
    requires B !in Stored(t1) && Contained(t1, Far)
    requires Lookup(t1, [6]).Some? && Lookup(t1, [6]).value.region == Octant(Space, 6)
    requires Lookup(t1, [1]).Some? && Lookup(t1, [1]).value.region == Octant(Space, 1)
    ensures Stored(Rehome.Rehome(t1, [6], B, Far)) == Stored(t1) + multiset{B}
    ensures Contained(Rehome.Rehome(t1, [6], B, Far), Far)
  {
    RecoverWalk(t1);
    StoredHasNot(t1, [6], B);
    MoveStale(t1, [6], [1], B, Far);
  }

  /** So B's walk from [6] removes nothing and adds B at child 1, whose
      region contains it. */
  lemma RecoverWalk(t1: Node)
    requires WF(t1) && t1.region == Space
    requires Lookup(t1, [6]).Some? && Lookup(t1, [6]).value.region == Octant(Space, 6)
    requires Lookup(t1, [1]).Some? && Lookup(t1, [1]).value.region == Octant(Space, 1)
    ensures Intersects(Lookup(t1, [1]).value, B, Far)
    ensures Rehome.Rehome(t1, [6], B, Far) == AddAt(RemoveAt(t1, [6], B), [1], B, Far)
  {
    RecoverTarget(t1);
    assert Contains(Octant(Space, 1), Far(B));
  }

  /** An entity the tree does not store is in no node's own list. */
  lemma StoredHasNot(t1: Node, q: Path, e: Entity)
    requires Lookup(t1, q).Some? && e !in Stored(t1)
    ensures e !in Lookup(t1, q).value.entities
  {
    LookupStored(t1, q);
    assert e !in Stored(Lookup(t1, q).value);
  }

  /** One step of the corrected pass, for a queued entity stored nowhere
      whose entry names a node. */
  lemma FallbackStep(root: Node, snapshot: seq<Owned>, queue: seq<Entity>, pos: Entity -> Point)
    requires WF(root) && snapshot != [] && snapshot[0].entity in queue
    requires snapshot[0].entity !in Stored(root) && Lookup(root, snapshot[0].owner).Some?
    ensures RehomeAllCurrent(root, snapshot, queue, pos)
         == RehomeAllCurrent(Rehome.Rehome(root, snapshot[0].owner, snapshot[0].entity, pos), snapshot[1..],
                             RemoveFirst(queue, snapshot[0].entity), pos)
  {
  }

  /** Both passes, on the second update, re-home A from [0], which drops B,
      and then B from [6], which puts it back: they end in the same tree,
      storing A and B once each, every entity inside its node. */
  lemma DroppedRecovered(t: Node)
    requires Shaped(t)
    ensures RehomeAllCurrent(t, Snapshot, [A, B], Far).root == RehomeAll(t, Snapshot, [A, B], Far).root
    ensures var r := RehomeAll(t, Snapshot, [A, B], Far).root;
      Stored(r) == multiset{A, B} && Unique(r) && Contained(r, Far)
  {
    var t1 := DropStep(t);
    assert B !in Stored(t1);
    PassesMeet(t, t1);
    RecoverStep(t1);
    StoresAB(Rehome.Rehome(t1, [6], B, Far), Stored(t1));
  }

  /** On the second update both passes end in the tree that re-homing B
      from [6] gives after the first step. */
  lemma PassesMeet(t: Node, t1: Node)
    requires Shaped(t) && Lookup(t, [0]).Some? && t1 == Rehome.Rehome(t, [0], A, Far)
    requires B !in Stored(t1) && Lookup(t1, [6]).Some?
    ensures RehomeAll(t, Snapshot, [A, B], Far).root == Rehome.Rehome(t1, [6], B, Far)
    ensures RehomeAllCurrent(t, Snapshot, [A, B], Far).root == Rehome.Rehome(t1, [6], B, Far)
  {
    AsWrittenUnfold(t, t1, Far);
    FoundA(t);
    FallbackUnfold(t, t1);
  }

  /** A tree storing A and then B once more stores each once. */
  lemma StoresAB(r: Node, m: multiset<Entity>)
    requires m == multiset{A} && Stored(r) == m + multiset{B}
    ensures Stored(r) == multiset{A, B} && Unique(r)
  {
  }

  /** The corrected pass re-homes A from where it is stored, [0], and then,
      B being stored nowhere, B from its entry's node [6]. */
  lemma FallbackUnfold(t: Node, t1: Node)
    requires WF(t) && FindOwner(t, A) == Some([0]) && t1 == Rehome.Rehome(t, [0], A, Far)
    requires B !in Stored(t1) && Lookup(t1, [6]).Some?
    ensures RehomeAllCurrent(t, Snapshot, [A, B], Far).root == Rehome.Rehome(t1, [6], B, Far)
  {
    var rest: seq<Owned> := [Owned(B, [6])];
    var none: seq<Owned> := [];
    assert Snapshot[1..] == rest && rest[1..] == none;
    assert RemoveFirst([A, B], A) == [B];
    assert RemoveFirst([B], B) == [];
    CorrectedStep(t, Snapshot, [A, B], Far);
    FallbackStep(t1, rest, [B], Far);
  }

  /** The corrected pass finds A where the entry says, in child 0. */
  lemma FoundA(t: Node)
    requires Shaped(t)
    ensures FindOwner(t, A) == Some([0])
  {
    var c := t.children[0];
    assert c == Child(0);
    var here: Path := [];
    assert FindOwner(c, A) == Some(here);
    assert [0] + here == [0];
    assert FindFrom(t, A, 0) == Some([0]);
  }
}
