/** The octree node and its structural operations: subdivision, insertion,
    removal, the child-intersection count and the emptiness test. A node is an
    immutable value; an operation returns the updated node. */
module Octree {
  import opened Geometry

  /** How many entities a childless node above the bottom level may hold. */
  const EntitiesPerNode: nat := 1
  /** Depth of the bottom level, which never subdivides. */
  const MaxDepth: nat := 5

  /** A tracked object, compared by identity. Its position is not part of the
      value: operations read the current positions from a `Entity -> Point`
      parameter, as the source reads `entity.position` at call time. */
  datatype Entity = Entity(id: nat)

  /** A node is identified by the child indices leading to it from the root. */
  type Path = seq<nat>

  /** One entry of the all-entities cache: an entity and the node storing it. */
  datatype Owned = Owned(entity: Entity, owner: Path)

  datatype Node = Node(
    region: Region,
    path: Path,
    entities: seq<Entity>,
    children: seq<Node>,
    allEntities: seq<Owned>,
    leaves: seq<Path>,
    needAllEntitiesUpdate: bool,
    needLeavesUpdate: bool)
  {
    /** The root has depth 0 and a child one more than its parent. */
    function Depth(): nat { |path| }
  }

  /** A freshly constructed node: no entities, no children, an empty
      all-entities cache, a leaf list holding only itself, and clear flags. */
  function NewNode(region: Region, path: Path): Node
  {
    Node(region, path, [], [], [], [path], false, false)
  }

  function Intersects(n: Node, e: Entity, pos: Entity -> Point): bool
  {
    Contains(n.region, pos(e))
  }

  /** Structural well-formedness: a node has 0 or 8 children, only nodes above
      the bottom level have children, and child `i` covers octant `i` of its
      parent and is named by the parent's path extended with `i`. */
  ghost predicate WF(n: Node)
    decreases n
  {
    && (|n.children| == 0 || (|n.children| == 8 && n.Depth() < MaxDepth))
    && forall i | 0 <= i < |n.children| ::
         && n.children[i].region == Octant(n.region, i)
         && n.children[i].path == n.path + [i]
         && WF(n.children[i])
  }

  /** Every entity stored in the subtree lies in the region of its node. */
  ghost predicate Contained(n: Node, pos: Entity -> Point)
    decreases n
  {
    && (forall k | 0 <= k < |n.entities| :: Contains(n.region, pos(n.entities[k])))
    && forall i | 0 <= i < |n.children| :: Contained(n.children[i], pos)
  }

  /** A childless node above the bottom level holds at most `EntitiesPerNode`
      entities. */
  ghost predicate WithinCapacity(n: Node)
    decreases n
  {
    && (|n.children| == 0 && n.Depth() < MaxDepth ==> |n.entities| <= EntitiesPerNode)
    && forall i | 0 <= i < |n.children| :: WithinCapacity(n.children[i])
  }

  /** The entities stored anywhere in the subtree, with multiplicity. */
  function Stored(n: Node): multiset<Entity>
    decreases n
  {
    multiset(n.entities) + StoredSeq(n.children)
  }

  function StoredSeq(cs: seq<Node>): multiset<Entity>
    decreases cs
  {
    if cs == [] then multiset{} else Stored(cs[0]) + StoredSeq(cs[1..])
  }

  /** Replacing one child changes the stored multiset by exactly the
      difference between the old and the new child. */
  lemma {:induction false} StoredSeqUpdate(cs: seq<Node>, i: nat, c: Node)
    requires i < |cs|
    ensures StoredSeq(cs[i := c]) + Stored(cs[i]) == StoredSeq(cs) + Stored(c)
    decreases cs
  {
    var cs' := cs[i := c];
    if i == 0 {
      assert cs'[1..] == cs[1..];
    } else {
      StoredSeqUpdate(cs[1..], i - 1, c);
      assert cs'[1..] == cs[1..][i - 1 := c];
      assert cs'[0] == cs[0] && cs[1..][i - 1] == cs[i];
      assert StoredSeq(cs') == Stored(cs[0]) + StoredSeq(cs'[1..]);
      assert StoredSeq(cs) == Stored(cs[0]) + StoredSeq(cs[1..]);
      var a, b', x := Stored(cs[0]), StoredSeq(cs'[1..]), Stored(cs[i]);
      assert (a + b') + x == a + (b' + x);
    }
  }

  /** A child that gains `extra` makes the whole sequence gain `extra`. */
  lemma StoredSeqGrow(cs: seq<Node>, i: nat, c: Node, extra: multiset<Entity>)
    requires i < |cs| && Stored(c) == Stored(cs[i]) + extra
    ensures StoredSeq(cs[i := c]) == StoredSeq(cs) + extra
  {
    StoredSeqUpdate(cs, i, c);
    var a, b, old_ := StoredSeq(cs[i := c]), StoredSeq(cs), Stored(cs[i]);
    assert a + old_ == b + (old_ + extra);
    forall x
      ensures a[x] == (b + extra)[x]
    {
      assert (a + old_)[x] == (b + (old_ + extra))[x];
    }
  }

  /** A child that gains at most `extra` makes the sequence gain at most
      `extra`. */
  lemma StoredSeqBounded(cs: seq<Node>, i: nat, c: Node, extra: multiset<Entity>)
    requires i < |cs| && Stored(c) <= Stored(cs[i]) + extra
    ensures StoredSeq(cs[i := c]) <= StoredSeq(cs) + extra
  {
    StoredSeqUpdate(cs, i, c);
    var a, b, old_ := StoredSeq(cs[i := c]), StoredSeq(cs), Stored(cs[i]);
    forall x
      ensures a[x] <= (b + extra)[x]
    {
      assert (a + old_)[x] == (b + Stored(c))[x];
      assert Stored(c)[x] <= (old_ + extra)[x];
    }
  }

  /** Children that store nothing contribute nothing. */
  lemma {:induction false} StoredSeqNothing(cs: seq<Node>)
    requires forall i | 0 <= i < |cs| :: cs[i].entities == [] && cs[i].children == []
    ensures StoredSeq(cs) == multiset{}
    decreases cs
  {
    if cs != [] {
      StoredSeqNothing(cs[1..]);
    }
  }

  /** An entity stored in child `i` is stored in the whole sequence. */
  lemma {:induction false} StoredSeqMember(cs: seq<Node>, i: nat)
    requires i < |cs|
    ensures Stored(cs[i]) <= StoredSeq(cs)
    decreases cs
  {
    if i > 0 {
      StoredSeqMember(cs[1..], i - 1);
    }
  }

  /** Single ownership: no entity is stored twice in the subtree. */
  ghost predicate Unique(n: Node)
  {
    forall x :: Stored(n)[x] <= 1
  }

  /** Splits a node above the bottom level into eight fresh octant children;
      at the bottom level it changes nothing. It does not move entities. */
  function Subdivide(n: Node): (r: Node)
    ensures n.Depth() >= MaxDepth ==> r == n
    ensures n.Depth() < MaxDepth ==> |r.children| == 8 && r.needLeavesUpdate
    ensures r.region == n.region && r.path == n.path && r.entities == n.entities
    ensures WF(n) ==> WF(r)
  {
    if n.Depth() >= MaxDepth then n
    else
      n.(children := seq(8, i requires 0 <= i < 8 => NewNode(Octant(n.region, i), n.path + [i])),
         needLeavesUpdate := true)
  }

  /** Below the bottom level, subdivision yields exactly eight empty childless
      children one level deeper, each with half the parent's extents and centred
      half an extent away from the parent's centre, following the fixed sign
      pattern of its index. */
  lemma SubdivideOctants(n: Node)
    requires n.Depth() < MaxDepth
    ensures var r := Subdivide(n);
      && |r.children| == 8
      && forall i | 0 <= i < 8 ::
           && r.children[i].Depth() == n.Depth() + 1
           && r.children[i].region.halfwidth == n.region.halfwidth / 2.0
           && r.children[i].region.halfheight == n.region.halfheight / 2.0
           && r.children[i].region.halfdepth == n.region.halfdepth / 2.0
           && r.children[i].region.origin
                == Point(n.region.origin.x + XSign(i) * n.region.halfwidth / 2.0,
                         n.region.origin.y + YSign(i) * n.region.halfheight / 2.0,
                         n.region.origin.z + ZSign(i) * n.region.halfdepth / 2.0)
           && r.children[i].entities == [] && r.children[i].children == []
  {
  }

  /** All indices `j >= from` of children whose region contains `p`, ascending. */
  function MatchingFrom(cs: seq<Node>, p: Point, from: nat): (r: seq<nat>)
    requires from <= |cs|
    ensures forall k | 0 <= k < |r| :: from <= r[k] < |cs| && Contains(cs[r[k]].region, p)
    ensures forall j | from <= j < |cs| && Contains(cs[j].region, p) :: j in r
    ensures forall k, l | 0 <= k < l < |r| :: r[k] < r[l]
    decreases |cs| - from
  {
    if from == |cs| then []
    else
      var rest := MatchingFrom(cs, p, from + 1);
      if Contains(cs[from].region, p) then [from] + rest else rest
  }

  /** The indices of all children whose region contains `p`, ascending. */
  function ChildMatches(n: Node, p: Point): (r: seq<nat>)
    ensures forall k | 0 <= k < |r| :: r[k] < |n.children| && Contains(n.children[r[k]].region, p)
    ensures forall j | 0 <= j < |n.children| && Contains(n.children[j].region, p) :: j in r
    ensures forall k, l | 0 <= k < l < |r| :: r[k] < r[l]
  {
    MatchingFrom(n.children, p, 0)
  }

  /** The scan of `countChildrenIntersections` from index `j` on, with the
      indices found so far in `acc`; it stops as soon as `max` are found. */
  function CountFrom(max: nat, cs: seq<Node>, p: Point, j: nat, acc: seq<nat>): (r: seq<nat>)
    requires j <= |cs|
    requires 0 < max && |acc| < max
    ensures r == acc + MatchingFrom(cs, p, j)[..Min(max - |acc|, |MatchingFrom(cs, p, j)|)]
    decreases |cs| - j
  {
    if j == |cs| then
      assert MatchingFrom(cs, p, j) == [];
      acc
    else
      var rest := MatchingFrom(cs, p, j + 1);
      if Contains(cs[j].region, p) then
        var m := [j] + rest;
        assert MatchingFrom(cs, p, j) == m;
        var k := Min(max - |acc|, |m|);
        if |acc| + 1 == max then
          assert m[..k] == [j];
          acc + [j]
        else
          assert m[..k] == [j] + rest[..Min(max - |acc| - 1, |rest|)];
          assert acc + m[..k] == (acc + [j]) + rest[..Min(max - (|acc| + 1), |rest|)];
          CountFrom(max, cs, p, j + 1, acc + [j])
      else
        assert MatchingFrom(cs, p, j) == rest;
        CountFrom(max, cs, p, j + 1, acc)
  }

  function Min(a: int, b: int): int { if a < b then a else b }

  /** The first `max` children (in index order) whose region contains `p`. */
  function CountChildrenIntersections(max: nat, n: Node, p: Point): (r: seq<nat>)
    requires max > 0
    ensures r == ChildMatches(n, p)[..Min(max, |ChildMatches(n, p)|)]
  {
    var m := MatchingFrom(n.children, p, 0);
    assert ChildMatches(n, p) == m;
    assert [] + m[..Min(max, |m|)] == m[..Min(max, |m|)];
    CountFrom(max, n.children, p, 0, [])
  }

  /** Stores `e` at this node and marks its all-entities cache stale. */
  function AddHere(n: Node, e: Entity): Node
  {
    n.(entities := n.entities + [e], needAllEntitiesUpdate := true)
  }

  /** Puts a modified child back. A flag the child raised is raised on the
      parent too: this is how the root-ward flag walks of the source reach
      every ancestor of the node that changed. */
  function Reattach(n: Node, i: nat, c: Node): (r: Node)
    requires i < |n.children|
    ensures WF(n) && WF(c) && c.region == n.children[i].region && c.path == n.children[i].path
            ==> WF(r)
  {
    n.(children := n.children[i := c],
       needAllEntitiesUpdate := n.needAllEntitiesUpdate || c.needAllEntitiesUpdate,
       needLeavesUpdate := n.needLeavesUpdate || c.needLeavesUpdate)
  }

  /** Inserts `e` into the subtree of `n`. Outside the region nothing happens.
      At the bottom level, or in a childless node with room, `e` is stored
      here. A full childless node subdivides, re-inserts its entities (last
      first) and retries. A node with children passes `e` to the one child
      containing it, and keeps it when several children do. */
  function Add(n: Node, e: Entity, pos: Entity -> Point): (r: Node)
    requires WF(n)
    ensures r.region == n.region && r.path == n.path
    ensures WF(r)
    ensures |n.children| == 8 ==> |r.children| == 8
    ensures !Intersects(n, e, pos) ==> r == n
    ensures Intersects(n, e, pos) ==> r.needAllEntitiesUpdate
    ensures r.allEntities == n.allEntities && r.leaves == n.leaves
    decreases MaxDepth - n.Depth(), if |n.children| == 0 then 1 else 0, 0, 0
  {
    if !Intersects(n, e, pos) then n
    else if n.Depth() >= MaxDepth then AddHere(n, e)
    else if |n.children| == 0 then
      if |n.entities| < EntitiesPerNode then AddHere(n, e)
      else
        var s := Subdivide(n).(entities := []);
        Add(Redistribute(s, n.entities, pos), e, pos)
    else
      var m := CountChildrenIntersections(2, n, pos(e));
      if |m| == 1 then
        var i := m[0];
        assert i < |n.children|;
        Reattach(n, i, Add(n.children[i], e, pos))
      else AddHere(n, e)
  }

  /** Re-inserts the entities a node held before it subdivided, popping them
      from the back of the list: each is removed from this node, then added. */
  function Redistribute(n: Node, es: seq<Entity>, pos: Entity -> Point): (r: Node)
    requires WF(n) && |n.children| == 8
    ensures r.region == n.region && r.path == n.path
    ensures WF(r) && |r.children| == 8
    ensures r.allEntities == n.allEntities && r.leaves == n.leaves
    decreases MaxDepth - n.Depth(), 0, 1, |es|
  {
    if es == [] then n
    else
      var x := es[|es| - 1];
      Redistribute(Add(Remove(n, x), x, pos), es[..|es| - 1], pos)
  }

  /** The index of the first occurrence of `x` in `s`, or -1. */
  function IndexOf<T(==)>(s: seq<T>, x: T): (k: int)
    ensures -1 <= k < |s|
    ensures k == -1 <==> x !in s
    ensures k >= 0 ==> s[k] == x && x !in s[..k]
  {
    if s == [] then -1
    else if s[0] == x then 0
    else
      var k := IndexOf(s[1..], x);
      if k < 0 then -1
      else
        assert s[..k + 1] == [s[0]] + s[1..][..k];
        k + 1
  }

  /** `s` without the first occurrence of `x`. */
  function RemoveFirst<T(==)>(s: seq<T>, x: T): (r: seq<T>)
    ensures x !in s ==> r == s
    ensures x in s ==> r == s[..IndexOf(s, x)] + s[IndexOf(s, x) + 1..]
  {
    if s == [] then []
    else if s[0] == x then s[1..]
    else
      var t := RemoveFirst(s[1..], x);
      assert s == [s[0]] + s[1..];
      if x in s[1..] then
        var k := IndexOf(s[1..], x);
        assert IndexOf(s, x) == k + 1;
        assert s[..k + 1] == [s[0]] + s[1..][..k];
        assert s[k + 2..] == s[1..][k + 1..];
        [s[0]] + t
      else [s[0]] + t
  }

  /** Removing the first occurrence takes exactly one copy of `x` away. */
  lemma {:induction false} RemoveFirstCount<T>(s: seq<T>, x: T)
    ensures multiset(RemoveFirst(s, x)) == multiset(s) - multiset{x}
  {
    if s != [] {
      assert s == [s[0]] + s[1..];
      if s[0] != x {
        RemoveFirstCount(s[1..], x);
      }
    }
  }

  /** Removes the first occurrence of `e` from this node's own entities (not
      from any child) and marks the all-entities cache stale, found or not. */
  function Remove(n: Node, e: Entity): (r: Node)
    ensures multiset(r.entities) == multiset(n.entities) - multiset{e}
    ensures e !in n.entities ==> r.entities == n.entities
    ensures e in n.entities ==>
      r.entities == n.entities[..IndexOf(n.entities, e)] + n.entities[IndexOf(n.entities, e) + 1..]
    ensures r.children == n.children && r.region == n.region && r.path == n.path
    ensures r.needAllEntitiesUpdate
  {
    RemoveFirstCount(n.entities, e);
    n.(entities := RemoveFirst(n.entities, e), needAllEntitiesUpdate := true)
  }

  /** True when no entity is stored anywhere in the subtree. */
  function Empty(n: Node): (r: bool)
    ensures r <==> Stored(n) == multiset{}
    decreases n
  {
    if |n.entities| > 0 then false else AllEmpty(n.children)
  }

  function AllEmpty(cs: seq<Node>): (r: bool)
    ensures r <==> StoredSeq(cs) == multiset{}
    decreases cs
  {
    if cs == [] then true else Empty(cs[0]) && AllEmpty(cs[1..])
  }
}
