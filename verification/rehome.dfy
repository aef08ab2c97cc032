/** The re-homing pass of the update. For each queued entity the walk starts
    at the node holding it and climbs towards the root; at the first node
    exactly one of whose children contains the entity's position it moves the
    entity into that child (doing nothing when that child already holds it),
    and at the root it re-adds the entity when two or more children contain
    it. */
module Rehome {
  import opened Geometry
  import opened Octree
  import opened Caches
  import opened AddProps
  import opened CacheUpkeep
  import opened Paths
  import opened Pending

  /** The tree together with its pending queue. */
  datatype Pass = Pass(root: Node, queue: seq<Entity>)

  /** Where the walk from the ancestor `owner[..k]` of the node `owner`, the
      node `e` is taken to be in, puts `e`: the one child containing it of
      the first node on the way up that has exactly one such child, or the
      root when the walk reaches it and some child of the root contains `e`.
      `None` when the walk leaves `e` alone: that one child is `owner`
      itself, or no child of the root contains `e`. */
  function Target(root: Node, owner: Path, k: nat, e: Entity, pos: Entity -> Point): Option<Path>
    requires WF(root) && Lookup(root, owner).Some? && k <= |owner|
    decreases k
  {
    LookupPrefix(root, owner, k);
    var x := Lookup(root, owner[..k]).value;
    var m := CountChildrenIntersections(2, x, pos(e));
    if |m| == 1 then
      if owner[..k] + [m[0]] == owner then None else Some(owner[..k] + [m[0]])
    else if k == 0 && |m| > 0 then Some([])
    else if k == 0 then None
    else Target(root, owner, k - 1, e, pos)
  }

  /** The walk from `owner[..k]`: `e` is removed from `owner` and added at
      the target, if there is one. */
  function Walk(root: Node, owner: Path, k: nat, e: Entity, pos: Entity -> Point): (r: Node)
    requires WF(root) && Lookup(root, owner).Some? && k <= |owner|
    ensures WF(r) && r.region == root.region && r.path == root.path
  {
    match Target(root, owner, k, e, pos)
    case None => root
    case Some(t) => AddAt(RemoveAt(root, owner, e), t, e, pos)
  }

  /** Re-homes `e`, taken to be stored at the node `owner`. */
  function Rehome(root: Node, owner: Path, e: Entity, pos: Entity -> Point): (r: Node)
    requires WF(root) && Lookup(root, owner).Some?
    ensures WF(r) && r.region == root.region && r.path == root.path
  {
    Walk(root, owner, |owner|, e, pos)
  }

  /** The walk either leaves the tree alone, or removes `e` from `owner` and
      adds it at a node whose region contains it. It leaves the tree alone
      only when `e` is outside the root's region or inside `owner`'s. */
  lemma WalkCases(root: Node, owner: Path, k: nat, e: Entity, pos: Entity -> Point)
    returns (moved: bool, target: Path)
    requires WF(root) && Lookup(root, owner).Some? && k <= |owner|
    ensures moved ==>
      && Lookup(root, target).Some?
      && Intersects(Lookup(root, target).value, e, pos)
      && Walk(root, owner, k, e, pos) == AddAt(RemoveAt(root, owner, e), target, e, pos)
    ensures !moved ==> Walk(root, owner, k, e, pos) == root
    ensures !moved && Contains(root.region, pos(e)) ==> Intersects(Lookup(root, owner).value, e, pos)
  {
    var t := Target(root, owner, k, e, pos);
    TargetCases(root, owner, k, e, pos);
    moved := t.Some?;
    target := if moved then t.value else [];
  }

  /** Where the walk lands: a target is a node containing `e`; without
      one, `e` lies outside the root's region or inside `owner`'s. */
  ghost predicate Lands(root: Node, owner: Path, e: Entity, pos: Entity -> Point, t: Option<Path>)
    requires WF(root) && Lookup(root, owner).Some?
  {
    && (t.Some? ==> Lookup(root, t.value).Some? && Intersects(Lookup(root, t.value).value, e, pos))
    && (t.None? && Contains(root.region, pos(e)) ==> Intersects(Lookup(root, owner).value, e, pos))
  }

  lemma {:induction false} TargetCases(root: Node, owner: Path, k: nat, e: Entity, pos: Entity -> Point)
    requires WF(root) && Lookup(root, owner).Some? && k <= |owner|
    ensures Lands(root, owner, e, pos, Target(root, owner, k, e, pos))
    decreases k
  {
    LookupPrefix(root, owner, k);
    var m := CountChildrenIntersections(2, Lookup(root, owner[..k]).value, pos(e));
    if |m| == 1 {
      TargetHit(root, owner, k, e, pos);
    } else if k == 0 {
      TargetAtRoot(root, owner, e, pos);
    } else {
      TargetCases(root, owner, k - 1, e, pos);
      assert Target(root, owner, k, e, pos) == Target(root, owner, k - 1, e, pos);
    }
  }

  /** Exactly one child of `owner[..k]` contains `e`: that child is the
      target, unless it is `owner` itself. */
  lemma TargetHit(root: Node, owner: Path, k: nat, e: Entity, pos: Entity -> Point)
    requires WF(root) && Lookup(root, owner).Some? && k <= |owner|
    requires Lookup(root, owner[..k]).Some?
    requires |CountChildrenIntersections(2, Lookup(root, owner[..k]).value, pos(e))| == 1
    ensures var t := Target(root, owner, k, e, pos);
      && (t.Some? ==> Lookup(root, t.value).Some? && Intersects(Lookup(root, t.value).value, e, pos))
      && (t.None? ==> Intersects(Lookup(root, owner).value, e, pos))
    ensures Lands(root, owner, e, pos, Target(root, owner, k, e, pos))
  {
    var x := Lookup(root, owner[..k]).value;
    var m := CountChildrenIntersections(2, x, pos(e));
    assert m[0] == ChildMatches(x, pos(e))[0];
    LookupChild(root, owner[..k], m[0]);
  }

  /** At the root, with no single child containing `e`: the root is the
      target when some child contains `e`, and otherwise `e` lies outside
      the root's region or the root is `owner` itself. */
  lemma TargetAtRoot(root: Node, owner: Path, e: Entity, pos: Entity -> Point)
    requires WF(root) && Lookup(root, owner).Some?
    requires |CountChildrenIntersections(2, root, pos(e))| != 1
    ensures var t := Target(root, owner, 0, e, pos);
      && (t.Some? ==> t.value == [] && Intersects(root, e, pos))
      && (t.None? && Contains(root.region, pos(e)) ==> owner == [])
    ensures Lands(root, owner, e, pos, Target(root, owner, 0, e, pos))
  {
    var m := CountChildrenIntersections(2, root, pos(e));
    assert owner[..0] == [];
    if |m| > 0 {
      assert m[0] == ChildMatches(root, pos(e))[0];
      OctantInside(root.region, m[0], pos(e));
    } else if Contains(root.region, pos(e)) {
      if |root.children| == 8 {
        ChildrenCoverParent(root, pos(e));
        assert false;
      }
    }
  }

  // ----- one entity -----

  /** Re-homing keeps the tree well formed, within capacity and its caches'
      invariants. It stores at most one more copy of `e`, and none when `e`
      really is at `owner`. */
  lemma RehomeKeeps(root: Node, owner: Path, e: Entity, pos: Entity -> Point)
    requires WF(root) && WithinCapacity(root) && Lookup(root, owner).Some?
    ensures var r := Rehome(root, owner, e, pos);
      && WithinCapacity(r)
      && (CacheOk(root) && LeavesOk(root) ==> CacheOk(r) && LeavesOk(r))
      && Stored(r) <= Stored(root) + multiset{e}
      && (e in Lookup(root, owner).value.entities ==> Stored(r) <= Stored(root))
  {
    assert owner[..|owner|] == owner;
    var moved, target := WalkCases(root, owner, |owner|, e, pos);
    if moved {
      MoveKeeps(root, owner, target, e, pos);
    }
  }

  /** When only `e` may be out of place, `e` is stored once, at `owner`, and
      lies inside the root's region, re-homing keeps exactly the same
      entities and puts every entity inside its node's region. */
  lemma RehomeExact(root: Node, owner: Path, e: Entity, pos: Entity -> Point)
    requires WF(root) && WithinCapacity(root) && Lookup(root, owner).Some?
    requires e in Lookup(root, owner).value.entities && Unique(root)
    requires ContainedBut(root, e, pos) && Contains(root.region, pos(e))
    ensures Stored(Rehome(root, owner, e, pos)) == Stored(root)
    ensures Contained(Rehome(root, owner, e, pos), pos)
  {
    assert owner[..|owner|] == owner;
    var moved, target := WalkCases(root, owner, |owner|, e, pos);
    if moved {
      MoveExact(root, owner, target, e, pos);
    } else {
      StayContained(root, owner, e, pos);
    }
  }

  /** Removing `e` at `owner` and adding it at `target`. */
  lemma MoveKeeps(root: Node, owner: Path, target: Path, e: Entity, pos: Entity -> Point)
    requires WF(root) && WithinCapacity(root) && Lookup(root, owner).Some? && Lookup(root, target).Some?
    ensures var r := AddAt(RemoveAt(root, owner, e), target, e, pos);
      && WithinCapacity(r)
      && (CacheOk(root) && LeavesOk(root) ==> CacheOk(r) && LeavesOk(r))
      && Stored(r) <= Stored(root) + multiset{e}
      && (e in Lookup(root, owner).value.entities ==> Stored(r) <= Stored(root))
  {
    var t0 := RemoveAt(root, owner, e);
    MoveKeepsShape(root, owner, target, e, pos);
    RemoveAtInvariants(root, owner, e, pos);
    AddAtSpec(t0, target, e, pos);
    MoveBound(root, owner, e, AddAt(t0, target, e, pos));
  }

  /** A tree holding at most one `e` more than the removal left holds at most
      one `e` more than before it, and none more when the removal took one. */
  lemma MoveBound(root: Node, owner: Path, e: Entity, r: Node)
    requires WF(root) && Lookup(root, owner).Some?
    requires Stored(r) <= Stored(RemoveAt(root, owner, e)) + multiset{e}
    ensures Stored(r) <= Stored(root) + multiset{e}
    ensures e in Lookup(root, owner).value.entities ==> Stored(r) <= Stored(root)
  {
    var a, t := Stored(root), Stored(RemoveAt(root, owner, e));
    RemoveAtStored(root, owner, e);
    if e in Lookup(root, owner).value.entities {
      LookupStored(root, owner);
      assert e in a && t == a - multiset{e};
    } else {
      assert t == a;
    }
    RemoveAddBound(Stored(r), t, a, e);
  }

  lemma MoveKeepsShape(root: Node, owner: Path, target: Path, e: Entity, pos: Entity -> Point)
    requires WF(root) && WithinCapacity(root) && Lookup(root, owner).Some? && Lookup(root, target).Some?
    ensures Lookup(RemoveAt(root, owner, e), target).Some?
    ensures CacheOk(root) && LeavesOk(root) ==>
      var r := AddAt(RemoveAt(root, owner, e), target, e, pos);
      CacheOk(r) && LeavesOk(r)
  {
    var t0 := RemoveAt(root, owner, e);
    RemoveAtShape(root, owner, e);
    SameShapeLookup(t0, root, target);
    RemoveAtInvariants(root, owner, e, pos);
    if CacheOk(root) && LeavesOk(root) {
      RemoveAtCaches(root, owner, e);
      AddAtSpec(t0, target, e, pos);
    }
  }

  /** Removing then adding `e` gains at most one `e`, and none when the
      removal took one away. */
  lemma RemoveAddBound(r: multiset<Entity>, t: multiset<Entity>, a: multiset<Entity>, e: Entity)
    requires r <= t + multiset{e}
    requires t == a || (e in a && t == a - multiset{e})
    ensures r <= a + multiset{e}
    ensures t != a ==> r <= a
  {
    if t != a {
      AddBack(a, e);
    }
  }

  /** The move stores `e` exactly once again, inside a region containing it. */
  lemma MoveExact(root: Node, owner: Path, target: Path, e: Entity, pos: Entity -> Point)
    requires WF(root) && WithinCapacity(root) && Lookup(root, owner).Some? && Lookup(root, target).Some?
    requires e in Lookup(root, owner).value.entities && Unique(root) && ContainedBut(root, e, pos)
    requires Intersects(Lookup(root, target).value, e, pos)
    ensures Stored(AddAt(RemoveAt(root, owner, e), target, e, pos)) == Stored(root)
    ensures Contained(AddAt(RemoveAt(root, owner, e), target, e, pos), pos)
  {
    var t0 := RemoveAt(root, owner, e);
    RemovedContained(root, owner, e, pos);
    RemoveAtShape(root, owner, e);
    SameShapeLookup(t0, root, target);
    RemoveAtInvariants(root, owner, e, pos);
    AddAtSpec(t0, target, e, pos);
    LookupStored(root, owner);
    AddBack(Stored(root), e);
  }

  /** When `owner` no longer holds `e` (the owner recorded for it is out of
      date) the removal takes nothing away, and the move stores one more copy
      of `e`, inside the target's region. */
  lemma MoveStale(root: Node, owner: Path, target: Path, e: Entity, pos: Entity -> Point)
    requires WF(root) && WithinCapacity(root) && Contained(root, pos)
    requires Lookup(root, owner).Some? && Lookup(root, target).Some?
    requires e !in Lookup(root, owner).value.entities
    requires Intersects(Lookup(root, target).value, e, pos)
    ensures Stored(AddAt(RemoveAt(root, owner, e), target, e, pos)) == Stored(root) + multiset{e}
    ensures Contained(AddAt(RemoveAt(root, owner, e), target, e, pos), pos)
  {
    var t0 := RemoveAt(root, owner, e);
    RemoveAtStored(root, owner, e);
    RemoveAtInvariants(root, owner, e, pos);
    RemoveAtShape(root, owner, e);
    SameShapeLookup(t0, root, target);
    AddAtSpec(t0, target, e, pos);
  }

  /** Taking the only copy of `e` out of the tree leaves everything else
      inside its node. */
  lemma RemovedContained(root: Node, owner: Path, e: Entity, pos: Entity -> Point)
    requires WF(root) && Lookup(root, owner).Some?
    requires e in Lookup(root, owner).value.entities && Unique(root) && ContainedBut(root, e, pos)
    ensures Stored(RemoveAt(root, owner, e)) == Stored(root) - multiset{e}
    ensures e !in Stored(RemoveAt(root, owner, e))
    ensures Contained(RemoveAt(root, owner, e), pos)
  {
    var t0 := RemoveAt(root, owner, e);
    RemoveAtStored(root, owner, e);
    assert Stored(root)[e] <= 1;
    RemoveAtInvariants(root, owner, e, pos);
    ContainedButAbsent(t0, e, pos);
  }

  /** When `e` already lies in its node, everything does. */
  lemma StayContained(root: Node, owner: Path, e: Entity, pos: Entity -> Point)
    requires WF(root) && Lookup(root, owner).Some?
    requires e in Lookup(root, owner).value.entities && Unique(root) && ContainedBut(root, e, pos)
    requires Intersects(Lookup(root, owner).value, e, pos)
    ensures Contained(root, pos)
  {
    var x := Lookup(root, owner).value;
    var t0 := RemoveAt(root, owner, e);
    assert t0 == ReplaceAt(root, owner, Remove(x, e));
    RemovedContained(root, owner, e, pos);
    ReplaceAtFound(root, owner, Remove(x, e));
    LookupInvariants(t0, owner, pos);
    RestoreContained(x, e, pos);
    ReplaceAtSwap(root, owner, Remove(x, e), x, e, pos);
    ReplaceAtSelf(root, owner);
    SameContentInvariants(ReplaceAt(root, owner, x), root, pos);
  }

  lemma AddBack(a: multiset<Entity>, e: Entity)
    requires e in a
    ensures (a - multiset{e}) + multiset{e} == a
  {
    forall y ensures ((a - multiset{e}) + multiset{e})[y] == a[y] {
    }
  }

  // ----- where an entity is now -----

  /** The node currently storing `e`, searched in the order of the
      all-entities list: the children in order, then the node itself. */
  function FindOwner(n: Node, e: Entity): (r: Option<Path>)
    ensures r.Some? ==> Lookup(n, r.value).Some? && e in Lookup(n, r.value).value.entities
    ensures r.None? <==> e !in Stored(n)
    decreases n, |n.children| + 1
  {
    match FindFrom(n, e, 0)
    case Some(q) =>
      LookupStored(n, q);
      Some(q)
    case None =>
      if e in n.entities then Some([])
      else
        StoredSeqAbsent(n.children, e);
        None
  }

  /** The search among the children from index `j` on. */
  function FindFrom(n: Node, e: Entity, j: nat): (r: Option<Path>)
    requires j <= |n.children|
    ensures r.Some? ==> Lookup(n, r.value).Some? && e in Lookup(n, r.value).value.entities
    ensures r.None? ==> forall i | j <= i < |n.children| :: e !in Stored(n.children[i])
    decreases n, |n.children| - j
  {
    if j == |n.children| then None
    else
      match FindOwner(n.children[j], e)
      case Some(q) =>
        assert ([j] + q)[1..] == q;
        Some([j] + q)
      case None => FindFrom(n, e, j + 1)
  }

  lemma {:induction false} StoredSeqAbsent(cs: seq<Node>, e: Entity)
    requires forall i | 0 <= i < |cs| :: e !in Stored(cs[i])
    ensures e !in StoredSeq(cs)
    decreases |cs|
  {
    if cs != [] {
      StoredSeqAbsent(cs[1..], e);
    }
  }

  /** The entry `en` of the entry list of `n` names, by its path, a node of
      the subtree that stores `en.entity`. */
  ghost predicate NamesHolder(n: Node, en: Owned)
  {
    && |n.path| <= |en.owner| && en.owner[..|n.path|] == n.path
    && var x := Lookup(n, en.owner[|n.path|..]);
       x.Some? && en.entity in x.value.entities
  }

  /** Every entry of the reference entry list names a node that stores its
      entity. */
  lemma {:induction false} EntriesNameHolders(n: Node)
    requires WF(n)
    ensures forall en | en in AllEntries(n) :: NamesHolder(n, en)
    decreases n, 1
  {
    EntriesNameHoldersFrom(n, 0);
    assert n.children[0..] == n.children;
    forall en | en in OwnPairs(n.entities, n.path) ensures NamesHolder(n, en) {
      var k :| 0 <= k < |n.entities| && OwnPairs(n.entities, n.path)[k] == en;
      assert en.owner[|n.path|..] == [];
    }
  }

  lemma {:induction false} EntriesNameHoldersFrom(n: Node, j: nat)
    requires WF(n) && j <= |n.children|
    ensures forall en | en in AllEntriesSeq(n.children[j..]) :: NamesHolder(n, en)
    decreases n, 0, |n.children| - j
  {
    if j < |n.children| {
      assert n.children[j..][1..] == n.children[j + 1..];
      EntriesNameHolders(n.children[j]);
      EntriesNameHoldersFrom(n, j + 1);
      forall en | en in AllEntries(n.children[j]) ensures NamesHolder(n, en) {
        ChildHolder(n, j, en);
      }
    }
  }

  /** An entry naming a node below child `j` names it from `n` too. */
  lemma ChildHolder(n: Node, j: nat, en: Owned)
    requires WF(n) && j < |n.children| && NamesHolder(n.children[j], en)
    ensures NamesHolder(n, en)
  {
    var c := n.children[j];
    var q := en.owner[|n.path|..];
    assert c.path == n.path + [j];
    assert en.owner[..|n.path|] == c.path[..|n.path|] == n.path;
    assert q[0] == c.path[|n.path|] == j;
    assert q[1..] == en.owner[|c.path|..];
  }

  // ----- the whole pass -----

  /** The pass as the source runs it: each entry of the snapshot taken of
      the all-entities list whose entity is queued is re-homed starting from
      the node the snapshot names, and its entity taken off the queue. */
  function RehomeAll(root: Node, snapshot: seq<Owned>, queue: seq<Entity>, pos: Entity -> Point): (r: Pass)
    requires WF(root)
    ensures WF(r.root) && r.root.region == root.region && r.root.path == root.path
    decreases |snapshot|
  {
    if snapshot == [] then Pass(root, queue)
    else
      var en := snapshot[0];
      if en.entity !in queue then RehomeAll(root, snapshot[1..], queue, pos)
      else
        var root' := if Lookup(root, en.owner).Some? then Rehome(root, en.owner, en.entity, pos) else root;
        RehomeAll(root', snapshot[1..], RemoveFirst(queue, en.entity), pos)
  }

  /** One step of the corrected pass: re-homes the entry's entity from the
      node that stores it now. When no node stores it any more (an earlier
      overflow in the pass dropped it) the walk starts, as in the source,
      from the node the entry names, and so puts the entity back. */
  function RehomeCurrent(root: Node, en: Owned, pos: Entity -> Point): (r: Node)
    requires WF(root)
    ensures WF(r) && r.region == root.region && r.path == root.path
  {
    match FindOwner(root, en.entity)
    case Some(o) => Rehome(root, o, en.entity, pos)
    case None => if Lookup(root, en.owner).Some? then Rehome(root, en.owner, en.entity, pos) else root
  }

  /** The same pass, re-homing each entity from the node that stores it
      when its turn comes. */
  function RehomeAllCurrent(root: Node, snapshot: seq<Owned>, queue: seq<Entity>, pos: Entity -> Point): (r: Pass)
    requires WF(root)
    ensures WF(r.root) && r.root.region == root.region && r.root.path == root.path
    decreases |snapshot|
  {
    if snapshot == [] then Pass(root, queue)
    else
      var e := snapshot[0].entity;
      if e !in queue then RehomeAllCurrent(root, snapshot[1..], queue, pos)
      else RehomeAllCurrent(RehomeCurrent(root, snapshot[0], pos), snapshot[1..], RemoveFirst(queue, e), pos)
  }

  /** Both passes take exactly the queued entities that have an entry in the
      snapshot off the queue, and keep the rest queued. */
  lemma {:induction false} RehomeAllQueue(root: Node, snapshot: seq<Owned>, queue: seq<Entity>, pos: Entity -> Point)
    requires WF(root) && NoDup(queue)
    ensures var r := RehomeAll(root, snapshot, queue, pos);
      NoDup(r.queue) && forall x :: x in r.queue <==> x in queue && x !in EntitiesOf(snapshot)
    ensures var r := RehomeAllCurrent(root, snapshot, queue, pos);
      NoDup(r.queue) && forall x :: x in r.queue <==> x in queue && x !in EntitiesOf(snapshot)
    decreases |snapshot|
  {
    if snapshot != [] {
      var e := snapshot[0].entity;
      assert EntitiesOf(snapshot) == multiset{e} + EntitiesOf(snapshot[1..]);
      if e !in queue {
        RehomeAllQueue(root, snapshot[1..], queue, pos);
      } else {
        RemoveFirstNoDup(queue, e);
        var q' := RemoveFirst(queue, e);
        var a := if Lookup(root, snapshot[0].owner).Some? then Rehome(root, snapshot[0].owner, e, pos) else root;
        var b := RehomeCurrent(root, snapshot[0], pos);
        RehomeAllQueue(a, snapshot[1..], q', pos);
        RehomeAllQueue(b, snapshot[1..], q', pos);
      }
    }
  }

  /** `after` holds no entity more often than `before`, except that a
      queued entity that `before` lacks may be held once. */
  ghost predicate NoNewCopies(before: multiset<Entity>, after: multiset<Entity>, queue: seq<Entity>)
  {
    forall x :: after[x] <= before[x] || (x in queue && before[x] == 0 && after[x] == 1)
  }

  /** One step of the corrected pass keeps the tree within capacity and its
      caches' invariants; it adds no copy of an entity still stored, and
      puts a dropped one back at most once. */
  lemma RehomeCurrentKeeps(root: Node, en: Owned, pos: Entity -> Point)
    requires WF(root) && WithinCapacity(root)
    ensures var r := RehomeCurrent(root, en, pos);
      && WithinCapacity(r)
      && (CacheOk(root) && LeavesOk(root) ==> CacheOk(r) && LeavesOk(r))
      && NoNewCopies(Stored(root), Stored(r), [en.entity])
  {
    var e := en.entity;
    match FindOwner(root, e)
    case Some(o) =>
      RehomeKeeps(root, o, e, pos);
    case None =>
      if Lookup(root, en.owner).Some? {
        RehomeKeeps(root, en.owner, e, pos);
        var r := Rehome(root, en.owner, e, pos);
        forall x ensures Stored(r)[x] <= Stored(root)[x] || (x in [e] && Stored(root)[x] == 0 && Stored(r)[x] == 1) {
          assert Stored(r)[x] <= (Stored(root) + multiset{e})[x];
        }
      }
  }

  lemma NoNewCopiesTrans(a: multiset<Entity>, b: multiset<Entity>, c: multiset<Entity>, e: Entity, queue: seq<Entity>)
    requires e in queue && NoNewCopies(a, b, [e]) && NoNewCopies(b, c, RemoveFirst(queue, e))
    ensures NoNewCopies(a, c, queue)
  {
    RemoveFirstSubset(queue, e);
    forall x ensures c[x] <= a[x] || (x in queue && a[x] == 0 && c[x] == 1) {
    }
  }

  /** The corrected pass keeps the tree within capacity and its caches'
      invariants. It never stores an entity more often than before, except
      that a queued entity no node stores any more comes back at most once;
      so an entity stored at most once stays so. */
  lemma {:induction false} RehomeAllCurrentKeeps(root: Node, snapshot: seq<Owned>, queue: seq<Entity>, pos: Entity -> Point)
    requires WF(root) && WithinCapacity(root)
    ensures var r := RehomeAllCurrent(root, snapshot, queue, pos).root;
      && WithinCapacity(r)
      && (CacheOk(root) && LeavesOk(root) ==> CacheOk(r) && LeavesOk(r))
      && NoNewCopies(Stored(root), Stored(r), queue)
      && (Unique(root) ==> Unique(r))
    decreases |snapshot|
  {
    var r := RehomeAllCurrent(root, snapshot, queue, pos).root;
    if snapshot == [] {
      assert NoNewCopies(Stored(root), Stored(r), queue);
    } else {
      var e := snapshot[0].entity;
      if e !in queue {
        RehomeAllCurrentKeeps(root, snapshot[1..], queue, pos);
      } else {
        var root' := RehomeCurrent(root, snapshot[0], pos);
        RehomeCurrentKeeps(root, snapshot[0], pos);
        RehomeAllCurrentKeeps(root', snapshot[1..], RemoveFirst(queue, e), pos);
        NoNewCopiesTrans(Stored(root), Stored(root'), Stored(r), e, queue);
      }
    }
    if Unique(root) {
      forall x ensures Stored(r)[x] <= 1 {
        assert Stored(r)[x] <= Stored(root)[x] || Stored(r)[x] == 1;
      }
    }
  }

  /** The pass as written keeps the tree within capacity and its caches'
      invariants; it gains at most one copy of each queued entity. */
  lemma {:induction false} RehomeAllKeeps(root: Node, snapshot: seq<Owned>, queue: seq<Entity>, pos: Entity -> Point)
    requires WF(root) && WithinCapacity(root)
    ensures var r := RehomeAll(root, snapshot, queue, pos).root;
      && WithinCapacity(r)
      && (CacheOk(root) && LeavesOk(root) ==> CacheOk(r) && LeavesOk(r))
      && Stored(r) <= Stored(root) + multiset(queue)
    decreases |snapshot|
  {
    if snapshot != [] {
      var en := snapshot[0];
      if en.entity !in queue {
        RehomeAllKeeps(root, snapshot[1..], queue, pos);
      } else {
        var e := en.entity;
        var root' := if Lookup(root, en.owner).Some? then Rehome(root, en.owner, e, pos) else root;
        if Lookup(root, en.owner).Some? {
          RehomeKeeps(root, en.owner, e, pos);
        }
        var q' := RemoveFirst(queue, e);
        RehomeAllKeeps(root', snapshot[1..], q', pos);
        RemoveFirstCount(queue, e);
        QueueBound(Stored(RehomeAll(root', snapshot[1..], q', pos).root), Stored(root'), Stored(root),
                   multiset(queue), e);
      }
    }
  }

  lemma QueueBound(r: multiset<Entity>, a: multiset<Entity>, b: multiset<Entity>, q: multiset<Entity>, e: Entity)
    requires e in q && a <= b + multiset{e} && r <= a + (q - multiset{e})
    ensures r <= b + q
  {
    forall y ensures r[y] <= (b + q)[y] {
    }
  }

  /** With only `e` queued and only `e` possibly out of place, the corrected
      pass keeps exactly the same entities and puts every entity inside its
      node's region, provided `e` lies in the root's region and, if stored,
      has an entry in the snapshot. */
  lemma {:induction false} RehomeAllCurrentSingle(root: Node, snapshot: seq<Owned>, e: Entity, pos: Entity -> Point)
    requires WF(root) && WithinCapacity(root) && Unique(root)
    requires ContainedBut(root, e, pos) && Contains(root.region, pos(e))
    requires e in Stored(root) <==> e in EntitiesOf(snapshot)
    ensures Stored(RehomeAllCurrent(root, snapshot, [e], pos).root) == Stored(root)
    ensures Contained(RehomeAllCurrent(root, snapshot, [e], pos).root, pos)
    decreases |snapshot|
  {
    if snapshot == [] {
      ContainedButAbsent(root, e, pos);
    } else {
      assert EntitiesOf(snapshot) == multiset{snapshot[0].entity} + EntitiesOf(snapshot[1..]);
      if snapshot[0].entity != e {
        RehomeAllCurrentSingle(root, snapshot[1..], e, pos);
      } else {
        assert RemoveFirst([e], e) == [];
        assert e in Stored(root);
        RehomeExact(root, FindOwner(root, e).value, e, pos);
        RehomeAllIdle(RehomeCurrent(root, snapshot[0], pos), snapshot[1..], pos);
      }
    }
  }

  /** The same for the pass as written, provided every snapshot entry for
      `e` names a node that stores `e`: with one queued entity the snapshot
      owner is then the node storing it, and the two passes agree. */
  lemma {:induction false} RehomeAllSingle(root: Node, snapshot: seq<Owned>, e: Entity, pos: Entity -> Point)
    requires WF(root) && WithinCapacity(root) && Unique(root)
    requires ContainedBut(root, e, pos) && Contains(root.region, pos(e))
    requires e in Stored(root) ==> e in EntitiesOf(snapshot)
    requires forall k | 0 <= k < |snapshot| && snapshot[k].entity == e ::
      Lookup(root, snapshot[k].owner).Some? && e in Lookup(root, snapshot[k].owner).value.entities
    ensures Stored(RehomeAll(root, snapshot, [e], pos).root) == Stored(root)
    ensures Contained(RehomeAll(root, snapshot, [e], pos).root, pos)
    decreases |snapshot|
  {
    if snapshot == [] {
      ContainedButAbsent(root, e, pos);
    } else {
      assert EntitiesOf(snapshot) == multiset{snapshot[0].entity} + EntitiesOf(snapshot[1..]);
      if snapshot[0].entity != e {
        forall k | 0 <= k < |snapshot[1..]| && snapshot[1..][k].entity == e
          ensures Lookup(root, snapshot[1..][k].owner).Some?
          ensures e in Lookup(root, snapshot[1..][k].owner).value.entities
        {
          assert snapshot[1..][k] == snapshot[k + 1];
        }
        RehomeAllSingle(root, snapshot[1..], e, pos);
      } else {
        assert RemoveFirst([e], e) == [];
        RehomeExact(root, snapshot[0].owner, e, pos);
        RehomeAllIdle(Rehome(root, snapshot[0].owner, e, pos), snapshot[1..], pos);
      }
    }
  }

  /** With nothing queued the pass changes nothing. */
  lemma {:induction false} RehomeAllIdle(root: Node, snapshot: seq<Owned>, pos: Entity -> Point)
    requires WF(root)
    ensures RehomeAll(root, snapshot, [], pos) == Pass(root, [])
    ensures RehomeAllCurrent(root, snapshot, [], pos) == Pass(root, [])
    decreases |snapshot|
  {
    if snapshot != [] {
      RehomeAllIdle(root, snapshot[1..], pos);
    }
  }
}
