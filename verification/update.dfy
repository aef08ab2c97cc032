/** `update()`: refresh the entry lists, re-home each queued entity listed in
    a copy of the root's entry list, refresh both caches, and prune from each
    leaf. */
module Update {
  import opened Geometry
  import opened Octree
  import opened Caches
  import opened Paths
  import opened Pending
  import opened Rehome
  import opened Prune

  /** The update cycle on the root, with the re-homing pass as the source
      writes it: each walk starts from the node the copied list names. */
  function UpdateAsWritten(root: Node, queue: seq<Entity>, pos: Entity -> Point): (r: Pass)
    requires WF(root) && root.path == []
    ensures WF(r.root) && r.root.region == root.region && r.root.path == []
  {
    var t1 := UpdateChildrenEntities(root);
    SameContentInvariants(t1, root, pos);
    var p := RehomeAll(t1, t1.allEntities, queue, pos);
    Pass(Finish(p.root, pos), p.queue)
  }

  /** The update cycle with the corrected pass, which starts each entity's
      walk at the node that stores it when its turn comes (see
      `Rehome.RehomeAllCurrent`). */
  function Update(root: Node, queue: seq<Entity>, pos: Entity -> Point): (r: Pass)
    requires WF(root) && root.path == []
    ensures WF(r.root) && r.root.region == root.region && r.root.path == []
  {
    var t1 := UpdateChildrenEntities(root);
    SameContentInvariants(t1, root, pos);
    var p := RehomeAllCurrent(t1, t1.allEntities, queue, pos);
    Pass(Finish(p.root, pos), p.queue)
  }

  /** What follows the pass: both refreshes, then the sweep over the
      leaves. */
  function Finish(t: Node, pos: Entity -> Point): (r: Node)
    requires WF(t) && t.path == []
    ensures WF(r) && r.region == t.region && r.path == []
  {
    var t2 := UpdateChildrenEntities(t);
    SameContentInvariants(t2, t, pos);
    var t3 := UpdateLeaves(t2);
    SameContentInvariants(t3, t2, pos);
    Sweep(t3, 0, pos)
  }

  // ----- the refreshes keep each other's invariants -----

  /** Refreshing the entry lists leaves the leaf invariant alone. */
  lemma {:induction false} EntitiesRefreshKeepsLeaves(n: Node)
    requires LeavesOk(n)
    ensures LeavesOk(UpdateChildrenEntities(n))
    decreases n
  {
    var r := UpdateChildrenEntities(n);
    if n.needAllEntitiesUpdate {
      forall i | 0 <= i < |n.children| ensures LeavesOk(r.children[i]) {
        EntitiesRefreshKeepsLeaves(n.children[i]);
      }
      if !n.needLeavesUpdate {
        SameContentLeaves(r, n);
      }
    }
  }

  /** Refreshing the leaf lists leaves every entry list and entity flag
      alone. */
  lemma {:induction false} LeavesRefreshKeeps(n: Node)
    ensures EntitiesFresh(n) ==> EntitiesFresh(UpdateLeaves(n))
    ensures FlagsUp(n) ==> FlagsUp(UpdateLeaves(n))
    decreases n
  {
    var r := UpdateLeaves(n);
    if n.needLeavesUpdate {
      forall i | 0 <= i < |n.children|
        ensures EntitiesFresh(n.children[i]) ==> EntitiesFresh(r.children[i])
        ensures FlagsUp(n.children[i]) ==> FlagsUp(r.children[i])
      {
        LeavesRefreshKeeps(n.children[i]);
      }
      SameContentAllEntries(r, n);
    }
  }

  /** Both refreshes, in the update's order, give a tree the sweep can run
      on. */
  lemma Refreshed(n: Node, pos: Entity -> Point)
    requires WF(n) && WithinCapacity(n) && Contained(n, pos) && CacheOk(n) && LeavesOk(n)
    ensures Tidy(UpdateLeaves(UpdateChildrenEntities(n)), pos)
    ensures Stored(UpdateLeaves(UpdateChildrenEntities(n))) == Stored(n)
  {
    var t2 := UpdateChildrenEntities(n);
    var t3 := UpdateLeaves(t2);
    RefreshEntitiesCorrect(n);
    CacheOkFlagsUp(t2);
    EntitiesRefreshKeepsLeaves(n);
    RefreshLeavesCorrect(t2);
    LeavesRefreshKeeps(t2);
    SameContentInvariants(t2, n, pos);
    SameContentInvariants(t3, t2, pos);
    SameContentStored(t2, n);
    SameContentStored(t3, t2);
  }

  // ----- the pass when nothing is out of place -----

  lemma {:induction false} EntitiesOfMember(s: seq<Owned>, e: Entity)
    requires e in EntitiesOf(s)
    ensures exists k | 0 <= k < |s| :: s[k].entity == e
  {
    if s[0].entity != e {
      EntitiesOfMember(s[1..], e);
      var k :| 0 <= k < |s[1..]| && s[1..][k].entity == e;
      assert s[k + 1].entity == e;
    }
  }

  /** A stored entity of a contained tree lies in the root's region. */
  lemma StoredInside(n: Node, e: Entity, pos: Entity -> Point)
    requires WF(n) && Contained(n, pos) && e in Stored(n)
    ensures Contains(n.region, pos(e))
  {
    EntriesAreStored(n);
    EntitiesOfMember(AllEntries(n), e);
    ListedInside(n, pos);
    var k :| 0 <= k < |AllEntries(n)| && AllEntries(n)[k].entity == e;
    assert AllEntries(n)[k] in AllEntries(n);
  }

  /** When every stored entity lies in its node's region and every entity
      the snapshot names is stored, the corrected pass keeps exactly the
      stored entities, and keeps them all inside. */
  lemma {:induction false} RehomeAllCurrentContained(root: Node, snapshot: seq<Owned>, queue: seq<Entity>,
                                                     pos: Entity -> Point)
    requires WF(root) && WithinCapacity(root) && Unique(root) && Contained(root, pos)
    requires forall x | x in EntitiesOf(snapshot) :: x in Stored(root)
    ensures Stored(RehomeAllCurrent(root, snapshot, queue, pos).root) == Stored(root)
    ensures Contained(RehomeAllCurrent(root, snapshot, queue, pos).root, pos)
    decreases |snapshot|
  {
    if snapshot != [] {
      var e := snapshot[0].entity;
      assert EntitiesOf(snapshot) == multiset{e} + EntitiesOf(snapshot[1..]);
      if e !in queue {
        RehomeAllCurrentContained(root, snapshot[1..], queue, pos);
      } else {
        var o := FindOwner(root, e).value;
        StoredInside(root, e, pos);
        ContainedIsContainedBut(root, e, pos);
        RehomeExact(root, o, e, pos);
        RehomeKeeps(root, o, e, pos);
        RehomeAllCurrentContained(RehomeCurrent(root, snapshot[0], pos), snapshot[1..], RemoveFirst(queue, e), pos);
      }
    }
  }

  // ----- the update -----

  /** The update's state before the pass. */
  ghost predicate Ready(root: Node)
  {
    WF(root) && root.path == [] && WithinCapacity(root) && CacheOk(root) && LeavesOk(root) && Unique(root)
  }

  /** After the pass, with every entity in place, the rest of the update
      keeps exactly the stored entities and leaves a tree that is within
      capacity, has every entity in place and satisfies both cache
      invariants. */
  lemma FinishKeeps(p: Node, pos: Entity -> Point)
    requires Ready(p) && Contained(p, pos)
    ensures var r := Finish(p, pos);
      && Stored(r) == Stored(p) && Unique(r) && Contained(r, pos)
      && WithinCapacity(r) && CacheOk(r) && LeavesOk(r)
  {
    Refreshed(p, pos);
    var t3 := UpdateLeaves(UpdateChildrenEntities(p));
    SweepKeeps(t3, 0, pos);
    FreshFlagsCacheOk(Sweep(t3, 0, pos));
  }

  /** The corrected pass keeps what the rest of the update needs. */
  lemma AfterPass(root: Node, queue: seq<Entity>, pos: Entity -> Point)
    requires Ready(root)
    requires var t1 := UpdateChildrenEntities(root);
      && WF(t1)
      && var p := RehomeAllCurrent(t1, t1.allEntities, queue, pos).root;
      Stored(p) == Stored(root) && Contained(p, pos)
    ensures var r := Update(root, queue, pos).root;
      && Stored(r) == Stored(root) && Unique(r) && Contained(r, pos)
      && WithinCapacity(r) && CacheOk(r) && LeavesOk(r)
  {
    var t1 := UpdateChildrenEntities(root);
    RefreshEntitiesCorrect(root);
    EntitiesRefreshKeepsLeaves(root);
    SameContentInvariants(t1, root, pos);
    var p := RehomeAllCurrent(t1, t1.allEntities, queue, pos).root;
    RehomeAllCurrentKeeps(t1, t1.allEntities, queue, pos);
    FinishKeeps(p, pos);
  }

  /** An update with every entity in place keeps exactly the stored
      entities, each inside its node, and both cache invariants. */
  lemma UpdateContained(root: Node, queue: seq<Entity>, pos: Entity -> Point)
    requires Ready(root) && Contained(root, pos)
    ensures var r := Update(root, queue, pos).root;
      && Stored(r) == Stored(root) && Unique(r) && Contained(r, pos)
      && WithinCapacity(r) && CacheOk(r) && LeavesOk(r)
  {
    var t1 := UpdateChildrenEntities(root);
    SameContentInvariants(t1, root, pos);
    SameContentStored(t1, root);
    RefreshEntitiesCorrect(root);
    EntriesAreStored(root);
    RehomeAllCurrentContained(t1, t1.allEntities, queue, pos);
    AfterPass(root, queue, pos);
  }

  /** An update after one entity moved, to a place inside the root's
      region, keeps exactly the stored entities and puts every entity
      inside its node, the moved one included. */
  lemma UpdateSingle(root: Node, e: Entity, pos: Entity -> Point)
    requires Ready(root) && ContainedBut(root, e, pos) && Contains(root.region, pos(e))
    ensures var r := Update(root, [e], pos).root;
      && Stored(r) == Stored(root) && Unique(r) && Contained(r, pos)
      && WithinCapacity(r) && CacheOk(r) && LeavesOk(r)
  {
    var t1 := UpdateChildrenEntities(root);
    SameContentInvariants(t1, root, pos);
    SameContentStored(t1, root);
    SameContentContainedBut(t1, root, e, pos);
    RefreshEntitiesCorrect(root);
    EntriesAreStored(root);
    RehomeAllCurrentSingle(t1, t1.allEntities, e, pos);
    AfterPass(root, [e], pos);
  }

  /** After an update the queue holds exactly the queued entities that were
      not stored in the tree, each once. */
  lemma UpdateQueue(root: Node, queue: seq<Entity>, pos: Entity -> Point)
    requires WF(root) && root.path == [] && CacheOk(root) && NoDup(queue)
    ensures var r := Update(root, queue, pos);
      NoDup(r.queue) && forall x :: x in r.queue <==> x in queue && x !in Stored(root)
    ensures var r := UpdateAsWritten(root, queue, pos);
      NoDup(r.queue) && forall x :: x in r.queue <==> x in queue && x !in Stored(root)
  {
    var t1 := UpdateChildrenEntities(root);
    SameContentInvariants(t1, root, pos);
    RefreshEntitiesCorrect(root);
    EntriesAreStored(root);
    RehomeAllQueue(t1, t1.allEntities, queue, pos);
  }

  /** The update as the source writes it, after one entity moved to a place
      inside the root's region, keeps exactly the stored entities and puts
      every entity inside its node, the moved one included: the copied
      list's one entry for the moved entity names the node storing it. */
  lemma UpdateAsWrittenSingle(root: Node, e: Entity, pos: Entity -> Point)
    requires Ready(root) && ContainedBut(root, e, pos) && Contains(root.region, pos(e))
    ensures var r := UpdateAsWritten(root, [e], pos).root;
      && Stored(r) == Stored(root) && Unique(r) && Contained(r, pos)
      && WithinCapacity(r) && CacheOk(r) && LeavesOk(r)
  {
    var t1 := UpdateChildrenEntities(root);
    var s := t1.allEntities;
    SameContentInvariants(t1, root, pos);
    SameContentStored(t1, root);
    SameContentContainedBut(t1, root, e, pos);
    RefreshEntitiesCorrect(root);
    EntitiesRefreshKeepsLeaves(root);
    EntriesAreStored(root);
    SameContentAllEntries(t1, root);
    EntriesNameHolders(t1);
    forall k | 0 <= k < |s| && s[k].entity == e
      ensures Lookup(t1, s[k].owner).Some? && e in Lookup(t1, s[k].owner).value.entities
    {
      assert s[k] in AllEntries(t1);
      assert s[k].owner[|t1.path|..] == s[k].owner;
    }
    RehomeAllSingle(t1, s, e, pos);
    RehomeAllKeeps(t1, s, [e], pos);
    var p := RehomeAll(t1, s, [e], pos).root;
    FinishKeeps(p, pos);
  }
}
