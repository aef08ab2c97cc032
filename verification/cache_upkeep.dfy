/** Insertion and removal keep the cache invariants: every cache they make
    stale is flagged, on the node itself and on all its ancestors. */
module CacheUpkeep {
  import opened Geometry
  import opened Octree
  import opened Caches
  import opened AddProps

  lemma {:induction false} AllEntriesSeqUpdate(cs: seq<Node>, i: nat, c: Node)
    requires i < |cs| && AllEntries(c) == AllEntries(cs[i])
    ensures AllEntriesSeq(cs[i := c]) == AllEntriesSeq(cs)
    decreases cs
  {
    if i > 0 {
      AllEntriesSeqUpdate(cs[1..], i - 1, c);
      assert cs[i := c][1..] == cs[1..][i - 1 := c];
    } else {
      assert cs[i := c][1..] == cs[1..];
    }
  }

  lemma {:induction false} LeavesSeqUpdate(cs: seq<Node>, i: nat, c: Node)
    requires i < |cs| && Leaves(c) == Leaves(cs[i])
    ensures LeavesSeq(cs[i := c]) == LeavesSeq(cs)
    decreases cs
  {
    if i > 0 {
      LeavesSeqUpdate(cs[1..], i - 1, c);
      assert cs[i := c][1..] == cs[1..][i - 1 := c];
    } else {
      assert cs[i := c][1..] == cs[1..];
    }
  }

  /** Putting back a child keeps both invariants when the child keeps them
      and either raised its flag or did not change the corresponding list. */
  lemma ReattachCaches(n: Node, i: nat, c: Node)
    requires i < |n.children|
    requires CacheOk(n) && LeavesOk(n) && CacheOk(c) && LeavesOk(c)
    requires c.needAllEntitiesUpdate || AllEntries(c) == AllEntries(n.children[i])
    requires c.needLeavesUpdate || Leaves(c) == Leaves(n.children[i])
    ensures CacheOk(Reattach(n, i, c)) && LeavesOk(Reattach(n, i, c))
    ensures Reattach(n, i, c).needLeavesUpdate || Leaves(Reattach(n, i, c)) == Leaves(n)
  {
    var r := Reattach(n, i, c);
    if !c.needAllEntitiesUpdate {
      AllEntriesSeqUpdate(n.children, i, c);
    }
    if !c.needLeavesUpdate {
      LeavesSeqUpdate(n.children, i, c);
    }
    assert forall j | 0 <= j < |r.children| :: CacheOk(r.children[j]) && LeavesOk(r.children[j]);
  }

  /** `remove` raises the all-entities flag and leaves the leaves alone. */
  lemma RemoveCaches(n: Node, e: Entity)
    requires CacheOk(n) && LeavesOk(n)
    ensures CacheOk(Remove(n, e)) && LeavesOk(Remove(n, e))
    ensures Leaves(Remove(n, e)) == Leaves(n)
    ensures Remove(n, e).needLeavesUpdate == n.needLeavesUpdate
  {
    var r := Remove(n, e);
    assert forall j | 0 <= j < |r.children| :: CacheOk(r.children[j]) && LeavesOk(r.children[j]);
  }

  /** Insertion keeps both cache invariants. The leaf list changes only
      under a raised leaf flag, and a raised flag stays raised. */
  lemma {:induction false} AddCaches(n: Node, e: Entity, pos: Entity -> Point)
    requires WF(n) && CacheOk(n) && LeavesOk(n)
    ensures CacheOk(Add(n, e, pos)) && LeavesOk(Add(n, e, pos))
    ensures Add(n, e, pos).needLeavesUpdate || Leaves(Add(n, e, pos)) == Leaves(n)
    ensures n.needLeavesUpdate ==> Add(n, e, pos).needLeavesUpdate
    ensures n.needAllEntitiesUpdate ==> Add(n, e, pos).needAllEntitiesUpdate
    decreases MaxDepth - n.Depth(), if |n.children| == 0 then 1 else 0, 1, 0
  {
    if !Intersects(n, e, pos) {
    } else if n.Depth() < MaxDepth && |n.children| == 0 && |n.entities| >= EntitiesPerNode {
      AddOverflowCaches(n, e, pos);
    } else if n.Depth() < MaxDepth && |n.children| > 0
              && |CountChildrenIntersections(2, n, pos(e))| == 1 {
      var i := CountChildrenIntersections(2, n, pos(e))[0];
      var c := DelegateShape(n, e, pos, i);
      AddCaches(c, e, pos);
      ReattachCaches(n, i, Add(c, e, pos));
    } else {
      var r := Add(n, e, pos);
      assert r == AddHere(n, e);
      assert forall j | 0 <= j < |r.children| :: CacheOk(r.children[j]) && LeavesOk(r.children[j]);
    }
  }

  lemma {:induction false} AddOverflowCaches(n: Node, e: Entity, pos: Entity -> Point)
    requires WF(n) && CacheOk(n) && LeavesOk(n) && Intersects(n, e, pos)
    requires n.Depth() < MaxDepth && |n.children| == 0 && |n.entities| >= EntitiesPerNode
    ensures CacheOk(Add(n, e, pos)) && LeavesOk(Add(n, e, pos))
    ensures Add(n, e, pos).needLeavesUpdate
    ensures Add(n, e, pos).needAllEntitiesUpdate
    decreases MaxDepth - n.Depth(), 1, 0, 0
  {
    var es := n.entities;
    var x := es[|es| - 1];
    var s1 := OverflowUnfold(n, e, pos);
    FreshChildrenCaches(s1);
    AddCaches(s1, x, pos);
    var s2 := Add(s1, x, pos);
    RedistributeCaches(s2, es[..|es| - 1], pos);
    AddCaches(Redistribute(s2, es[..|es| - 1], pos), e, pos);
  }

  /** A node with raised flags over fresh childless children keeps both
      invariants. */
  lemma FreshChildrenCaches(s: Node)
    requires s.needAllEntitiesUpdate && s.needLeavesUpdate
    requires forall j | 0 <= j < |s.children| ::
      s.children[j] == NewNode(s.children[j].region, s.children[j].path)
    ensures CacheOk(s) && LeavesOk(s)
  {
    forall j | 0 <= j < |s.children|
      ensures CacheOk(s.children[j]) && LeavesOk(s.children[j])
    {
      var c := s.children[j];
      assert AllEntries(c) == [] by {
        assert OwnPairs(c.entities, c.path) == [];
      }
    }
  }

  /** Re-inserting a list of entities keeps both invariants. */
  lemma {:induction false} RedistributeCaches(n: Node, es: seq<Entity>, pos: Entity -> Point)
    requires WF(n) && |n.children| == 8 && CacheOk(n) && LeavesOk(n)
    ensures CacheOk(Redistribute(n, es, pos)) && LeavesOk(Redistribute(n, es, pos))
    ensures n.needLeavesUpdate ==> Redistribute(n, es, pos).needLeavesUpdate
    ensures n.needAllEntitiesUpdate ==> Redistribute(n, es, pos).needAllEntitiesUpdate
    decreases MaxDepth - n.Depth(), 0, 2, |es|
  {
    if es != [] {
      var x := es[|es| - 1];
      var m := Remove(n, x);
      assert Redistribute(n, es, pos) == Redistribute(Add(m, x, pos), es[..|es| - 1], pos);
      RemoveCaches(n, x);
      AddCaches(m, x, pos);
      RedistributeCaches(Add(m, x, pos), es[..|es| - 1], pos);
    }
  }
}
