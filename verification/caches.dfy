/** The two lazily recomputed per-subtree caches of a node: the list of every
    entity in the subtree paired with the node that stores it, and the list of
    the subtree's leaves. Each has a reference definition (`AllEntries`,
    `Leaves`) computed from the tree itself, a dirty flag, and a refresh that
    recomputes only below dirty nodes. */
module Caches {
  import opened Geometry
  import opened Octree

  /** This node's own entries: each entity it stores, paired with itself. */
  function OwnPairs(es: seq<Entity>, p: Path): seq<Owned>
  {
    seq(|es|, k requires 0 <= k < |es| => Owned(es[k], p))
  }

  /** Reference: the children's entries in child order, then this node's. */
  function AllEntries(n: Node): seq<Owned>
    decreases n
  {
    AllEntriesSeq(n.children) + OwnPairs(n.entities, n.path)
  }

  function AllEntriesSeq(cs: seq<Node>): seq<Owned>
    decreases cs
  {
    if cs == [] then [] else AllEntries(cs[0]) + AllEntriesSeq(cs[1..])
  }

  /** Reference: a childless node is its own only leaf; otherwise the leaves
      are the children's leaves in child order. */
  function Leaves(n: Node): seq<Path>
    decreases n
  {
    if |n.children| == 0 then [n.path] else LeavesSeq(n.children)
  }

  function LeavesSeq(cs: seq<Node>): seq<Path>
    decreases cs
  {
    if cs == [] then [] else Leaves(cs[0]) + LeavesSeq(cs[1..])
  }

  /** Two trees that differ at most in their caches and dirty flags. */
  ghost predicate SameContent(a: Node, b: Node)
    decreases a
  {
    && a.region == b.region && a.path == b.path && a.entities == b.entities
    && |a.children| == |b.children|
    && forall i | 0 <= i < |a.children| :: SameContent(a.children[i], b.children[i])
  }

  /** The concatenation of the children's cached entry lists. */
  function CachedEntities(cs: seq<Node>): seq<Owned>
  {
    if cs == [] then [] else cs[0].allEntities + CachedEntities(cs[1..])
  }

  /** The concatenation of the children's cached leaf lists. */
  function CachedLeaves(cs: seq<Node>): seq<Path>
  {
    if cs == [] then [] else cs[0].leaves + CachedLeaves(cs[1..])
  }

  /** Refreshes the all-entities cache below every dirty node. The flag is
      left set: once a subtree has changed, its cache is rebuilt on every
      later refresh. */
  function UpdateChildrenEntities(n: Node): (r: Node)
    ensures SameContent(r, n)
    ensures r.needAllEntitiesUpdate == n.needAllEntitiesUpdate
    ensures r.needLeavesUpdate == n.needLeavesUpdate && r.leaves == n.leaves
    decreases n
  {
    if !n.needAllEntitiesUpdate then
      SameContentRefl(n);
      n
    else
      var cs := seq(|n.children|, i requires 0 <= i < |n.children| => UpdateChildrenEntities(n.children[i]));
      n.(children := cs, allEntities := CachedEntities(cs) + OwnPairs(n.entities, n.path))
  }

  /** Refreshes the leaf cache below every dirty node, clearing the flags. */
  function UpdateLeaves(n: Node): (r: Node)
    ensures SameContent(r, n)
    ensures !r.needLeavesUpdate
    ensures r.needAllEntitiesUpdate == n.needAllEntitiesUpdate && r.allEntities == n.allEntities
    decreases n
  {
    if !n.needLeavesUpdate then
      SameContentRefl(n);
      n
    else
      var cs := seq(|n.children|, i requires 0 <= i < |n.children| => UpdateLeaves(n.children[i]));
      n.(children := cs,
         leaves := CachedLeaves(cs) + (if |cs| == 0 then [n.path] else []),
         needLeavesUpdate := false)
  }

  /** The all-entities invariant between operations: a clean node's cache is
      right, and a dirty child has a dirty parent. */
  ghost predicate CacheOk(n: Node)
    decreases n
  {
    && (!n.needAllEntitiesUpdate ==> n.allEntities == AllEntries(n))
    && forall i | 0 <= i < |n.children| ::
         && (n.children[i].needAllEntitiesUpdate ==> n.needAllEntitiesUpdate)
         && CacheOk(n.children[i])
  }

  /** The same invariant for the leaf cache. */
  ghost predicate LeavesOk(n: Node)
    decreases n
  {
    && (!n.needLeavesUpdate ==> n.leaves == Leaves(n))
    && forall i | 0 <= i < |n.children| ::
         && (n.children[i].needLeavesUpdate ==> n.needLeavesUpdate)
         && LeavesOk(n.children[i])
  }

  /** Every node's all-entities cache is right. */
  ghost predicate EntitiesFresh(n: Node)
    decreases n
  {
    && n.allEntities == AllEntries(n)
    && forall i | 0 <= i < |n.children| :: EntitiesFresh(n.children[i])
  }

  /** Every node's leaf cache is right and no leaf flag is set. */
  ghost predicate LeavesFresh(n: Node)
    decreases n
  {
    && !n.needLeavesUpdate && n.leaves == Leaves(n)
    && forall i | 0 <= i < |n.children| :: LeavesFresh(n.children[i])
  }

  lemma {:induction false} SameContentRefl(n: Node)
    ensures SameContent(n, n)
    decreases n
  {
    forall i | 0 <= i < |n.children| {
      SameContentRefl(n.children[i]);
    }
  }

  lemma {:induction false} SameContentSym(a: Node, b: Node)
    requires SameContent(a, b)
    ensures SameContent(b, a)
    decreases a
  {
    forall i | 0 <= i < |b.children| {
      SameContentSym(a.children[i], b.children[i]);
    }
  }

  // ----- content-only functions ignore caches and flags -----

  lemma {:induction false} SameContentAllEntries(a: Node, b: Node)
    requires SameContent(a, b)
    ensures AllEntries(a) == AllEntries(b)
    decreases a, 1
  {
    SameContentAllEntriesSeq(a.children, b.children);
  }

  lemma {:induction false} SameContentAllEntriesSeq(as_: seq<Node>, bs: seq<Node>)
    requires |as_| == |bs| && forall i | 0 <= i < |as_| :: SameContent(as_[i], bs[i])
    ensures AllEntriesSeq(as_) == AllEntriesSeq(bs)
    decreases as_, 0
  {
    if as_ != [] {
      SameContentAllEntries(as_[0], bs[0]);
      SameContentAllEntriesSeq(as_[1..], bs[1..]);
    }
  }

  lemma {:induction false} SameContentLeaves(a: Node, b: Node)
    requires SameContent(a, b)
    ensures Leaves(a) == Leaves(b)
    decreases a, 1
  {
    SameContentLeavesSeq(a.children, b.children);
  }

  lemma {:induction false} SameContentLeavesSeq(as_: seq<Node>, bs: seq<Node>)
    requires |as_| == |bs| && forall i | 0 <= i < |as_| :: SameContent(as_[i], bs[i])
    ensures LeavesSeq(as_) == LeavesSeq(bs)
    decreases as_, 0
  {
    if as_ != [] {
      SameContentLeaves(as_[0], bs[0]);
      SameContentLeavesSeq(as_[1..], bs[1..]);
    }
  }

  lemma {:induction false} SameContentStored(a: Node, b: Node)
    requires SameContent(a, b)
    ensures Stored(a) == Stored(b)
    decreases a, 1
  {
    SameContentStoredSeq(a.children, b.children);
  }

  lemma {:induction false} SameContentStoredSeq(as_: seq<Node>, bs: seq<Node>)
    requires |as_| == |bs| && forall i | 0 <= i < |as_| :: SameContent(as_[i], bs[i])
    ensures StoredSeq(as_) == StoredSeq(bs)
    decreases as_, 0
  {
    if as_ != [] {
      SameContentStored(as_[0], bs[0]);
      SameContentStoredSeq(as_[1..], bs[1..]);
    }
  }

  /** The structural and content invariants do not look at caches. */
  lemma {:induction false} SameContentInvariants(a: Node, b: Node, pos: Entity -> Point)
    requires SameContent(a, b)
    ensures WF(a) <==> WF(b)
    ensures Contained(a, pos) <==> Contained(b, pos)
    ensures WithinCapacity(a) <==> WithinCapacity(b)
    decreases a
  {
    forall i | 0 <= i < |a.children| {
      SameContentInvariants(a.children[i], b.children[i], pos);
    }
  }

  // ----- refreshing -----

  lemma {:induction false} CachedEntitiesFresh(cs: seq<Node>)
    requires forall i | 0 <= i < |cs| :: cs[i].allEntities == AllEntries(cs[i])
    ensures CachedEntities(cs) == AllEntriesSeq(cs)
    decreases cs
  {
    if cs != [] {
      CachedEntitiesFresh(cs[1..]);
    }
  }

  lemma {:induction false} CachedLeavesFresh(cs: seq<Node>)
    requires forall i | 0 <= i < |cs| :: cs[i].leaves == Leaves(cs[i])
    ensures CachedLeaves(cs) == LeavesSeq(cs)
    decreases cs
  {
    if cs != [] {
      CachedLeavesFresh(cs[1..]);
    }
  }

  /** Under the invariant, a refresh makes every all-entities cache of the
      subtree equal to the reference list: for a dirty node, the children's
      refreshed lists in child order followed by one `(e, node)` entry per
      entity of its own, and a clean node's list is already right. */
  lemma {:induction false} RefreshEntitiesCorrect(n: Node)
    requires CacheOk(n)
    ensures EntitiesFresh(UpdateChildrenEntities(n))
    ensures CacheOk(UpdateChildrenEntities(n))
    ensures UpdateChildrenEntities(n).allEntities == AllEntries(n)
    decreases n
  {
    var r := UpdateChildrenEntities(n);
    if !n.needAllEntitiesUpdate {
      CleanIsFresh(n);
    } else {
      forall i | 0 <= i < |n.children|
        ensures r.children[i].allEntities == AllEntries(r.children[i])
        ensures EntitiesFresh(r.children[i]) && CacheOk(r.children[i])
        ensures AllEntries(r.children[i]) == AllEntries(n.children[i])
      {
        assert r.children[i] == UpdateChildrenEntities(n.children[i]);
        RefreshEntitiesCorrect(n.children[i]);
        SameContentAllEntries(r.children[i], n.children[i]);
      }
      CachedEntitiesFresh(r.children);
      SameContentAllEntriesSeq(r.children, n.children);
      SameContentAllEntries(r, n);
    }
  }

  /** Below a clean node every node is clean, so every cache is right. */
  lemma {:induction false} CleanIsFresh(n: Node)
    requires CacheOk(n) && !n.needAllEntitiesUpdate
    ensures EntitiesFresh(n)
    decreases n
  {
    forall i | 0 <= i < |n.children| {
      CleanIsFresh(n.children[i]);
    }
  }

  /** Under the invariant, a refresh makes every leaf cache of the subtree
      equal to the reference leaf list and clears every leaf flag. */
  lemma {:induction false} RefreshLeavesCorrect(n: Node)
    requires LeavesOk(n)
    ensures LeavesFresh(UpdateLeaves(n))
    ensures LeavesOk(UpdateLeaves(n))
    ensures UpdateLeaves(n).leaves == Leaves(n)
    decreases n
  {
    var r := UpdateLeaves(n);
    if !n.needLeavesUpdate {
      CleanLeavesFresh(n);
    } else {
      forall i | 0 <= i < |n.children|
        ensures r.children[i].leaves == Leaves(r.children[i])
        ensures LeavesFresh(r.children[i])
        ensures Leaves(r.children[i]) == Leaves(n.children[i])
      {
        assert r.children[i] == UpdateLeaves(n.children[i]);
        RefreshLeavesCorrect(n.children[i]);
        SameContentLeaves(r.children[i], n.children[i]);
      }
      CachedLeavesFresh(r.children);
      SameContentLeavesSeq(r.children, n.children);
      SameContentLeaves(r, n);
      FreshLeavesOk(r);
    }
  }

  lemma {:induction false} CleanLeavesFresh(n: Node)
    requires LeavesOk(n) && !n.needLeavesUpdate
    ensures LeavesFresh(n)
    decreases n
  {
    forall i | 0 <= i < |n.children| {
      CleanLeavesFresh(n.children[i]);
    }
  }

  lemma {:induction false} FreshLeavesOk(n: Node)
    requires LeavesFresh(n)
    ensures LeavesOk(n)
    decreases n
  {
    forall i | 0 <= i < |n.children| {
      FreshLeavesOk(n.children[i]);
    }
  }

  /** The entities named by a list of entries, with multiplicity. */
  function EntitiesOf(s: seq<Owned>): multiset<Entity>
  {
    if s == [] then multiset{} else multiset{s[0].entity} + EntitiesOf(s[1..])
  }

  lemma {:induction false} EntitiesOfConcat(a: seq<Owned>, b: seq<Owned>)
    ensures EntitiesOf(a + b) == EntitiesOf(a) + EntitiesOf(b)
  {
    if a == [] {
      assert a + b == b;
    } else {
      assert (a + b)[1..] == a[1..] + b;
      EntitiesOfConcat(a[1..], b);
    }
  }

  lemma {:induction false} EntitiesOfOwnPairs(es: seq<Entity>, p: Path)
    ensures EntitiesOf(OwnPairs(es, p)) == multiset(es)
  {
    if es != [] {
      assert OwnPairs(es, p)[1..] == OwnPairs(es[1..], p);
      EntitiesOfOwnPairs(es[1..], p);
      assert es == [es[0]] + es[1..];
    }
  }

  /** The reference list names exactly the stored entities, each as often as
      it is stored. */
  lemma {:induction false} EntriesAreStored(n: Node)
    ensures EntitiesOf(AllEntries(n)) == Stored(n)
    decreases n, 1
  {
    EntriesAreStoredSeq(n.children);
    EntitiesOfConcat(AllEntriesSeq(n.children), OwnPairs(n.entities, n.path));
    EntitiesOfOwnPairs(n.entities, n.path);
  }

  lemma {:induction false} EntriesAreStoredSeq(cs: seq<Node>)
    ensures EntitiesOf(AllEntriesSeq(cs)) == StoredSeq(cs)
    decreases cs, 0
  {
    if cs != [] {
      EntriesAreStored(cs[0]);
      EntriesAreStoredSeq(cs[1..]);
      EntitiesOfConcat(AllEntries(cs[0]), AllEntriesSeq(cs[1..]));
    }
  }

  /** `empty()` holds exactly when the all-entities reference list is empty. */
  lemma EmptyIffNoEntries(n: Node)
    ensures Empty(n) <==> AllEntries(n) == []
  {
    EntriesAreStored(n);
    if AllEntries(n) != [] {
      assert AllEntries(n)[0].entity in EntitiesOf(AllEntries(n));
    }
  }
}
