/** The pruning phase of the update. `pruneUp` collapses a node whose cached
    entry list holds at most one entry: its descendants leave the root's leaf
    list, it loses its children, and a lone entity that lived below it is
    pulled up into it. It then moves on to the parent. The sweep runs
    `pruneUp` from each entry of the root's leaf list. */
module Prune {
  import opened Geometry
  import opened Octree
  import opened Caches
  import opened CacheUpkeep
  import opened AddProps
  import opened Paths

  // ----- the root's leaf list -----

  /** The splices of the collapse: every node below `cs` leaves the list, each
      child's own subtree first and then the child, in child order. Each
      splice takes out the first entry naming the node, if there is one. */
  function DropSubtrees(leaves: seq<Path>, cs: seq<Node>): (r: seq<Path>)
    ensures |r| <= |leaves|
    decreases cs
  {
    if cs == [] then leaves
    else
      var inner := DropSubtrees(leaves, cs[0].children);
      DropSubtrees(RemoveFirst(inner, cs[0].path), cs[1..])
  }

  /** Reference: the paths of all nodes in the subtrees rooted at `cs`. */
  function PathsBelow(cs: seq<Node>): multiset<Path>
    decreases cs
  {
    if cs == [] then multiset{}
    else PathsBelow(cs[0].children) + multiset{cs[0].path} + PathsBelow(cs[1..])
  }

  /** The splices take exactly one copy of each node's path out of the list,
      as far as the list has one. */
  lemma {:induction false} DropSubtreesRemoves(leaves: seq<Path>, cs: seq<Node>)
    ensures multiset(DropSubtrees(leaves, cs)) == multiset(leaves) - PathsBelow(cs)
    decreases cs
  {
    if cs != [] {
      var inner := DropSubtrees(leaves, cs[0].children);
      DropSubtreesRemoves(leaves, cs[0].children);
      RemoveFirstCount(inner, cs[0].path);
      DropSubtreesRemoves(RemoveFirst(inner, cs[0].path), cs[1..]);
      MinusMinus(multiset(leaves), PathsBelow(cs[0].children), multiset{cs[0].path}, PathsBelow(cs[1..]));
    }
  }

  lemma MinusMinus(m: multiset<Path>, a: multiset<Path>, b: multiset<Path>, c: multiset<Path>)
    ensures ((m - a) - b) - c == m - (a + b + c)
  {
    forall y ensures (((m - a) - b) - c)[y] == (m - (a + b + c))[y] {
    }
  }

  // ----- re-pointing the shared entry -----

  /** `s` with every entry equal to `a` replaced by `b`. */
  function Swap(s: seq<Owned>, a: Owned, b: Owned): seq<Owned>
  {
    seq(|s|, k requires 0 <= k < |s| => if s[k] == a then b else s[k])
  }

  /** The source keeps one `[entity, node]` pair per stored entity and every
      ancestor's list holds that same pair, so overwriting the node of the
      pair in the list of the node at `q` re-points it in the lists of all
      the node's ancestors too. Here the entry `a` becomes `b` in the list of
      each node from the root down to the node at `q`. */
  function Repoint(n: Node, q: Path, a: Owned, b: Owned): (r: Node)
    ensures r.region == n.region && r.path == n.path && r.entities == n.entities
    ensures |r.children| == |n.children| && r.leaves == n.leaves
    ensures r.needAllEntitiesUpdate == n.needAllEntitiesUpdate
    ensures r.needLeavesUpdate == n.needLeavesUpdate
    ensures WF(n) ==> WF(r)
    decreases |q|
  {
    var m := n.(allEntities := Swap(n.allEntities, a, b));
    if q != [] && q[0] < |n.children| then
      m.(children := n.children[q[0] := Repoint(n.children[q[0]], q[1..], a, b)])
    else m
  }

  // ----- pruneUp -----

  /** A node after `needLeavesUpdate()` and `children_nodes.length = 0`. */
  function Collapsed(x: Node): Node
  {
    x.(children := [], needLeavesUpdate := true)
  }

  /** Whether the collapse of `x` pulls a lone entity up: its list holds one
      entry and that entry names another node. */
  predicate PullsUp(x: Node)
  {
    |x.allEntities| == 1 && x.allEntities[0].owner != x.path
  }

  /** The collapse of the node at `q`, leaf-list splices aside: the node is
      flagged for a leaf refresh and loses its children; when its list held
      one entry naming a node below it, that entry is re-pointed to the node
      and the entity is added to it. */
  function CollapseAt(root: Node, q: Path, pos: Entity -> Point): (r: Node)
    requires WF(root) && Lookup(root, q).Some?
    ensures WF(r) && r.region == root.region && r.path == root.path && r.leaves == root.leaves
  {
    var x := Lookup(root, q).value;
    LookupWF(root, q);
    ReplaceAtWF(root, q, Collapsed(x));
    ReplaceAtLeaves(root, q, Collapsed(x));
    var t := ReplaceAt(root, q, Collapsed(x));
    if PullsUp(x) then
      var a := x.allEntities[0];
      AddAt(Repoint(t, q, a, Owned(a.entity, x.path)), q, a.entity, pos)
    else t
  }

  /** `pruneUp` on the node at `q`: when its cached list holds at most one
      entry the node is collapsed, its descendants leave the root's leaf
      list, and the parent is pruned next. The splices touch nothing else the
      step reads or writes, so they are applied after the collapse. */
  function PruneUp(root: Node, q: Path, pos: Entity -> Point): (r: Node)
    requires WF(root)
    ensures WF(r) && r.region == root.region && r.path == root.path
    ensures |r.leaves| <= |root.leaves|
    decreases |q|
  {
    match Lookup(root, q)
    case None => root
    case Some(x) =>
      if |x.allEntities| > 1 then root
      else
        var t := CollapseAt(root, q, pos).(leaves := DropSubtrees(root.leaves, x.children));
        if q == [] then t else PruneUp(t, q[..|q| - 1], pos)
  }

  /** Replacing a node below the root leaves the root's leaf list alone. */
  lemma ReplaceAtLeaves(n: Node, q: Path, s: Node)
    requires Lookup(n, q).Some? && s.leaves == Lookup(n, q).value.leaves
    ensures ReplaceAt(n, q, s).leaves == n.leaves
  {
  }

  /** The sweep: `pruneUp` from the entry at index `k` of the root's leaf
      list and each later one. The list is the live one: a collapse splices
      entries out of it, and an entry the splices shift to an index already
      passed is not visited. */
  function Sweep(root: Node, k: nat, pos: Entity -> Point): (r: Node)
    requires WF(root) && root.path == []
    ensures WF(r) && r.region == root.region && r.path == []
    decreases |root.leaves| - k
  {
    if k >= |root.leaves| then root
    else Sweep(PruneUp(root, root.leaves[k], pos), k + 1, pos)
  }

  // ----- where entries point -----

  /** `o` names the node `p` or a node below it. */
  ghost predicate Under(p: Path, o: Path)
  {
    |p| <= |o| && o[..|p|] == p
  }

  lemma UnderTrans(p: Path, c: Path, o: Path)
    requires Under(p, c) && Under(c, o)
    ensures Under(p, o)
  {
    assert o[..|p|] == o[..|c|][..|p|];
  }

  /** Below the child `p + [j]`, the path continues with `j`. */
  lemma UnderChild(p: Path, q: Path, o: Path)
    requires q != [] && Under(p + q, o)
    ensures Under(p + [q[0]], o) && |o| > |p| && o[|p|] == q[0]
  {
    assert (p + q)[|p|] == q[0];
    assert o[..|p| + 1] == (p + q)[..|p| + 1];
    assert (p + q)[..|p| + 1] == p + [q[0]];
  }

  lemma OwnPairsOwner(es: seq<Entity>, p: Path)
    ensures forall en | en in OwnPairs(es, p) :: en.owner == p
  {
  }

  /** Every entry of a well-formed subtree names its root or a node below it,
      and every entry coming from a child names a node strictly below. */
  lemma {:induction false} OwnersUnder(n: Node)
    requires WF(n)
    ensures forall en | en in AllEntries(n) :: Under(n.path, en.owner)
    ensures forall en | en in AllEntriesSeq(n.children) :: Under(n.path, en.owner) && |en.owner| > |n.path|
    decreases n, 1
  {
    forall j | 0 <= j < |n.children|
      ensures |n.children[j].path| == |n.path| + 1 && n.children[j].path[..|n.path|] == n.path
    {
      assert (n.path + [j])[..|n.path|] == n.path;
    }
    OwnersUnderSeq(n.children, n.path);
    OwnPairsOwner(n.entities, n.path);
  }

  lemma {:induction false} OwnersUnderSeq(cs: seq<Node>, p: Path)
    requires forall j | 0 <= j < |cs| :: WF(cs[j]) && |cs[j].path| == |p| + 1 && cs[j].path[..|p|] == p
    ensures forall en | en in AllEntriesSeq(cs) :: Under(p, en.owner) && |en.owner| > |p|
    decreases cs, 0
  {
    if cs != [] {
      OwnersUnder(cs[0]);
      OwnersUnderSeq(cs[1..], p);
      forall en | en in AllEntries(cs[0]) ensures Under(p, en.owner) && |en.owner| > |p| {
        UnderTrans(p, cs[0].path, en.owner);
      }
    }
  }

  /** The split of a list with at most one entry: with none, or one naming
      the node itself, the children hold nothing; with one naming another
      node, that node is below and the node itself holds nothing. */
  lemma LoneEntry(x: Node)
    requires WF(x) && x.allEntities == AllEntries(x) && |x.allEntities| <= 1
    ensures |x.entities| <= 1
    ensures !PullsUp(x) ==> AllEntriesSeq(x.children) == [] && OwnPairs(x.entities, x.path) == x.allEntities
    ensures PullsUp(x) ==>
      && AllEntriesSeq(x.children) == x.allEntities && x.entities == []
      && Under(x.path, x.allEntities[0].owner) && |x.allEntities[0].owner| > |x.path|
  {
    OwnersUnder(x);
    OwnPairsOwner(x.entities, x.path);
    var sq, own := AllEntriesSeq(x.children), OwnPairs(x.entities, x.path);
    assert x.allEntities == sq + own;
    if |x.allEntities| == 1 {
      var a := x.allEntities[0];
      if sq != [] {
        assert sq[0] in sq;
        assert sq == [a];
      } else {
        assert own[0] in own;
      }
    }
  }

  /** Every entity listed in a contained subtree lies in the subtree's root
      region. */
  lemma {:induction false} ListedInside(n: Node, pos: Entity -> Point)
    requires WF(n) && Contained(n, pos)
    ensures forall en | en in AllEntries(n) :: Contains(n.region, pos(en.entity))
    decreases n, 1
  {
    forall j, p | 0 <= j < |n.children| && Contains(n.children[j].region, p)
      ensures Contains(n.region, p)
    {
      OctantInside(n.region, j, p);
    }
    ListedInsideSeq(n.children, n.region, pos);
    forall en | en in OwnPairs(n.entities, n.path) ensures Contains(n.region, pos(en.entity)) {
      var k :| 0 <= k < |n.entities| && OwnPairs(n.entities, n.path)[k] == en;
    }
  }

  lemma {:induction false} ListedInsideSeq(cs: seq<Node>, b: Region, pos: Entity -> Point)
    requires forall j | 0 <= j < |cs| :: WF(cs[j]) && Contained(cs[j], pos)
    requires forall j, p | 0 <= j < |cs| && Contains(cs[j].region, p) :: Contains(b, p)
    ensures forall en | en in AllEntriesSeq(cs) :: Contains(b, pos(en.entity))
    decreases cs, 0
  {
    if cs != [] {
      ListedInside(cs[0], pos);
      ListedInsideSeq(cs[1..], b, pos);
    }
  }

  // ----- flags and caches under the collapse -----

  /** Dirty entity-cache flags are closed upward: a dirty child has a dirty
      parent. */
  ghost predicate FlagsUp(n: Node)
    decreases n
  {
    forall i | 0 <= i < |n.children| ::
      (n.children[i].needAllEntitiesUpdate ==> n.needAllEntitiesUpdate) && FlagsUp(n.children[i])
  }

  /** Right lists everywhere and flags closed upward give the cache
      invariant between operations. */
  lemma {:induction false} FreshFlagsCacheOk(n: Node)
    requires EntitiesFresh(n) && FlagsUp(n)
    ensures CacheOk(n)
    decreases n
  {
    forall i | 0 <= i < |n.children| ensures CacheOk(n.children[i]) {
      FreshFlagsCacheOk(n.children[i]);
    }
  }

  lemma {:induction false} CacheOkFlagsUp(n: Node)
    requires CacheOk(n)
    ensures FlagsUp(n)
    decreases n
  {
    forall i | 0 <= i < |n.children| ensures FlagsUp(n.children[i]) {
      CacheOkFlagsUp(n.children[i]);
    }
  }

  lemma {:induction false} ReplaceAtFlagsUp(n: Node, q: Path, s: Node)
    requires FlagsUp(n) && FlagsUp(s)
    ensures FlagsUp(ReplaceAt(n, q, s))
    decreases |q|
  {
    if q != [] && q[0] < |n.children| {
      ReplaceAtFlagsUp(n.children[q[0]], q[1..], s);
    }
  }

  /** Putting a node flagged for a leaf refresh in place flags every
      ancestor, so the leaf invariant holds whatever the new leaves are. */
  lemma {:induction false} ReplaceAtLeavesOk(n: Node, q: Path, s: Node)
    requires Lookup(n, q).Some? && LeavesOk(n) && LeavesOk(s) && s.needLeavesUpdate
    ensures LeavesOk(ReplaceAt(n, q, s)) && ReplaceAt(n, q, s).needLeavesUpdate
    decreases |q|
  {
    if q != [] {
      ReplaceAtLeavesOk(n.children[q[0]], q[1..], s);
    }
  }

  /** Putting a node with right lists in place of one with the same
      reference list keeps every list right. */
  lemma {:induction false} ReplaceAtFresh(n: Node, q: Path, s: Node)
    requires Lookup(n, q).Some? && EntitiesFresh(n) && EntitiesFresh(s)
    requires AllEntries(s) == AllEntries(Lookup(n, q).value)
    ensures EntitiesFresh(ReplaceAt(n, q, s)) && AllEntries(ReplaceAt(n, q, s)) == AllEntries(n)
    decreases |q|
  {
    if q != [] {
      var c' := ReplaceAt(n.children[q[0]], q[1..], s);
      ReplaceAtFresh(n.children[q[0]], q[1..], s);
      AllEntriesSeqUpdate(n.children, q[0], c');
    }
  }

  /** Re-pointing changes only cached lists. */
  lemma {:induction false} RepointKeeps(n: Node, q: Path, a: Owned, b: Owned)
    ensures SameContent(Repoint(n, q, a, b), n)
    ensures FlagsUp(n) ==> FlagsUp(Repoint(n, q, a, b))
    ensures LeavesOk(n) ==> LeavesOk(Repoint(n, q, a, b))
    decreases |q|
  {
    var r := Repoint(n, q, a, b);
    if q != [] && q[0] < |n.children| {
      RepointKeeps(n.children[q[0]], q[1..], a, b);
    }
    forall j | 0 <= j < |n.children| && (q == [] || j != q[0])
      ensures SameContent(r.children[j], n.children[j])
    {
      SameContentRefl(n.children[j]);
    }
    if LeavesOk(n) {
      SameContentLeaves(r, n);
    }
  }

  /** After re-pointing, the node at `q` has its own list re-pointed. */
  lemma {:induction false} RepointLookup(n: Node, q: Path, a: Owned, b: Owned)
    requires Lookup(n, q).Some?
    ensures Lookup(Repoint(n, q, a, b), q)
         == Some(Lookup(n, q).value.(allEntities := Swap(Lookup(n, q).value.allEntities, a, b)))
    decreases |q|
  {
    if q != [] {
      RepointLookup(n.children[q[0]], q[1..], a, b);
    }
  }

  lemma SwapConcat(s: seq<Owned>, t: seq<Owned>, a: Owned, b: Owned)
    ensures Swap(s + t, a, b) == Swap(s, a, b) + Swap(t, a, b)
  {
  }

  lemma SwapAbsent(s: seq<Owned>, a: Owned, b: Owned)
    requires a !in s
    ensures Swap(s, a, b) == s
  {
  }

  lemma {:induction false} AllEntriesSeqSwap(cs: seq<Node>, ds: seq<Node>, a: Owned, b: Owned)
    requires |ds| == |cs|
    requires forall j | 0 <= j < |cs| :: AllEntries(ds[j]) == Swap(AllEntries(cs[j]), a, b)
    ensures AllEntriesSeq(ds) == Swap(AllEntriesSeq(cs), a, b)
    decreases cs
  {
    if cs != [] {
      AllEntriesSeqSwap(cs[1..], ds[1..], a, b);
      SwapConcat(AllEntries(cs[0]), AllEntriesSeq(cs[1..]), a, b);
    }
  }

  /** One level of the collapse-and-re-point composition. */
  lemma RepointUnfold(n: Node, q: Path, s1: Node, s2: Node, a: Owned, b: Owned)
    requires q != [] && q[0] < |n.children|
    ensures var g := ReplaceAt(Repoint(ReplaceAt(n, q, s1), q, a, b), q, s2);
      && g.children == n.children[q[0] := ReplaceAt(Repoint(ReplaceAt(n.children[q[0]], q[1..], s1), q[1..], a, b), q[1..], s2)]
      && g.allEntities == Swap(n.allEntities, a, b)
      && g.entities == n.entities && g.path == n.path
  {
  }

  /** An entry naming a node below child `q[0]` is in no other child's
      reference list. */
  lemma OthersAbsent(n: Node, q: Path, a: Owned)
    requires WF(n) && q != [] && Under(n.path + q, a.owner)
    ensures forall j | 0 <= j < |n.children| && j != q[0] :: a !in AllEntries(n.children[j])
  {
    UnderChild(n.path, q, a.owner);
    forall j | 0 <= j < |n.children| && j != q[0] ensures a !in AllEntries(n.children[j]) {
      OwnersUnder(n.children[j]);
      assert (n.path + [j])[|n.path|] == j;
    }
  }

  /** One level of the re-pointed lists: re-pointing inside one child
      re-points the parent's reference list, when no other child and not the
      parent itself holds the entry, so the re-pointed cached list is right. */
  lemma SwapLevel(n: Node, g: Node, i: nat, a: Owned, b: Owned)
    requires EntitiesFresh(n) && g.allEntities == Swap(n.allEntities, a, b)
    requires i < |n.children| == |g.children| && g.entities == n.entities && g.path == n.path
    requires forall j | 0 <= j < |n.children| && j != i :: g.children[j] == n.children[j]
    requires forall j | 0 <= j < |n.children| && j != i :: a !in AllEntries(n.children[j])
    requires EntitiesFresh(g.children[i])
    requires AllEntries(g.children[i]) == Swap(AllEntries(n.children[i]), a, b)
    requires a.owner != n.path
    ensures EntitiesFresh(g) && AllEntries(g) == Swap(AllEntries(n), a, b)
  {
    forall j | 0 <= j < |n.children|
      ensures AllEntries(g.children[j]) == Swap(AllEntries(n.children[j]), a, b)
    {
      if j != i {
        SwapAbsent(AllEntries(n.children[j]), a, b);
      }
    }
    AllEntriesSeqSwap(n.children, g.children, a, b);
    SwapConcat(AllEntriesSeq(n.children), OwnPairs(n.entities, n.path), a, b);
    OwnPairsOwner(n.entities, n.path);
    SwapAbsent(OwnPairs(n.entities, n.path), a, b);
  }

  /** Collapsing the node at `q`, re-pointing the entry `a` to `b` from the
      root down to it and putting `s2` there leaves every list right, when
      `s2`'s list is the node's old list re-pointed and `a` names a node at
      or below `q`: the re-pointed lists are exactly the new reference
      lists. */
  lemma {:induction false} RepointFresh(n: Node, q: Path, s1: Node, s2: Node, a: Owned, b: Owned)
    requires WF(n) && EntitiesFresh(n) && Lookup(n, q).Some?
    requires EntitiesFresh(s2) && AllEntries(s2) == Swap(AllEntries(Lookup(n, q).value), a, b)
    requires Under(n.path + q, a.owner)
    ensures EntitiesFresh(ReplaceAt(Repoint(ReplaceAt(n, q, s1), q, a, b), q, s2))
    ensures AllEntries(ReplaceAt(Repoint(ReplaceAt(n, q, s1), q, a, b), q, s2)) == Swap(AllEntries(n), a, b)
    decreases |q|
  {
    if q != [] {
      var i, q' := q[0], q[1..];
      var c := n.children[i];
      assert c.path + q' == n.path + q by {
        assert q == [i] + q';
      }
      RepointFresh(c, q', s1, s2, a, b);
      var g := ReplaceAt(Repoint(ReplaceAt(n, q, s1), q, a, b), q, s2);
      RepointUnfold(n, q, s1, s2, a, b);
      OthersAbsent(n, q, a);
      UnderChild(n.path, q, a.owner);
      SwapLevel(n, g, i, a, b);
    }
  }

  // ----- what the collapse keeps -----

  /** The state the sweep runs in: well formed, within capacity, every
      entity inside its node's region, every entry list right, dirty entity
      flags closed upward, and the leaf-cache invariant. */
  ghost predicate Tidy(n: Node, pos: Entity -> Point)
  {
    WF(n) && WithinCapacity(n) && Contained(n, pos) && EntitiesFresh(n) && FlagsUp(n) && LeavesOk(n)
  }

  /** Adding to an empty childless node that contains the entity stores it
      there. */
  lemma AddAtHere(m: Node, q: Path, e: Entity, pos: Entity -> Point)
    requires WF(m) && Lookup(m, q).Some?
    requires Lookup(m, q).value.children == [] && Lookup(m, q).value.entities == []
    requires Intersects(Lookup(m, q).value, e, pos)
    ensures AddAt(m, q, e, pos) == ReplaceAt(m, q, AddHere(Lookup(m, q).value, e))
  {
  }

  /** Putting in place a node that keeps the invariants other than the
      entry lists, and is flagged for a leaf refresh, keeps them and changes
      the stored multiset by the difference of the two nodes. */
  lemma ReplaceAtKeeps(root: Node, q: Path, s: Node, pos: Entity -> Point)
    requires Lookup(root, q).Some?
    requires WF(root) && WithinCapacity(root) && Contained(root, pos) && FlagsUp(root) && LeavesOk(root)
    requires WF(s) && WithinCapacity(s) && Contained(s, pos) && FlagsUp(s) && LeavesOk(s) && s.needLeavesUpdate
    requires s.region == Lookup(root, q).value.region && s.path == Lookup(root, q).value.path
    ensures var r := ReplaceAt(root, q, s);
      && WF(r) && WithinCapacity(r) && Contained(r, pos) && FlagsUp(r) && LeavesOk(r)
      && r.needLeavesUpdate && Lookup(r, q) == Some(s)
      && Stored(r) + Stored(Lookup(root, q).value) == Stored(root) + Stored(s)
  {
    var x := Lookup(root, q).value;
    ReplaceAtWF(root, q, s);
    ReplaceAtStored(root, q, s);
    ReplaceAtSelf(root, q);
    SameContentInvariants(ReplaceAt(root, q, x), root, pos);
    ReplaceAtSwap(root, q, x, s, Entity(0), pos);
    ReplaceAtFlagsUp(root, q, s);
    ReplaceAtLeavesOk(root, q, s);
    ReplaceAtFound(root, q, s);
  }

  /** The collapsed node keeps the invariants when its children held
      nothing; its list is then its own entries. */
  lemma CollapsedKeeps(root: Node, q: Path, pos: Entity -> Point)
    requires Tidy(root, pos) && Lookup(root, q).Some?
    requires |Lookup(root, q).value.allEntities| <= 1
    ensures var x := Lookup(root, q).value; var s1 := Collapsed(x);
      && WF(s1) && WithinCapacity(s1) && Contained(s1, pos) && FlagsUp(s1) && LeavesOk(s1)
      && s1.region == x.region && s1.path == x.path && s1.needLeavesUpdate
      && (!PullsUp(x) ==> EntitiesFresh(s1) && AllEntries(s1) == AllEntries(x) && Stored(s1) == Stored(x))
  {
    var x := Lookup(root, q).value;
    var s1 := Collapsed(x);
    LookupWF(root, q);
    LookupInvariants(root, q, pos);
    LoneEntry(x);
    assert AllEntries(s1) == OwnPairs(x.entities, x.path);
    if !PullsUp(x) {
      EntriesAreStoredSeq(x.children);
    }
  }

  /** A collapse that pulls nothing up: the node keeps the at most one entity
      it stores itself, and its children held nothing. */
  lemma CollapseNoPull(root: Node, q: Path, pos: Entity -> Point)
    requires Tidy(root, pos) && Lookup(root, q).Some?
    requires |Lookup(root, q).value.allEntities| <= 1 && !PullsUp(Lookup(root, q).value)
    ensures var x := Lookup(root, q).value; var r := CollapseAt(root, q, pos);
      && Tidy(r, pos) && Stored(r) == Stored(root) && r.needLeavesUpdate
      && Lookup(r, q) == Some(Collapsed(x))
  {
    var x := Lookup(root, q).value;
    var s1 := Collapsed(x);
    var t := ReplaceAt(root, q, s1);
    assert CollapseAt(root, q, pos) == t;
    CollapsedKeeps(root, q, pos);
    ReplaceAtKeeps(root, q, s1, pos);
    Cancel(Stored(t), Stored(x), Stored(root));
    LookupInvariants(root, q, pos);
    ReplaceAtFresh(root, q, s1);
  }

  /** A node whose right list holds one entry naming a node below it
      stores nothing itself, and its subtree stores that entry's entity. */
  lemma PullLone(x: Node)
    requires WF(x) && EntitiesFresh(x) && |x.allEntities| <= 1 && PullsUp(x)
    ensures var a := x.allEntities[0];
      && x.entities == [] && AllEntries(x) == x.allEntities == [a]
      && Stored(x) == multiset{a.entity} && Under(x.path, a.owner)
      && Swap(x.allEntities, a, Owned(a.entity, x.path)) == [Owned(a.entity, x.path)]
  {
    var a := x.allEntities[0];
    var b := Owned(a.entity, x.path);
    LoneEntry(x);
    assert x.allEntities == [a];
    EntriesAreStoredSeq(x.children);
    assert Stored(x) == multiset(x.entities) + StoredSeq(x.children);
    assert EntitiesOf([a]) == multiset{a.entity} + EntitiesOf([]);
    assert |Swap([a], a, b)| == 1 && Swap([a], a, b)[0] == b;
  }

  /** The facts about the node a pull-up adds to. */
  lemma PullTarget(root: Node, q: Path, pos: Entity -> Point)
    requires Tidy(root, pos) && Lookup(root, q).Some?
    requires |Lookup(root, q).value.allEntities| <= 1 && PullsUp(Lookup(root, q).value)
    ensures var x := Lookup(root, q).value; var a := x.allEntities[0];
      && x.entities == [] && Stored(x) == multiset{a.entity}
      && Intersects(x, a.entity, pos) && Under(root.path + q, a.owner)
      && AllEntries(x) == x.allEntities == [a]
      && Swap(x.allEntities, a, Owned(a.entity, x.path)) == [Owned(a.entity, x.path)]
  {
    var x := Lookup(root, q).value;
    LookupWF(root, q);
    LookupInvariants(root, q, pos);
    PullLone(x);
    ListedInside(x, pos);
    assert x.allEntities[0] in AllEntries(x);
  }

  /** The tree after the collapse, before the re-pointing. */
  lemma PullCollapsed(root: Node, q: Path, pos: Entity -> Point)
    requires Tidy(root, pos) && Lookup(root, q).Some?
    requires |Lookup(root, q).value.allEntities| <= 1 && PullsUp(Lookup(root, q).value)
    ensures var x := Lookup(root, q).value; var t := ReplaceAt(root, q, Collapsed(x));
      && WF(t) && WithinCapacity(t) && Contained(t, pos) && FlagsUp(t) && LeavesOk(t)
      && Lookup(t, q) == Some(Collapsed(x))
      && Stored(t) + multiset{x.allEntities[0].entity} == Stored(root)
  {
    var x := Lookup(root, q).value;
    PullTarget(root, q, pos);
    CollapsedKeeps(root, q, pos);
    ReplaceAtKeeps(root, q, Collapsed(x), pos);
  }

  /** The tree after the collapse and the re-pointing, before the add. */
  lemma PullMiddle(root: Node, q: Path, pos: Entity -> Point)
    requires Tidy(root, pos) && Lookup(root, q).Some?
    requires |Lookup(root, q).value.allEntities| <= 1 && PullsUp(Lookup(root, q).value)
    ensures var x := Lookup(root, q).value; var a := x.allEntities[0];
      var m := Repoint(ReplaceAt(root, q, Collapsed(x)), q, a, Owned(a.entity, x.path));
      var y := Collapsed(x).(allEntities := [Owned(a.entity, x.path)]);
      && Lookup(m, q) == Some(y) && y.entities == [] && y.children == []
      && WF(y) && y.region == x.region && y.path == x.path && y.needLeavesUpdate
      && WF(m) && WithinCapacity(m) && Contained(m, pos) && FlagsUp(m) && LeavesOk(m)
      && Stored(m) + multiset{a.entity} == Stored(root)
      && Intersects(y, a.entity, pos)
  {
    var x := Lookup(root, q).value;
    var a := x.allEntities[0];
    var b := Owned(a.entity, x.path);
    PullTarget(root, q, pos);
    LookupWF(root, q);
    PullCollapsed(root, q, pos);
    var t := ReplaceAt(root, q, Collapsed(x));
    var m := Repoint(t, q, a, b);
    RepointKeeps(t, q, a, b);
    SameContentStored(m, t);
    SameContentInvariants(m, t, pos);
    RepointLookup(t, q, a, b);
  }

  /** The collapsed node once the pulled-up entity is added to it. */
  lemma PulledNode(y: Node, e: Entity, pos: Entity -> Point)
    requires WF(y) && y.children == [] && y.entities == [] && y.needLeavesUpdate
    requires Intersects(y, e, pos) && y.allEntities == [Owned(e, y.path)]
    ensures var s2 := AddHere(y, e);
      && WF(s2) && WithinCapacity(s2) && Contained(s2, pos) && FlagsUp(s2) && LeavesOk(s2)
      && s2.needLeavesUpdate && s2.region == y.region && s2.path == y.path
      && Stored(s2) == multiset{e} && Stored(y) == multiset{}
      && EntitiesFresh(s2) && AllEntries(s2) == [Owned(e, y.path)]
  {
    var s2 := AddHere(y, e);
    assert s2.entities == [e] && s2.children == [];
    assert Stored(s2) == multiset([e]) + StoredSeq([]);
    assert Stored(y) == multiset([]) + StoredSeq([]);
    assert AllEntries(s2) == AllEntriesSeq([]) + OwnPairs([e], y.path);
    assert OwnPairs([e], y.path) == [Owned(e, y.path)];
  }

  /** A collapse that pulls the lone entity up: it is stored once, at the
      collapsed node, and the re-pointed entry lists are right. */
  lemma CollapsePull(root: Node, q: Path, pos: Entity -> Point)
    requires Tidy(root, pos) && Lookup(root, q).Some?
    requires |Lookup(root, q).value.allEntities| <= 1 && PullsUp(Lookup(root, q).value)
    ensures var x := Lookup(root, q).value; var r := CollapseAt(root, q, pos);
      && Tidy(r, pos) && Stored(r) == Stored(root) && r.needLeavesUpdate
      && Lookup(r, q).Some? && Lookup(r, q).value.children == []
      && Lookup(r, q).value.entities == [x.allEntities[0].entity]
  {
    var x := Lookup(root, q).value;
    var a := x.allEntities[0];
    var e, b := a.entity, Owned(a.entity, x.path);
    var m := Repoint(ReplaceAt(root, q, Collapsed(x)), q, a, b);
    var y := Collapsed(x).(allEntities := [b]);
    PullMiddle(root, q, pos);
    PullTarget(root, q, pos);
    LookupWF(root, q);
    var s2 := AddHere(y, e);
    PulledNode(y, e, pos);
    AddAtHere(m, q, e, pos);
    assert CollapseAt(root, q, pos) == ReplaceAt(m, q, s2);
    ReplaceAtKeeps(m, q, s2, pos);
    RepointFresh(root, q, Collapsed(x), s2, a, b);
  }

  /** The collapse keeps every invariant and every stored entity, and
      leaves the node at `q` childless, storing exactly what its subtree
      stored. */
  lemma CollapseKeeps(root: Node, q: Path, pos: Entity -> Point)
    requires Tidy(root, pos) && Lookup(root, q).Some?
    requires |Lookup(root, q).value.allEntities| <= 1
    ensures var x := Lookup(root, q).value; var r := CollapseAt(root, q, pos);
      && Tidy(r, pos) && Stored(r) == Stored(root) && r.needLeavesUpdate
      && Lookup(r, q).Some? && Lookup(r, q).value.children == []
      && multiset(Lookup(r, q).value.entities) == Stored(x)
  {
    var x := Lookup(root, q).value;
    if PullsUp(x) {
      CollapsePull(root, q, pos);
      PullTarget(root, q, pos);
    } else {
      CollapseNoPull(root, q, pos);
      CollapsedKeeps(root, q, pos);
    }
  }

  /** Replacing the root's leaf list while the root is flagged for a leaf
      refresh keeps every invariant, and every lookup below the root. */
  lemma WithLeaves(n: Node, l: seq<Path>, pos: Entity -> Point)
    requires Tidy(n, pos) && n.needLeavesUpdate
    ensures Tidy(n.(leaves := l), pos) && Stored(n.(leaves := l)) == Stored(n)
    ensures n.(leaves := l).needLeavesUpdate
  {
  }

  /** `pruneUp` keeps every invariant and every stored entity. */
  lemma {:induction false} PruneUpKeeps(root: Node, q: Path, pos: Entity -> Point)
    requires Tidy(root, pos)
    ensures Tidy(PruneUp(root, q, pos), pos) && Stored(PruneUp(root, q, pos)) == Stored(root)
    decreases |q|
  {
    match Lookup(root, q)
    case None =>
    case Some(x) =>
      if |x.allEntities| <= 1 {
        CollapseKeeps(root, q, pos);
        var t := CollapseAt(root, q, pos).(leaves := DropSubtrees(root.leaves, x.children));
        WithLeaves(CollapseAt(root, q, pos), DropSubtrees(root.leaves, x.children), pos);
        if q != [] {
          PruneUpKeeps(t, q[..|q| - 1], pos);
        }
      }
  }

  /** The sweep keeps every invariant and every stored entity. */
  lemma {:induction false} SweepKeeps(root: Node, k: nat, pos: Entity -> Point)
    requires Tidy(root, pos) && root.path == []
    ensures Tidy(Sweep(root, k, pos), pos) && Stored(Sweep(root, k, pos)) == Stored(root)
    decreases |root.leaves| - k
  {
    if k < |root.leaves| {
      PruneUpKeeps(root, root.leaves[k], pos);
      SweepKeeps(PruneUp(root, root.leaves[k], pos), k + 1, pos);
    }
  }

  // ----- what the collapse cuts off -----

  /** The node at `p` is gone or childless. */
  ghost predicate Pruned(n: Node, p: Path)
  {
    Lookup(n, p).None? || Lookup(n, p).value.children == []
  }

  /** Nothing is found past a childless node. */
  lemma {:induction false} LookupPastLeaf(n: Node, q: Path, w: Path)
    requires Lookup(n, q).Some? && Lookup(n, q).value.children == [] && w != []
    ensures Lookup(n, q + w).None?
    decreases |q|
  {
    if q == [] {
      assert q + w == w;
    } else {
      assert (q + w)[1..] == q[1..] + w;
      LookupPastLeaf(n.children[q[0]], q[1..], w);
    }
  }

  /** After the collapse at `q`, every node at or below `q` is gone or
      childless, and changing the root's leaf list does not alter that. */
  lemma CollapseCuts(root: Node, q: Path, pos: Entity -> Point, p: Path, l: seq<Path>)
    requires Tidy(root, pos) && Lookup(root, q).Some?
    requires |Lookup(root, q).value.allEntities| <= 1 && Under(q, p)
    ensures Pruned(CollapseAt(root, q, pos).(leaves := l), p)
  {
    var r := CollapseAt(root, q, pos);
    CollapseKeeps(root, q, pos);
    if p != q {
      assert p == q + p[|q|..];
      LookupPastLeaf(r, q, p[|q|..]);
    }
    if p != [] {
      assert Lookup(r.(leaves := l), p) == Lookup(r, p);
    }
  }

  /** `pruneUp` never gives children back to a node at or below where it
      started. */
  lemma {:induction false} PruneUpCuts(root: Node, q: Path, pos: Entity -> Point, p: Path)
    requires Tidy(root, pos) && Under(q, p) && Pruned(root, p)
    ensures Pruned(PruneUp(root, q, pos), p)
    decreases |q|
  {
    match Lookup(root, q)
    case None =>
    case Some(x) =>
      if |x.allEntities| <= 1 {
        var l := DropSubtrees(root.leaves, x.children);
        var t := CollapseAt(root, q, pos).(leaves := l);
        CollapseKeeps(root, q, pos);
        WithLeaves(CollapseAt(root, q, pos), l, pos);
        CollapseCuts(root, q, pos, p, l);
        if q != [] {
          UnderTrans(q[..|q| - 1], q, p);
          PruneUpCuts(t, q[..|q| - 1], pos, p);
        }
      }
  }

  /** `pruneUp` from a node whose list holds at most one entry leaves that
      node childless, or removes it with an ancestor's collapse. */
  lemma PruneUpCollapses(root: Node, q: Path, pos: Entity -> Point)
    requires Tidy(root, pos) && Lookup(root, q).Some?
    requires |Lookup(root, q).value.allEntities| <= 1
    ensures Pruned(PruneUp(root, q, pos), q)
  {
    var x := Lookup(root, q).value;
    var l := DropSubtrees(root.leaves, x.children);
    var t := CollapseAt(root, q, pos).(leaves := l);
    CollapseKeeps(root, q, pos);
    WithLeaves(CollapseAt(root, q, pos), l, pos);
    CollapseCuts(root, q, pos, q, l);
    if q != [] {
      UnderTrans(q[..|q| - 1], q, q);
      PruneUpCuts(t, q[..|q| - 1], pos, q);
    }
  }
}
