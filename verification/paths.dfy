/** Nodes addressed by their child-index path, and the operations the update
    cycle applies to one node deep inside the tree: replacing it, removing an
    entity from it, adding an entity to it. Replacing a node puts every
    ancestor back with `Reattach`, so a flag raised at the node is raised on
    each ancestor, as the source's root-ward flag walks do. */
module Paths {
  import opened Geometry
  import opened Octree
  import opened Caches
  import opened AddProps
  import opened CacheUpkeep

  datatype Option<T> = None | Some(value: T)

  /** The node reached from `n` by following the child indices `q`. */
  function Lookup(n: Node, q: seq<nat>): Option<Node>
    decreases |q|
  {
    if q == [] then Some(n)
    else if q[0] < |n.children| then Lookup(n.children[q[0]], q[1..])
    else None
  }

  /** `n` with the node at `q` replaced by `s`, each ancestor's flags raised
      to cover the flags of `s`. An invalid path changes nothing. */
  function ReplaceAt(n: Node, q: seq<nat>, s: Node): Node
    decreases |q|
  {
    if q == [] then s
    else if q[0] < |n.children| then Reattach(n, q[0], ReplaceAt(n.children[q[0]], q[1..], s))
    else n
  }

  /** `remove(e)` called on the node at `q`. */
  function RemoveAt(n: Node, q: seq<nat>, e: Entity): (r: Node)
    requires WF(n)
    ensures WF(r) && r.region == n.region && r.path == n.path
    ensures r.allEntities == n.allEntities && r.leaves == n.leaves
  {
    match Lookup(n, q)
    case None => n
    case Some(x) =>
      LookupWF(n, q);
      ReplaceAtWF(n, q, Remove(x, e));
      ReplaceAt(n, q, Remove(x, e))
  }

  /** `add(e)` called on the node at `q`. */
  function AddAt(n: Node, q: seq<nat>, e: Entity, pos: Entity -> Point): (r: Node)
    requires WF(n)
    ensures WF(r) && r.region == n.region && r.path == n.path
    ensures r.allEntities == n.allEntities && r.leaves == n.leaves
  {
    match Lookup(n, q)
    case None => n
    case Some(x) =>
      LookupWF(n, q);
      ReplaceAtWF(n, q, Add(x, e, pos));
      ReplaceAt(n, q, Add(x, e, pos))
  }

  // ----- looking nodes up -----

  /** In a well-formed tree the node at `q` is well formed, its recorded path
      is `q` appended to the start node's, and its region lies inside the
      start node's. */
  lemma {:induction false} LookupWF(n: Node, q: seq<nat>)
    requires WF(n) && Lookup(n, q).Some?
    ensures WF(Lookup(n, q).value)
    ensures Lookup(n, q).value.path == n.path + q
    ensures forall p :: Contains(Lookup(n, q).value.region, p) ==> Contains(n.region, p)
    decreases |q|
  {
    if q != [] {
      var c := n.children[q[0]];
      LookupWF(c, q[1..]);
      assert c.path + q[1..] == n.path + q by {
        assert q == [q[0]] + q[1..];
      }
      forall p | Contains(c.region, p) ensures Contains(n.region, p) {
        OctantInside(n.region, q[0], p);
      }
    } else {
      assert n.path + q == n.path;
    }
  }

  /** A prefix of a valid path is valid. */
  lemma {:induction false} LookupPrefix(n: Node, q: seq<nat>, k: nat)
    requires Lookup(n, q).Some? && k <= |q|
    ensures Lookup(n, q[..k]).Some?
    decreases |q|
  {
    if k > 0 {
      assert q[..k][1..] == q[1..][..k - 1];
      LookupPrefix(n.children[q[0]], q[1..], k - 1);
    }
  }

  /** Following `q` then `[i]` is following `q + [i]`. */
  lemma {:induction false} LookupChild(n: Node, q: seq<nat>, i: nat)
    requires Lookup(n, q).Some? && i < |Lookup(n, q).value.children|
    ensures Lookup(n, q + [i]) == Some(Lookup(n, q).value.children[i])
    decreases |q|
  {
    if q == [] {
      assert q + [i] == [i];
      assert [i][1..] == [];
    } else {
      assert (q + [i])[1..] == q[1..] + [i];
      LookupChild(n.children[q[0]], q[1..], i);
    }
  }

  /** Everything stored at the node at `q` is stored in the tree. */
  lemma {:induction false} LookupStored(n: Node, q: seq<nat>)
    requires Lookup(n, q).Some?
    ensures Stored(Lookup(n, q).value) <= Stored(n)
    decreases |q|
  {
    if q != [] {
      LookupStored(n.children[q[0]], q[1..]);
      StoredSeqMember(n.children, q[0]);
    }
  }

  /** The invariants hold at every node of a tree where they hold. */
  lemma {:induction false} LookupInvariants(n: Node, q: seq<nat>, pos: Entity -> Point)
    requires Lookup(n, q).Some?
    ensures Contained(n, pos) ==> Contained(Lookup(n, q).value, pos)
    ensures WithinCapacity(n) ==> WithinCapacity(Lookup(n, q).value)
    ensures CacheOk(n) ==> CacheOk(Lookup(n, q).value)
    ensures LeavesOk(n) ==> LeavesOk(Lookup(n, q).value)
    ensures EntitiesFresh(n) ==> EntitiesFresh(Lookup(n, q).value)
    decreases |q|
  {
    if q != [] {
      LookupInvariants(n.children[q[0]], q[1..], pos);
    }
  }

  /** Following `q` one step further than its prefix of length `k`. */
  lemma {:induction false} LookupStep(n: Node, q: seq<nat>, k: nat)
    requires Lookup(n, q).Some? && k < |q|
    ensures Lookup(n, q[..k]).Some?
    ensures q[k] < |Lookup(n, q[..k]).value.children|
    ensures Lookup(n, q[..k + 1]) == Some(Lookup(n, q[..k]).value.children[q[k]])
    decreases |q|
  {
    if k > 0 {
      assert q[..k][1..] == q[1..][..k - 1];
      assert q[..k + 1][1..] == q[1..][..k];
      LookupStep(n.children[q[0]], q[1..], k - 1);
    }
  }

  /** Two trees with the same nodes at the same places, whatever they store. */
  ghost predicate SameShape(a: Node, b: Node)
    decreases a
  {
    && a.region == b.region && a.path == b.path && |a.children| == |b.children|
    && forall i | 0 <= i < |a.children| :: SameShape(a.children[i], b.children[i])
  }

  lemma {:induction false} SameShapeRefl(n: Node)
    ensures SameShape(n, n)
    decreases n
  {
    forall i | 0 <= i < |n.children| {
      SameShapeRefl(n.children[i]);
    }
  }

  /** A path valid in one of two same-shaped trees is valid in the other and
      leads to same-shaped nodes. */
  lemma {:induction false} SameShapeLookup(a: Node, b: Node, q: seq<nat>)
    requires SameShape(a, b) && Lookup(b, q).Some?
    ensures Lookup(a, q).Some? && SameShape(Lookup(a, q).value, Lookup(b, q).value)
    decreases |q|
  {
    if q != [] {
      SameShapeLookup(a.children[q[0]], b.children[q[0]], q[1..]);
    }
  }

  /** Replacing a node by a same-shaped one keeps the shape of the tree. */
  lemma {:induction false} ReplaceAtShape(n: Node, q: seq<nat>, s: Node)
    requires Lookup(n, q).Some? && SameShape(s, Lookup(n, q).value)
    ensures SameShape(ReplaceAt(n, q, s), n)
    decreases |q|
  {
    if q != [] {
      var i := q[0];
      var r := ReplaceAt(n, q, s);
      ReplaceAtShape(n.children[i], q[1..], s);
      forall j | 0 <= j < |n.children| ensures SameShape(r.children[j], n.children[j]) {
        if j != i {
          SameShapeRefl(n.children[j]);
        }
      }
    }
  }

  // ----- replacing a node -----

  /** After the replacement, `q` leads to the new node. */
  lemma {:induction false} ReplaceAtFound(n: Node, q: seq<nat>, s: Node)
    requires Lookup(n, q).Some?
    ensures Lookup(ReplaceAt(n, q, s), q) == Some(s)
    decreases |q|
  {
    if q != [] {
      ReplaceAtFound(n.children[q[0]], q[1..], s);
    }
  }

  /** Replacing a node by one with the same region and path keeps the tree
      well formed, and keeps the root's region and path. */
  lemma {:induction false} ReplaceAtWF(n: Node, q: seq<nat>, s: Node)
    requires WF(n) && Lookup(n, q).Some? && WF(s)
    requires s.region == Lookup(n, q).value.region && s.path == Lookup(n, q).value.path
    ensures WF(ReplaceAt(n, q, s))
    ensures ReplaceAt(n, q, s).region == n.region && ReplaceAt(n, q, s).path == n.path
    decreases |q|
  {
    if q != [] {
      var c := n.children[q[0]];
      ReplaceAtWF(c, q[1..], s);
    }
  }

  /** The stored multiset changes by exactly the difference between the old
      and the new node. */
  lemma {:induction false} ReplaceAtStored(n: Node, q: seq<nat>, s: Node)
    requires Lookup(n, q).Some?
    ensures Stored(ReplaceAt(n, q, s)) + Stored(Lookup(n, q).value) == Stored(n) + Stored(s)
    decreases |q|
  {
    if q != [] {
      var i := q[0];
      var c := n.children[i];
      var c' := ReplaceAt(c, q[1..], s);
      ReplaceAtStored(c, q[1..], s);
      StoredSeqUpdate(n.children, i, c');
      var x := Lookup(n, q).value;
      var a, b, m, o := StoredSeq(n.children[i := c']), StoredSeq(n.children), multiset(n.entities), Stored(c);
      assert a + o == b + Stored(c');
      assert Stored(c') + Stored(x) == o + Stored(s);
      forall y
        ensures (m + a + Stored(x))[y] == (m + b + Stored(s))[y]
      {
        assert (a + o)[y] == (b + Stored(c'))[y];
        assert (Stored(c') + Stored(x))[y] == (o + Stored(s))[y];
      }
    }
  }

  /** Putting back the node that is already there changes only flags. */
  lemma {:induction false} ReplaceAtSelf(n: Node, q: seq<nat>)
    requires Lookup(n, q).Some?
    ensures SameContent(ReplaceAt(n, q, Lookup(n, q).value), n)
    decreases |q|
  {
    if q == [] {
      SameContentRefl(n);
    } else {
      var i := q[0];
      var r := ReplaceAt(n, q, Lookup(n, q).value);
      ReplaceAtSelf(n.children[i], q[1..]);
      forall j | 0 <= j < |n.children| ensures SameContent(r.children[j], n.children[j]) {
        if j != i {
          SameContentRefl(n.children[j]);
        }
      }
    }
  }

  /** The per-node invariants outside the replaced node do not depend on it:
      if they hold with `s` in place and `t` satisfies them, they hold with `t`
      in place. */
  lemma {:induction false} ReplaceAtSwap(n: Node, q: seq<nat>, s: Node, t: Node, e: Entity, pos: Entity -> Point)
    requires Lookup(n, q).Some?
    ensures Contained(ReplaceAt(n, q, s), pos) && Contained(t, pos) ==> Contained(ReplaceAt(n, q, t), pos)
    ensures ContainedBut(ReplaceAt(n, q, s), e, pos) && ContainedBut(t, e, pos)
            ==> ContainedBut(ReplaceAt(n, q, t), e, pos)
    ensures WithinCapacity(ReplaceAt(n, q, s)) && WithinCapacity(t) ==> WithinCapacity(ReplaceAt(n, q, t))
    decreases |q|
  {
    if q != [] {
      var i := q[0];
      ReplaceAtSwap(n.children[i], q[1..], s, t, e, pos);
      var rs, rt := ReplaceAt(n, q, s), ReplaceAt(n, q, t);
      assert forall j | 0 <= j < |rt.children| && j != i :: rt.children[j] == rs.children[j];
    }
  }

  /** Replacing a node keeps both cache invariants when the new node keeps
      them and raised each flag whose list it changed. */
  lemma {:induction false} ReplaceAtCaches(n: Node, q: seq<nat>, s: Node)
    requires Lookup(n, q).Some?
    requires CacheOk(n) && LeavesOk(n) && CacheOk(s) && LeavesOk(s)
    requires s.needAllEntitiesUpdate || AllEntries(s) == AllEntries(Lookup(n, q).value)
    requires s.needLeavesUpdate || Leaves(s) == Leaves(Lookup(n, q).value)
    ensures CacheOk(ReplaceAt(n, q, s)) && LeavesOk(ReplaceAt(n, q, s))
    ensures ReplaceAt(n, q, s).needLeavesUpdate || Leaves(ReplaceAt(n, q, s)) == Leaves(n)
    ensures ReplaceAt(n, q, s).needAllEntitiesUpdate || AllEntries(ReplaceAt(n, q, s)) == AllEntries(n)
    decreases |q|
  {
    if q != [] {
      var i := q[0];
      var c' := ReplaceAt(n.children[i], q[1..], s);
      ReplaceAtCaches(n.children[i], q[1..], s);
      ReattachCaches(n, i, c');
      if !Reattach(n, i, c').needAllEntitiesUpdate {
        AllEntriesSeqUpdate(n.children, i, c');
      }
    }
  }

  /** A flag the new node raises is raised on every node from the root down
      to it. */
  lemma {:induction false} ReplaceAtFlags(n: Node, q: seq<nat>, s: Node, k: nat)
    requires Lookup(n, q).Some? && k <= |q|
    ensures Lookup(ReplaceAt(n, q, s), q[..k]).Some?
    ensures s.needAllEntitiesUpdate ==> Lookup(ReplaceAt(n, q, s), q[..k]).value.needAllEntitiesUpdate
    ensures s.needLeavesUpdate ==> Lookup(ReplaceAt(n, q, s), q[..k]).value.needLeavesUpdate
    ensures q != [] && n.needAllEntitiesUpdate ==> ReplaceAt(n, q, s).needAllEntitiesUpdate
    ensures q != [] && n.needLeavesUpdate ==> ReplaceAt(n, q, s).needLeavesUpdate
    decreases |q|
  {
    if q == [] {
    } else {
      var i := q[0];
      ReplaceAtFlags(n.children[i], q[1..], s, if k == 0 then 0 else k - 1);
      ReplaceAtFlags(n.children[i], q[1..], s, |q| - 1);
      if k > 0 {
        assert q[..k][1..] == q[1..][..k - 1];
        assert q[..k][0] == i;
      } else {
        assert q[1..][..|q| - 1] == q[1..];
      }
    }
  }

  /** Any node the replaced path does not lead through is untouched; its
      ancestors on the path keep their own entities. */
  lemma {:induction false} ReplaceAtOthers(n: Node, q: seq<nat>, s: Node, p: seq<nat>)
    requires Lookup(n, q).Some? && Lookup(n, p).Some?
    requires !(|q| <= |p| && p[..|q|] == q)
    ensures Lookup(ReplaceAt(n, q, s), p).Some?
    ensures Lookup(ReplaceAt(n, q, s), p).value.entities == Lookup(n, p).value.entities
    ensures Lookup(ReplaceAt(n, q, s), p).value.region == Lookup(n, p).value.region
    decreases |q|
  {
    if p != [] && p[0] == q[0] {
      PrefixCons(p, q);
      ReplaceAtOthers(n.children[q[0]], q[1..], s, p[1..]);
    }
  }

  /** `q` is a prefix of `p` exactly when their tails are, given equal heads. */
  lemma PrefixCons(p: seq<nat>, q: seq<nat>)
    requires p != [] && q != [] && p[0] == q[0]
    ensures (|q| <= |p| && p[..|q|] == q) <==> (|q[1..]| <= |p[1..]| && p[1..][..|q[1..]|] == q[1..])
  {
    if |q| <= |p| {
      assert p[..|q|] == [p[0]] + p[1..][..|q| - 1];
      assert q == [q[0]] + q[1..];
    }
  }

  // ----- removing at a path, adding at a path -----

  /** `remove(e)` on the node at `q` takes away the first copy of `e` there
      and leaves its children, keeps the tree well formed, and raises the
      all-entities flag on that node and on every ancestor. */
  lemma RemoveAtShape(n: Node, q: seq<nat>, e: Entity)
    requires WF(n) && Lookup(n, q).Some?
    ensures var x := Lookup(n, q).value; var r := RemoveAt(n, q, e);
      && WF(r) && r.region == n.region && r.path == n.path
      && Lookup(r, q).Some?
      && Lookup(r, q).value.entities == RemoveFirst(x.entities, e)
      && Lookup(r, q).value.children == x.children
      && (forall k | 0 <= k <= |q| ::
            Lookup(r, q[..k]).Some? && Lookup(r, q[..k]).value.needAllEntitiesUpdate)
      && SameShape(r, n)
  {
    var x := Lookup(n, q).value;
    var s := Remove(x, e);
    var r := RemoveAt(n, q, e);
    LookupWF(n, q);
    ReplaceAtWF(n, q, s);
    ReplaceAtFound(n, q, s);
    SameShapeRefl(x);
    ReplaceAtShape(n, q, s);
    forall k | 0 <= k <= |q|
      ensures Lookup(r, q[..k]).Some? && Lookup(r, q[..k]).value.needAllEntitiesUpdate
    {
      ReplaceAtFlags(n, q, s, k);
    }
  }

  /** `remove(e)` on the node at `q` takes one copy of `e` out of the tree
      when that node holds it, and changes nothing stored otherwise. */
  lemma RemoveAtStored(n: Node, q: seq<nat>, e: Entity)
    requires WF(n) && Lookup(n, q).Some?
    ensures e in Lookup(n, q).value.entities ==> Stored(RemoveAt(n, q, e)) == Stored(n) - multiset{e}
    ensures e !in Lookup(n, q).value.entities ==> Stored(RemoveAt(n, q, e)) == Stored(n)
  {
    var x := Lookup(n, q).value;
    var s := Remove(x, e);
    ReplaceAtStored(n, q, s);
    RemoveStored(x, e);
    assert RemoveAt(n, q, e) == ReplaceAt(n, q, s);
    if e in x.entities {
      MultisetShift(Stored(RemoveAt(n, q, e)), Stored(x), Stored(n), Stored(s), e);
    } else {
      Cancel(Stored(RemoveAt(n, q, e)), Stored(x), Stored(n));
    }
  }

  lemma Cancel(r: multiset<Entity>, x: multiset<Entity>, n: multiset<Entity>)
    requires r + x == n + x
    ensures r == n
  {
    forall y ensures r[y] == n[y] {
      assert (r + x)[y] == (n + x)[y];
    }
  }

  /** `remove(e)` takes one copy of `e` out of the subtree when the node
      itself holds it, and nothing otherwise. */
  lemma RemoveStored(x: Node, e: Entity)
    ensures e in x.entities ==> Stored(Remove(x, e)) == Stored(x) - multiset{e}
    ensures e !in x.entities ==> Stored(Remove(x, e)) == Stored(x)
  {
    var s := Remove(x, e);
    assert Stored(s) == multiset(s.entities) + StoredSeq(x.children);
    MinusPlus(multiset(x.entities), StoredSeq(x.children), e);
  }

  /** Taking one `e` out of the first part of a sum. */
  lemma MinusPlus(a: multiset<Entity>, b: multiset<Entity>, e: Entity)
    ensures e in a ==> (a - multiset{e}) + b == (a + b) - multiset{e}
    ensures e !in a ==> a - multiset{e} == a
  {
    if e in a {
      forall y ensures ((a - multiset{e}) + b)[y] == ((a + b) - multiset{e})[y] {
      }
    } else {
      forall y ensures (a - multiset{e})[y] == a[y] {
      }
    }
  }

  /** `remove(e)` on the node at `q` keeps the position and capacity
      invariants. */
  lemma RemoveAtInvariants(n: Node, q: seq<nat>, e: Entity, pos: Entity -> Point)
    requires WF(n) && Lookup(n, q).Some?
    ensures var r := RemoveAt(n, q, e);
      && (Contained(n, pos) ==> Contained(r, pos))
      && (ContainedBut(n, e, pos) ==> ContainedBut(r, e, pos))
      && (WithinCapacity(n) ==> WithinCapacity(r))
  {
    var x := Lookup(n, q).value;
    var s := Remove(x, e);
    assert RemoveAt(n, q, e) == ReplaceAt(n, q, s);
    LookupInvariants(n, q, pos);
    ReplaceAtSelf(n, q);
    SameContentInvariants(ReplaceAt(n, q, x), n, pos);
    SameContentContainedBut(ReplaceAt(n, q, x), n, e, pos);
    if Contained(n, pos) {
      RemoveKeepsContained(x, e, pos);
    }
    if WithinCapacity(n) {
      RemoveKeepsCapacity(x, e);
    }
    if ContainedBut(n, e, pos) {
      LookupContainedBut(n, q, e, pos);
      RemoveKeepsContainedBut(x, e, pos);
    }
    ReplaceAtSwap(n, q, x, s, e, pos);
  }

  /** `remove(e)` on the node at `q` keeps both cache invariants and does not
      change the leaves. */
  lemma RemoveAtCaches(n: Node, q: seq<nat>, e: Entity)
    requires WF(n) && Lookup(n, q).Some? && CacheOk(n) && LeavesOk(n)
    ensures var r := RemoveAt(n, q, e);
      CacheOk(r) && LeavesOk(r) && (r.needLeavesUpdate || Leaves(r) == Leaves(n))
  {
    var x := Lookup(n, q).value;
    var s := Remove(x, e);
    assert RemoveAt(n, q, e) == ReplaceAt(n, q, s);
    LookupInvariants(n, q, (_: Entity) => Point(0.0, 0.0, 0.0));
    RemoveCaches(x, e);
    ReplaceAtCaches(n, q, s);
  }

  /** From `r + x == n + s` with `s` being `x` less one `e`. */
  lemma MultisetShift(r: multiset<Entity>, x: multiset<Entity>, n: multiset<Entity>, s: multiset<Entity>, e: Entity)
    requires r + x == n + s && e in x && s == x - multiset{e}
    ensures r == n - multiset{e}
  {
    forall y ensures r[y] == (n - multiset{e})[y] {
      assert (r + x)[y] == (n + s)[y];
    }
  }

  lemma RemoveKeepsElements(x: Node, e: Entity)
    ensures forall k | 0 <= k < |Remove(x, e).entities| :: Remove(x, e).entities[k] in x.entities
  {
    var r := Remove(x, e);
    forall k | 0 <= k < |r.entities| ensures r.entities[k] in x.entities {
      assert r.entities[k] in multiset(r.entities);
    }
  }

  lemma RemoveKeepsContained(x: Node, e: Entity, pos: Entity -> Point)
    requires Contained(x, pos)
    ensures Contained(Remove(x, e), pos)
  {
    RemoveKeepsElements(x, e);
    var r := Remove(x, e);
    assert forall k | 0 <= k < |r.entities| :: r.entities[k] in x.entities;
  }

  /** A node whose only possibly stray entity was `e` is contained once `e`
      lies in its region. */
  lemma RestoreContained(x: Node, e: Entity, pos: Entity -> Point)
    requires Contained(Remove(x, e), pos) && Intersects(x, e, pos)
    ensures Contained(x, pos)
  {
    var r := Remove(x, e);
    RestoreInRegion(x.entities, r.entities, e, x.region, pos);
    assert forall i | 0 <= i < |x.children| :: x.children[i] == r.children[i];
  }

  lemma RestoreInRegion(xs: seq<Entity>, rs: seq<Entity>, e: Entity, b: Region, pos: Entity -> Point)
    requires multiset(rs) == multiset(xs) - multiset{e}
    requires forall j | 0 <= j < |rs| :: Contains(b, pos(rs[j]))
    requires Contains(b, pos(e))
    ensures forall k | 0 <= k < |xs| :: Contains(b, pos(xs[k]))
  {
    forall k | 0 <= k < |xs| ensures Contains(b, pos(xs[k])) {
      var y := xs[k];
      if y != e {
        assert multiset(xs)[y] > 0;
        assert y in multiset(rs);
        var j :| 0 <= j < |rs| && rs[j] == y;
      }
    }
  }

  lemma RemoveKeepsContainedBut(x: Node, e: Entity, pos: Entity -> Point)
    requires ContainedBut(x, e, pos)
    ensures ContainedBut(Remove(x, e), e, pos)
  {
    RemoveKeepsElements(x, e);
  }

  lemma RemoveKeepsCapacity(x: Node, e: Entity)
    requires WithinCapacity(x)
    ensures WithinCapacity(Remove(x, e))
  {
    var r := Remove(x, e);
    assert |r.entities| <= |x.entities| by {
      assert |multiset(r.entities)| <= |multiset(x.entities)|;
    }
    assert forall j | 0 <= j < |r.children| :: r.children[j] == x.children[j];
  }

  /** Every stored entity other than `e` lies in the region of its node. */
  ghost predicate ContainedBut(n: Node, e: Entity, pos: Entity -> Point)
    decreases n
  {
    && (forall k | 0 <= k < |n.entities| && n.entities[k] != e :: Contains(n.region, pos(n.entities[k])))
    && forall i | 0 <= i < |n.children| :: ContainedBut(n.children[i], e, pos)
  }

  lemma {:induction false} LookupContainedBut(n: Node, q: seq<nat>, e: Entity, pos: Entity -> Point)
    requires Lookup(n, q).Some? && ContainedBut(n, e, pos)
    ensures ContainedBut(Lookup(n, q).value, e, pos)
    decreases |q|
  {
    if q != [] {
      LookupContainedBut(n.children[q[0]], q[1..], e, pos);
    }
  }

  lemma {:induction false} SameContentContainedBut(a: Node, b: Node, e: Entity, pos: Entity -> Point)
    requires SameContent(a, b)
    ensures ContainedBut(a, e, pos) <==> ContainedBut(b, e, pos)
    decreases a
  {
    forall i | 0 <= i < |a.children| {
      SameContentContainedBut(a.children[i], b.children[i], e, pos);
    }
  }

  /** Containment of all entities but `e` is containment once `e` is stored
      nowhere. */
  lemma {:induction false} ContainedButAbsent(n: Node, e: Entity, pos: Entity -> Point)
    requires ContainedBut(n, e, pos) && e !in Stored(n)
    ensures Contained(n, pos)
    decreases n
  {
    forall i | 0 <= i < |n.children| ensures Contained(n.children[i], pos) {
      StoredSeqMember(n.children, i);
      ContainedButAbsent(n.children[i], e, pos);
    }
    assert forall k | 0 <= k < |n.entities| :: n.entities[k] in multiset(n.entities);
  }

  lemma {:induction false} ContainedIsContainedBut(n: Node, e: Entity, pos: Entity -> Point)
    requires Contained(n, pos)
    ensures ContainedBut(n, e, pos)
    decreases n
  {
    forall i | 0 <= i < |n.children| {
      ContainedIsContainedBut(n.children[i], e, pos);
    }
  }

  /** `add(e)` on the node at `q` keeps the tree well formed and the caches'
      invariants; it never invents an entity other than `e`, and when `e`
      lies in that node's region and all stored entities lie in their nodes,
      it stores `e` exactly once more and keeps every entity inside its
      node. */
  lemma AddAtSpec(n: Node, q: seq<nat>, e: Entity, pos: Entity -> Point)
    requires WF(n) && Lookup(n, q).Some? && WithinCapacity(n)
    ensures var x := Lookup(n, q).value; var r := AddAt(n, q, e, pos);
      && WF(r) && r.region == n.region && r.path == n.path
      && WithinCapacity(r)
      && Stored(r) <= Stored(n) + multiset{e}
      && (Contained(n, pos) && Intersects(x, e, pos) ==>
            Stored(r) == Stored(n) + multiset{e} && Contained(r, pos))
      && (CacheOk(n) && LeavesOk(n) ==>
            CacheOk(r) && LeavesOk(r) && (r.needLeavesUpdate || Leaves(r) == Leaves(n)))
  {
    var x := Lookup(n, q).value;
    LookupWF(n, q);
    LookupInvariants(n, q, pos);
    var s := Add(x, e, pos);
    var r := AddAt(n, q, e, pos);
    assert r == ReplaceAt(n, q, s);
    ReplaceAtWF(n, q, s);
    ReplaceAtStored(n, q, s);
    AddKeeps(x, e, pos);
    ReplaceAtSelf(n, q);
    SameContentInvariants(ReplaceAt(n, q, x), n, pos);
    ReplaceAtSwap(n, q, x, s, e, pos);
    BoundedShift(Stored(r), Stored(x), Stored(n), Stored(s), e);
    if Contained(n, pos) && Intersects(x, e, pos) {
      AddStores(x, e, pos);
      assert Stored(r) + Stored(x) == Stored(n) + (Stored(x) + multiset{e});
      ExactShift(Stored(r), Stored(x), Stored(n), e);
    }
    if CacheOk(n) && LeavesOk(n) {
      AddCaches(x, e, pos);
      if !s.needAllEntitiesUpdate {
        assert s == x;
      }
      ReplaceAtCaches(n, q, s);
    }
  }

  lemma BoundedShift(r: multiset<Entity>, x: multiset<Entity>, n: multiset<Entity>, s: multiset<Entity>, e: Entity)
    requires r + x == n + s && s <= x + multiset{e}
    ensures r <= n + multiset{e}
  {
    forall y ensures r[y] <= (n + multiset{e})[y] {
      assert (r + x)[y] == (n + s)[y];
    }
  }

  lemma ExactShift(r: multiset<Entity>, x: multiset<Entity>, n: multiset<Entity>, e: Entity)
    requires r + x == n + (x + multiset{e})
    ensures r == n + multiset{e}
  {
    forall y ensures r[y] == (n + multiset{e})[y] {
      assert (r + x)[y] == (n + (x + multiset{e}))[y];
    }
  }
}
