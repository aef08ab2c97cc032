/** The queue of entities whose position changed since the last update. The
    whole tree shares one queue; a moved entity is queued once, however often
    it moves, and the update takes it off the queue when it re-homes it. */
module Pending {
  import opened Octree

  /** No element occurs twice. */
  ghost predicate NoDup<T>(s: seq<T>)
  {
    forall i, j | 0 <= i < j < |s| :: s[i] != s[j]
  }

  /** `onEntityPoseChanged`: queues `e` at the back unless it is queued. */
  function OnEntityPoseChanged(queue: seq<Entity>, e: Entity): (r: seq<Entity>)
    ensures forall x :: x in r <==> x in queue || x == e
    ensures |queue| <= |r| <= |queue| + 1 && r[..|queue|] == queue
    ensures e in queue <==> |r| == |queue|
    ensures NoDup(queue) ==> NoDup(r)
  {
    if e in queue then queue else queue + [e]
  }

  /** Reporting the same move twice queues the entity once. */
  lemma PoseChangedIdempotent(queue: seq<Entity>, e: Entity)
    ensures OnEntityPoseChanged(OnEntityPoseChanged(queue, e), e) == OnEntityPoseChanged(queue, e)
  {
  }

  /** Taking the first occurrence of `x` off a queue without duplicates
      takes `x` off entirely and keeps every other entity. */
  lemma RemoveFirstNoDup(s: seq<Entity>, x: Entity)
    requires NoDup(s)
    ensures NoDup(RemoveFirst(s, x))
    ensures forall y :: y in RemoveFirst(s, x) <==> y in s && y != x
  {
    RemoveFirstKeepsNoDup(s, x);
    RemoveFirstMembers(s, x);
  }

  lemma {:induction false} RemoveFirstKeepsNoDup(s: seq<Entity>, x: Entity)
    requires NoDup(s)
    ensures NoDup(RemoveFirst(s, x))
  {
    if s != [] {
      var t := s[1..];
      TailNoDup(s);
      RemoveFirstKeepsNoDup(t, x);
      if s[0] != x {
        var r := RemoveFirst(t, x);
        assert RemoveFirst(s, x) == [s[0]] + r;
        RemoveFirstSubset(t, x);
        ConsNoDup(s[0], r);
      }
    }
  }

  lemma {:induction false} RemoveFirstMembers(s: seq<Entity>, x: Entity)
    requires NoDup(s)
    ensures forall y :: y in RemoveFirst(s, x) <==> y in s && y != x
  {
    if s != [] {
      var t := s[1..];
      TailNoDup(s);
      RemoveFirstMembers(t, x);
      assert s == [s[0]] + t;
      if s[0] != x {
        assert RemoveFirst(s, x) == [s[0]] + RemoveFirst(t, x);
      }
    }
  }

  /** The tail of a sequence without duplicates has none, nor its head. */
  lemma TailNoDup(s: seq<Entity>)
    requires NoDup(s) && s != []
    ensures NoDup(s[1..]) && s[0] !in s[1..]
  {
    var t := s[1..];
    forall i, j | 0 <= i < j < |t| ensures t[i] != t[j] {
      assert t[i] == s[i + 1] && t[j] == s[j + 1];
    }
    forall i | 0 <= i < |t| ensures t[i] != s[0] {
      assert t[i] == s[i + 1];
    }
  }

  lemma ConsNoDup(a: Entity, r: seq<Entity>)
    requires NoDup(r) && a !in r
    ensures NoDup([a] + r)
  {
    var s := [a] + r;
    forall i, j | 0 <= i < j < |s| ensures s[i] != s[j] {
      assert s[j] == r[j - 1];
      if i > 0 {
        assert s[i] == r[i - 1];
      }
    }
  }

  lemma {:induction false} RemoveFirstSubset(s: seq<Entity>, x: Entity)
    ensures forall y :: y in RemoveFirst(s, x) ==> y in s
  {
    if s != [] {
      RemoveFirstSubset(s[1..], x);
      assert s == [s[0]] + s[1..];
      if s[0] != x {
        assert RemoveFirst(s, x) == [s[0]] + RemoveFirst(s[1..], x);
      }
    }
  }
}
