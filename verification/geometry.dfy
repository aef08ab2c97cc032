/** Region geometry of an octree node: a closed axis-aligned box given by its
    centre and three half-extents, and the eight octants a node splits into. */
module Geometry {

  datatype Point = Point(x: real, y: real, z: real)

  /** An axis-aligned box: centre `origin` and half-extents along x, y and z. */
  datatype Region = Region(origin: Point, halfwidth: real, halfheight: real, halfdepth: real)

  function Abs(v: real): (r: real)
    ensures r >= 0.0
    ensures r == v || r == -v
  {
    if v < 0.0 then -v else v
  }

  /** The closed box test: points on a face, an edge or a corner are inside. */
  function Contains(b: Region, p: Point): (r: bool)
    ensures r <==>
      && b.origin.x - b.halfwidth <= p.x <= b.origin.x + b.halfwidth
      && b.origin.y - b.halfheight <= p.y <= b.origin.y + b.halfheight
      && b.origin.z - b.halfdepth <= p.z <= b.origin.z + b.halfdepth
  {
    && Abs(p.x - b.origin.x) <= b.halfwidth
    && Abs(p.y - b.origin.y) <= b.halfheight
    && Abs(p.z - b.origin.z) <= b.halfdepth
  }

  /** Sign of the offset of octant `i` from the parent's centre, per axis.
      Octants 0..7 enumerate the eight sign patterns in a fixed order:
      x alternates -,+; y goes +,+,-,- within each group of four; z is + for
      the first four and - for the last four. */
  function XSign(i: nat): real { if i % 2 == 0 then -1.0 else 1.0 }
  function YSign(i: nat): real { if (i / 2) % 2 == 0 then 1.0 else -1.0 }
  function ZSign(i: nat): real { if i < 4 then 1.0 else -1.0 }

  /** The region of child `i` of a node with region `b`: half the extents,
      centred a quarter of the parent's extent away from its centre. The table
      lists the centres in the order the children are created. */
  function Octant(b: Region, i: nat): (c: Region)
    requires i < 8
    ensures c.halfwidth == b.halfwidth / 2.0
    ensures c.halfheight == b.halfheight / 2.0
    ensures c.halfdepth == b.halfdepth / 2.0
    ensures c.origin == Point(b.origin.x + XSign(i) * c.halfwidth,
                              b.origin.y + YSign(i) * c.halfheight,
                              b.origin.z + ZSign(i) * c.halfdepth)
  {
    var qw := b.halfwidth / 2.0;
    var qh := b.halfheight / 2.0;
    var qd := b.halfdepth / 2.0;
    var o := b.origin;
    var centre :=
      if i == 0 then Point(o.x - qw, o.y + qh, o.z + qd)
      else if i == 1 then Point(o.x + qw, o.y + qh, o.z + qd)
      else if i == 2 then Point(o.x - qw, o.y - qh, o.z + qd)
      else if i == 3 then Point(o.x + qw, o.y - qh, o.z + qd)
      else if i == 4 then Point(o.x - qw, o.y + qh, o.z - qd)
      else if i == 5 then Point(o.x + qw, o.y + qh, o.z - qd)
      else if i == 6 then Point(o.x - qw, o.y - qh, o.z - qd)
      else Point(o.x + qw, o.y - qh, o.z - qd);
    Region(centre, qw, qh, qd)
  }

  /** The index of an octant of `b` that holds `p`: the one on the side of the
      centre where `p` lies, taking the + side on a tie. */
  function OctantOf(b: Region, p: Point): (i: nat)
    ensures i < 8
    ensures Contains(b, p) ==> Contains(Octant(b, i), p)
  {
    (if p.x >= b.origin.x then 1 else 0)
    + (if p.y >= b.origin.y then 0 else 2)
    + (if p.z >= b.origin.z then 0 else 4)
  }

  /** Every octant lies inside its parent. */
  lemma OctantInside(b: Region, i: nat, p: Point)
    requires i < 8
    requires Contains(Octant(b, i), p)
    ensures Contains(b, p)
  {
  }

  /** Coordinate `axis` of a point: 0 is x, 1 is y, 2 is z. */
  function Coord(p: Point, axis: nat): real
    requires axis < 3
  {
    if axis == 0 then p.x else if axis == 1 then p.y else p.z
  }

  /** The octant across the mid-plane normal to `axis`: its sign on that
      axis is the opposite of octant `i`'s, and its other two signs are the
      same. */
  function Flip(i: nat, axis: nat): (j: nat)
    requires i < 8 && axis < 3
    ensures j < 8 && j != i
    ensures XSign(j) == (if axis == 0 then -XSign(i) else XSign(i))
    ensures YSign(j) == (if axis == 1 then -YSign(i) else YSign(i))
    ensures ZSign(j) == (if axis == 2 then -ZSign(i) else ZSign(i))
  {
    if axis == 0 then (if i % 2 == 0 then i + 1 else i - 1)
    else if axis == 1 then (if (i / 2) % 2 == 0 then i + 2 else i - 2)
    else (if i < 4 then i + 4 else i - 4)
  }

  /** `p` lies on one of the three planes through the centre of `b` that
      separate its octants. */
  predicate OnMidPlane(b: Region, p: Point)
  {
    p.x == b.origin.x || p.y == b.origin.y || p.z == b.origin.z
  }

  /** A point on the mid-plane normal to `axis` lies in an octant exactly
      when it lies in the octant across that plane; in particular it lies in
      both the octant `OctantOf` picks and the one across from it. */
  lemma OnSharedFace(b: Region, p: Point, i: nat, axis: nat)
    requires i < 8 && axis < 3
    requires Contains(b, p) && Coord(p, axis) == Coord(b.origin, axis)
    ensures Contains(Octant(b, i), p) <==> Contains(Octant(b, Flip(i, axis)), p)
    ensures Contains(Octant(b, OctantOf(b, p)), p)
    ensures Contains(Octant(b, Flip(OctantOf(b, p), axis)), p)
  {
    SharedPair(b, p, i, axis);
    SharedPair(b, p, OctantOf(b, p), axis);
  }

  /** Octants `i` and `Flip(i, axis)` differ only in their sign on `axis`,
      so they meet on the plane through the parent's centre normal to it. */
  lemma SharedPair(b: Region, p: Point, i: nat, axis: nat)
    requires i < 8 && axis < 3 && Coord(p, axis) == Coord(b.origin, axis)
    ensures Contains(Octant(b, i), p) <==> Contains(Octant(b, Flip(i, axis)), p)
  {
    var j := Flip(i, axis);
  }
}
