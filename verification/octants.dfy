/** Axis-aligned cubes of space (src/Octant.java).
    `Cube` is the fixed geometry of an octant: a corner and an edge length. An
    `Octant` object carries that geometry in constant fields and, beside it, a
    settable cache for the mass and mass centre of what the owning node holds. */
module Octants {
  import opened Vectors

  datatype Cube = Cube(x: real, y: real, z: real, length: real)

  /** contains: half-open on every axis, the corner side closed and the far side open. */
  predicate In(c: Cube, p: Vec): (r: bool)
    ensures r ==> c.length > 0.0
  {
    c.x <= p.x < c.x + c.length &&
    c.y <= p.y < c.y + c.length &&
    c.z <= p.z < c.z + c.length
  }

  /** A cube whose edge is not positive contains no point. */
  lemma {:induction false} NonPositiveEdgeIsEmpty(c: Cube, p: Vec)
    requires c.length <= 0.0
    ensures !In(c, p)
  {
  }

  /** With a positive edge the corner itself is inside and the far corner is outside. */
  lemma {:induction false} CornersOfCube(c: Cube)
    requires c.length > 0.0
    ensures In(c, Vec(c.x, c.y, c.z))
    ensures !In(c, Vec(c.x + c.length, c.y + c.length, c.z + c.length))
  {
  }

  // ---------------------------------------------------------------------------
  // Subdivision: the eight half-size cubes that divide builds, in its order.
  // Bit 0 of the index shifts x by half the edge, bit 1 shifts y, bit 2 shifts z.

  function SubCube(c: Cube, i: nat): (r: Cube)
    requires i < 8
    ensures r.length == c.length / 2.0
  {
    var half := c.length / 2.0;
    Cube(if i % 2 == 1 then c.x + half else c.x,
         if (i / 2) % 2 == 1 then c.y + half else c.y,
         if i / 4 == 1 then c.z + half else c.z,
         half)
  }

  /** The index of the sub-cube a point falls in, read off the three half-way planes. */
  function ChildIndex(c: Cube, p: Vec): (i: nat)
    ensures i < 8
  {
    var half := c.length / 2.0;
    (if p.x < c.x + half then 0 else 1) +
    (if p.y < c.y + half then 0 else 2) +
    (if p.z < c.z + half then 0 else 4)
  }

  /** The eight sub-cubes partition the cube: a point lies in sub-cube i exactly
      when the cube contains it and i is its child index. So every point of the
      cube lies in one sub-cube, no point lies in two, and none lies outside. */
  lemma {:induction false} SubCubesPartition(c: Cube, p: Vec, i: nat)
    requires i < 8
    ensures In(SubCube(c, i), p) <==> In(c, p) && i == ChildIndex(c, p)
  {
    var half := c.length / 2.0;
    var ix, iy, iz := i % 2, (i / 2) % 2, i / 4;
    assert i == ix + 2 * iy + 4 * iz;
    var s := SubCube(c, i);
    assert s.x == if ix == 1 then c.x + half else c.x;
    assert s.y == if iy == 1 then c.y + half else c.y;
    assert s.z == if iz == 1 then c.z + half else c.z;
    assert s.x <= p.x < s.x + half <==>
      c.x <= p.x < c.x + c.length && (ix == 1 <==> c.x + half <= p.x);
    assert s.y <= p.y < s.y + half <==>
      c.y <= p.y < c.y + c.length && (iy == 1 <==> c.y + half <= p.y);
    assert s.z <= p.z < s.z + half <==>
      c.z <= p.z < c.z + c.length && (iz == 1 <==> c.z + half <= p.z);
  }

  /** The same partition, in the form a caller uses: the point's child index names
      the one sub-cube that contains it. */
  lemma {:induction false} ExactlyOneSubCube(c: Cube, p: Vec)
    requires In(c, p)
    ensures In(SubCube(c, ChildIndex(c, p)), p)
    ensures forall i :: 0 <= i < 8 && i != ChildIndex(c, p) ==> !In(SubCube(c, i), p)
  {
    SubCubesPartition(c, p, ChildIndex(c, p));
    forall i | 0 <= i < 8 && i != ChildIndex(c, p)
      ensures !In(SubCube(c, i), p)
    {
      SubCubesPartition(c, p, i);
    }
  }

  /** A point lies in the cube exactly when it lies in one of the eight sub-cubes. */
  lemma {:induction false} InSomeSubCube(c: Cube, p: Vec)
    ensures In(c, p) <==> exists i :: 0 <= i < 8 && In(SubCube(c, i), p)
  {
    if In(c, p) {
      SubCubesPartition(c, p, ChildIndex(c, p));
    }
    forall i | 0 <= i < 8 && In(SubCube(c, i), p)
      ensures In(c, p)
    {
      SubCubesPartition(c, p, i);
    }
  }

  // ---------------------------------------------------------------------------
  // The object.

  class Octant {
    const x: real
    const y: real
    const z: real
    const length: real

    var mass: real
    var massCenter: Vector3?

    /** The geometry the getters return; fixed at construction. */
    function Geometry(): Cube
    {
      Cube(x, y, z, length)
    }

    /** Stores the corner and edge; the cache starts as Java's defaults (0 and null). */
    constructor (x: real, y: real, z: real, length: real)
      ensures Geometry() == Cube(x, y, z, length)
      ensures mass == 0.0 && massCenter == null
    {
      this.x, this.y, this.z, this.length := x, y, z, length;
      mass, massCenter := 0.0, null;
    }

    function GetMass(): real
      reads this
    {
      mass
    }

    function GetMassCenter(): Vector3?
      reads this
    {
      massCenter
    }

    /** setMass: later reads of the mass see m; the centre and the geometry stay. */
    method SetMass(m: real)
      modifies this`mass
      ensures GetMass() == m
      ensures GetMassCenter() == old(GetMassCenter())
    {
      mass := m;
    }

    /** setMassCenter: later reads of the centre see c (the same object); the mass stays. */
    method SetMassCenter(c: Vector3?)
      modifies this`massCenter
      ensures GetMassCenter() == c
      ensures GetMass() == old(GetMass())
    {
      massCenter := c;
    }

    /** contains, on the point's current coordinates: the octant holds the point
        exactly when one of the eight sub-cubes divide builds holds it. */
    predicate Contains(p: Vector3): (r: bool)
      reads p
      ensures r <==> exists i :: 0 <= i < 8 && In(SubCube(Geometry(), i), p.Value())
    {
      InSomeSubCube(Geometry(), p.Value());
      In(Geometry(), p.Value())
    }
  }
}
