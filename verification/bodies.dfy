/** Celestial bodies (src/Body.java).
    `BodyState` is what a body's mass, position and movement amount to at one
    moment; `Moved` and `Merged` are the step and the collision as values, and the
    `Body` class keeps the object with its three vector references. */
module Bodies {
  import opened Vectors

  /** The mass, the position of the mass centre and the current movement (the
      displacement per step) of a body. */
  datatype BodyState = BodyState(mass: real, pos: Vec, mov: Vec)

  // ---------------------------------------------------------------------------
  // move, as a value: the force divided by the mass is added to the position
  // together with the current movement, and the movement becomes the displacement.

  function Moved(s: BodyState, force: Vec): (r: BodyState)
    requires s.mass != 0.0
    ensures r.mass == s.mass
  {
    var newPosition := Add(Add(s.pos, Scale(force, 1.0 / s.mass)), s.mov);
    var newMovement := Sub(newPosition, s.pos);
    BodyState(s.mass, newPosition, newMovement)
  }

  /** The new movement is the old one plus the force over the mass (a unit time
      step of Newton's second law), and the body has moved by exactly its new
      movement. */
  lemma {:induction false} MovedObeysNewton(s: BodyState, force: Vec)
    requires s.mass != 0.0
    ensures Moved(s, force).mov == Add(s.mov, Scale(force, 1.0 / s.mass))
    ensures Moved(s, force).pos == Add(s.pos, Moved(s, force).mov)
  {
  }

  /** The momentum changes by exactly the force: m * v' == m * v + F. */
  lemma {:induction false} MovedImpulse(s: BodyState, force: Vec)
    requires s.mass != 0.0
    ensures Scale(Moved(s, force).mov, s.mass) == Add(Scale(s.mov, s.mass), force)
  {
    var m := s.mass;
    var r := Moved(s, force);
    ScaleThenUnscale(force, m);
    assert r.mov == Add(s.mov, Scale(force, 1.0 / m));
    ScaleDistributes(s.mov, Scale(force, 1.0 / m), m);
  }

  /** Without a force a body keeps its movement and drifts by it. */
  lemma {:induction false} MovedWithoutForce(s: BodyState)
    requires s.mass != 0.0
    ensures Moved(s, Zero) == BodyState(s.mass, Add(s.pos, s.mov), s.mov)
  {
    MovedObeysNewton(s, Zero);
  }

  // ---------------------------------------------------------------------------
  // merge, as a value: masses add, and position and movement are the
  // mass-weighted averages of the two bodies'.

  function Merged(a: BodyState, b: BodyState): (r: BodyState)
    requires a.mass + b.mass != 0.0
    ensures r.mass == a.mass + b.mass
  {
    var m := a.mass + b.mass;
    var inverse := 1.0 / m;
    BodyState(m,
      Scale(Add(Scale(a.pos, a.mass), Scale(b.pos, b.mass)), inverse),
      Scale(Add(Scale(a.mov, a.mass), Scale(b.mov, b.mass)), inverse))
  }

  /** The momentum (impulse) of the merged body is the sum of the two momenta, and
      its mass-weighted position is the sum of the two mass-weighted positions:
      the merged body sits at the common centre of mass. */
  lemma {:induction false} MergeConservesMomentum(a: BodyState, b: BodyState)
    requires a.mass + b.mass != 0.0
    ensures Scale(Merged(a, b).mov, Merged(a, b).mass)
         == Add(Scale(a.mov, a.mass), Scale(b.mov, b.mass))
    ensures Scale(Merged(a, b).pos, Merged(a, b).mass)
         == Add(Scale(a.pos, a.mass), Scale(b.pos, b.mass))
  {
    var m := a.mass + b.mass;
    UnscaleThenScale(Add(Scale(a.mov, a.mass), Scale(b.mov, b.mass)), m);
    UnscaleThenScale(Add(Scale(a.pos, a.mass), Scale(b.pos, b.mass)), m);
  }

  /** Merging does not depend on the order of the two bodies. */
  lemma {:induction false} MergeCommutes(a: BodyState, b: BodyState)
    requires a.mass + b.mass != 0.0
    ensures Merged(a, b) == Merged(b, a)
  {
    assert b.mass + a.mass == a.mass + b.mass;
    AddCommutes(Scale(a.pos, a.mass), Scale(b.pos, b.mass));
    AddCommutes(Scale(a.mov, a.mass), Scale(b.mov, b.mass));
  }

  /** Two bodies at the same place with the same movement merge into a body there,
      with that movement. */
  lemma {:induction false} MergeOfCoincident(a: BodyState, b: BodyState)
    requires a.mass + b.mass != 0.0
    requires a.pos == b.pos && a.mov == b.mov
    ensures Merged(a, b).pos == a.pos && Merged(a, b).mov == a.mov
  {
    var m := a.mass + b.mass;
    WeightedSumOfSame(a.pos, a.mass, b.mass);
    WeightedSumOfSame(a.mov, a.mass, b.mass);
    ScaleThenUnscale(a.pos, m);
    ScaleThenUnscale(a.mov, m);
  }

  // Vector algebra the lemmas above rest on.

  lemma ScaleThenUnscale(v: Vec, d: real)
    requires d != 0.0
    ensures Scale(Scale(v, d), 1.0 / d) == v
  {
    assert v.x * d * (1.0 / d) == v.x;
    assert v.y * d * (1.0 / d) == v.y;
    assert v.z * d * (1.0 / d) == v.z;
  }

  lemma UnscaleThenScale(v: Vec, d: real)
    requires d != 0.0
    ensures Scale(Scale(v, 1.0 / d), d) == v
  {
    assert v.x * (1.0 / d) * d == v.x;
    assert v.y * (1.0 / d) * d == v.y;
    assert v.z * (1.0 / d) * d == v.z;
  }

  lemma ScaleDistributes(v: Vec, w: Vec, d: real)
    ensures Scale(Add(v, w), d) == Add(Scale(v, d), Scale(w, d))
  {
    assert (v.x + w.x) * d == v.x * d + w.x * d;
    assert (v.y + w.y) * d == v.y * d + w.y * d;
    assert (v.z + w.z) * d == v.z * d + w.z * d;
  }

  lemma WeightedSumOfSame(v: Vec, p: real, q: real)
    ensures Add(Scale(v, p), Scale(v, q)) == Scale(v, p + q)
  {
    assert v.x * p + v.x * q == v.x * (p + q);
    assert v.y * p + v.y * q == v.y * (p + q);
    assert v.z * p + v.z * q == v.z * (p + q);
  }

  lemma AddCommutes(v: Vec, w: Vec)
    ensures Add(v, w) == Add(w, v)
  {
  }

  // ---------------------------------------------------------------------------
  // The object. Position and movement are references: the constructor keeps the
  // vectors it is given, and move and merge only ever install new vectors.

  class Body {
    const mass: real
    var massCenter: Vector3
    var currentMovement: Vector3
    var gravitationalForce: Vector3

    /** The body's state as seen through its current vector references. */
    function State(): BodyState
      reads this, massCenter, currentMovement
    {
      BodyState(mass, massCenter.Value(), currentMovement.Value())
    }

    /** Keeps the two given vectors themselves (not copies) and starts with a new
        zero force vector. */
    constructor (mass: real, massCenter: Vector3, currentMovement: Vector3)
      ensures this.mass == mass
      ensures this.massCenter == massCenter && this.currentMovement == currentMovement
      ensures fresh(gravitationalForce) && gravitationalForce.Value() == Zero
    {
      this.mass := mass;
      this.massCenter := massCenter;
      this.currentMovement := currentMovement;
      var f := new Vector3.Origin();
      this.gravitationalForce := f;
    }

    method SetGravitationalForce(f: Vector3)
      modifies this`gravitationalForce
      ensures GetGravitationalForce() == f
    {
      gravitationalForce := f;
    }

    function GetGravitationalForce(): Vector3
      reads this
    {
      gravitationalForce
    }

    /** mass() */
    function Mass(): real
    {
      mass
    }

    /** The current position, read through the mass-centre reference. */
    function Position(): Vec
      reads this, massCenter
    {
      massCenter.Value()
    }

    /** massCenter(): the position vector itself, not a copy. */
    function MassCenter(): Vector3
      reads this
    {
      massCenter
    }

    /** distanceTo: the distance between the two mass centres. */
    function DistanceTo(b: Body): (r: real)
      reads this, b, massCenter, b.massCenter
      requires HasSquareRoot(SumOfSquares(Sub(massCenter.Value(), b.massCenter.Value())))
      ensures r >= 0.0
      ensures r == Distance(State().pos, b.State().pos)
    {
      massCenter.DistanceTo(b.massCenter)
    }

    /** move: installs new position and movement vectors computed by `Moved`; the
        old vectors, the force and every other object are left as they were. */
    method Move(force: Vector3)
      requires mass != 0.0
      modifies this`massCenter, this`currentMovement
      ensures fresh(massCenter) && fresh(currentMovement)
      ensures State() == Moved(old(State()), force.Value())
    {
      var scaled := force.Times(1.0 / mass);
      var shifted := massCenter.Plus(scaled);
      var newPosition := shifted.Plus(currentMovement);
      var newMovement := newPosition.Minus(massCenter);
      massCenter := newPosition;
      currentMovement := newMovement;
    }

    /** merge: a new body with new vectors whose state is `Merged`; neither body changes. */
    method Merge(b: Body) returns (r: Body)
      requires mass + b.mass != 0.0
      ensures fresh(r) && fresh(r.massCenter) && fresh(r.currentMovement)
      ensures r.State() == Merged(State(), b.State())
    {
      var m := mass + b.mass;
      var p1 := massCenter.Times(mass);
      var p2 := b.massCenter.Times(b.mass);
      var ps := p1.Plus(p2);
      var pos := ps.Times(1.0 / m);
      var v1 := currentMovement.Times(mass);
      var v2 := b.currentMovement.Times(b.mass);
      var vs := v1.Plus(v2);
      var mov := vs.Times(1.0 / m);
      r := new Body(m, pos, mov);
    }
  }
}
