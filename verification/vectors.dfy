/** Three-component real vectors (src/Vector3.java).
    `Vec` is the value a `Vector3` object holds; the functions over `Vec` say what the
    methods of `Vector3` compute, and the class keeps the in-place `Normalize`. */
module Vectors {

  datatype Vec = Vec(x: real, y: real, z: real)

  /** The vector the no-argument constructor builds. */
  const Zero: Vec := Vec(0.0, 0.0, 0.0)

  // ---------------------------------------------------------------------------
  // Square root. Math.sqrt is the library's; here it is the non-negative root,
  // defined wherever one exists (over the reals: at every non-negative number).

  predicate IsSqrtOf(r: real, s: real) {
    0.0 <= s && s * s == r
  }

  ghost predicate HasSquareRoot(r: real) {
    exists s :: IsSqrtOf(r, s)
  }

  lemma SqrtUnique(r: real, a: real, b: real)
    requires IsSqrtOf(r, a) && IsSqrtOf(r, b)
    ensures a == b
  {
    if a != b {
      var lo, hi := if a < b then a else b, if a < b then b else a;
      assert hi * hi - lo * lo == (hi - lo) * (hi + lo);
      ProductPositive(hi - lo, hi + lo);
      assert false;
    }
  }

  lemma NonNegativeProduct(p: real, q: real)
    requires p >= 0.0 && q >= 0.0
    ensures p * q >= 0.0
  {
    if p > 0.0 && q > 0.0 {
      ProductPositive(p, q);
    }
  }

  lemma ProductPositive(p: real, q: real)
    requires p > 0.0 && q > 0.0
    ensures p * q > 0.0
  {
  }

  function Sqrt(r: real): (s: real)
    requires HasSquareRoot(r)
    ensures IsSqrtOf(r, s)
  {
    assert forall a, b :: IsSqrtOf(r, a) && IsSqrtOf(r, b) ==> a == b by {
      forall a, b | IsSqrtOf(r, a) && IsSqrtOf(r, b) ensures a == b {
        SqrtUnique(r, a, b);
      }
    }
    var s :| IsSqrtOf(r, s); s
  }

  // ---------------------------------------------------------------------------
  // Arithmetic (plus, times, minus). Each returns a new vector and reads its
  // operands only.

  /** plus: componentwise sum. */
  function Add(a: Vec, b: Vec): (r: Vec)
    ensures a == Zero ==> r == b
    ensures b == Zero ==> r == a
  {
    Vec(a.x + b.x, a.y + b.y, a.z + b.z)
  }

  /** times: every component multiplied by d. */
  function Scale(v: Vec, d: real): (r: Vec)
    ensures d == 1.0 ==> r == v
    ensures d == 0.0 || v == Zero ==> r == Zero
  {
    Vec(v.x * d, v.y * d, v.z * d)
  }

  /** Scaling by d scales the summed squares by d * d. */
  lemma {:induction false} SumOfSquaresOfScaled(v: Vec, d: real)
    ensures SumOfSquares(Scale(v, d)) == d * d * SumOfSquares(v)
  {
    var r := Scale(v, d);
    assert r.x * r.x == d * d * (v.x * v.x);
    assert r.y * r.y == d * d * (v.y * v.y);
    assert r.z * r.z == d * d * (v.z * v.z);
  }

  /** minus: the sum with -1 * b, so adding b back gives a. */
  function Sub(a: Vec, b: Vec): (r: Vec)
    ensures Add(r, b) == a
    ensures b == Zero ==> r == a
    ensures r == Zero <==> a == b
  {
    Vec(a.x - b.x, a.y - b.y, a.z - b.z)
  }

  lemma {:induction false} PlusThenMinus(v: Vec, w: Vec)
    ensures Sub(Add(v, w), w) == v
  {
  }

  // ---------------------------------------------------------------------------
  // Distance and length.

  /** The quantity distanceTo takes the root of: the sum of squared components. */
  function SumOfSquares(v: Vec): real
  {
    v.x * v.x + v.y * v.y + v.z * v.z
  }

  /** distanceTo: the Euclidean distance from a to b. */
  function Distance(a: Vec, b: Vec): (r: real)
    requires HasSquareRoot(SumOfSquares(Sub(a, b)))
    ensures r >= 0.0
    ensures r * r == SumOfSquares(Sub(a, b))
  {
    Sqrt(SumOfSquares(Sub(a, b)))
  }

  /** length: the distance to the zero vector. */
  function Norm(v: Vec): (r: real)
    requires HasSquareRoot(SumOfSquares(v))
    ensures r >= 0.0
    ensures r * r == SumOfSquares(v)
  {
    assert Sub(v, Zero) == v;
    Distance(v, Zero)
  }

  lemma {:induction false} DistanceSymmetric(a: Vec, b: Vec)
    requires HasSquareRoot(SumOfSquares(Sub(a, b)))
    ensures HasSquareRoot(SumOfSquares(Sub(b, a)))
    ensures Distance(a, b) == Distance(b, a)
  {
    var d := Sub(a, b);
    var e := Sub(b, a);
    assert e == Vec(-d.x, -d.y, -d.z);
    assert e.x * e.x == d.x * d.x;
    assert e.y * e.y == d.y * d.y;
    assert e.z * e.z == d.z * d.z;
    assert SumOfSquares(e) == SumOfSquares(d);
  }

  /** The length of a scaled vector is |d| times the length. */
  lemma {:induction false} NormOfScaled(v: Vec, d: real)
    requires HasSquareRoot(SumOfSquares(v))
    ensures HasSquareRoot(SumOfSquares(Scale(v, d)))
    ensures Norm(Scale(v, d)) == (if d < 0.0 then -d else d) * Norm(v)
  {
    var a := if d < 0.0 then -d else d;
    var l := Norm(v);
    var q := SumOfSquares(Scale(v, d));
    SumOfSquaresOfScaled(v, d);
    SquareOfProduct(a, l);
    SquareOfProduct(d, l);
    assert a * a == d * d;
    NonNegativeProduct(a, l);
    assert IsSqrtOf(q, a * l);
    SqrtUnique(q, Sqrt(q), a * l);
  }

  lemma SquareOfProduct(p: real, q: real)
    ensures (p * q) * (p * q) == (p * p) * (q * q)
  {
  }

  // ---------------------------------------------------------------------------
  // normalize, as a value: every component divided by the original length.

  function Normalized(v: Vec): (r: Vec)
    requires HasSquareRoot(SumOfSquares(v))
    requires Norm(v) != 0.0
  {
    var l := Norm(v);
    Vec(v.x / l, v.y / l, v.z / l)
  }

  /** The normalized vector has length 1. */
  lemma {:induction false} NormalizedIsUnit(v: Vec)
    requires HasSquareRoot(SumOfSquares(v))
    requires Norm(v) != 0.0
    ensures HasSquareRoot(SumOfSquares(Normalized(v)))
    ensures Norm(Normalized(v)) == 1.0
  {
    var l := Norm(v);
    var n := Normalized(v);
    assert n == Scale(v, 1.0 / l);
    NormOfScaled(v, 1.0 / l);
    assert (1.0 / l) * l == 1.0;
  }

  /** Normalizing keeps direction and orientation: scaling back by the length restores v. */
  lemma {:induction false} NormalizedSameDirection(v: Vec)
    requires HasSquareRoot(SumOfSquares(v))
    requires Norm(v) != 0.0
    ensures Scale(Normalized(v), Norm(v)) == v
  {
    var l := Norm(v);
    assert v.x / l * l == v.x;
    assert v.y / l * l == v.y;
    assert v.z / l * l == v.z;
  }

  // ---------------------------------------------------------------------------
  // The mutable object. Its fields are public in the source; every arithmetic
  // method allocates a new vector and leaves both operands alone.

  class Vector3 {
    var x: real
    var y: real
    var z: real

    function Value(): Vec
      reads this
    {
      Vec(x, y, z)
    }

    constructor (x: real, y: real, z: real)
      ensures Value() == Vec(x, y, z)
    {
      this.x, this.y, this.z := x, y, z;
    }

    /** The no-argument constructor: the zero vector. */
    constructor Origin()
      ensures Value() == Zero
    {
      x, y, z := 0.0, 0.0, 0.0;
    }

    method Plus(v: Vector3) returns (r: Vector3)
      ensures fresh(r) && r.Value() == Add(Value(), v.Value())
    {
      r := new Vector3(x + v.x, y + v.y, z + v.z);
    }

    method Times(d: real) returns (r: Vector3)
      ensures fresh(r) && r.Value() == Scale(Value(), d)
    {
      r := new Vector3(x * d, y * d, z * d);
    }

    method Minus(v: Vector3) returns (r: Vector3)
      ensures fresh(r) && r.Value() == Sub(Value(), v.Value())
    {
      r := new Vector3(x - v.x, y - v.y, z - v.z);
    }

    /** distanceTo: the root of the summed squares of this.minus(v). */
    function DistanceTo(v: Vector3): (r: real)
      reads this, v
      requires HasSquareRoot(SumOfSquares(Sub(Value(), v.Value())))
      ensures r >= 0.0
      ensures r == Distance(Value(), v.Value())
    {
      var resultV := Sub(Value(), v.Value());
      Sqrt(SumOfSquares(resultV))
    }

    /** length: distanceTo of a fresh zero vector. */
    function Length(): (r: real)
      reads this
      requires HasSquareRoot(SumOfSquares(Value()))
      ensures r >= 0.0
      ensures r == Norm(Value())
    {
      assert Sub(Value(), Zero) == Value();
      Distance(Value(), Zero)
    }

    /** normalize: divides x, y and z in place by the length they had on entry. */
    method Normalize()
      requires HasSquareRoot(SumOfSquares(Value()))
      requires Norm(Value()) != 0.0
      modifies this
      ensures Value() == Normalized(old(Value()))
      ensures HasSquareRoot(SumOfSquares(Value())) && Norm(Value()) == 1.0
    {
      NormalizedIsUnit(Value());
      var length := Length();
      x := x / length;
      y := y / length;
      z := z / length;
    }
  }
}
