/** Real 2D vectors (Game/IO/Math/Vector.cs). Doubles are modelled as reals,
    so there is no NaN, no infinity and no rounding; a component that IEEE
    arithmetic would make non-finite is reported as `None`. */
module Vectors {
  import opened Wrappers
  import CsMath

  datatype Vector = Vector(x: real, y: real)

  const Zero := Vector(0.0, 0.0)

  /** `new Vector(v)`: both coordinates set to the same value. */
  function Uniform(v: real): (r: Vector)
    ensures r.x == v && r.y == v
  {
    Vector(v, v)
  }

  function Add(a: Vector, b: Vector): Vector {
    Vector(a.x + b.x, a.y + b.y)
  }

  function Sub(a: Vector, b: Vector): Vector {
    Vector(a.x - b.x, a.y - b.y)
  }

  function Mul(a: Vector, b: Vector): Vector {
    Vector(a.x * b.x, a.y * b.y)
  }

  /** Element-wise division; `None` when a divisor component is zero. */
  function Div(a: Vector, b: Vector): (r: Option<Vector>)
    ensures r.None? <==> b.x == 0.0 || b.y == 0.0
    ensures r.Some? ==> Mul(r.value, b) == a
  {
    if b.x == 0.0 || b.y == 0.0 then None else Some(Vector(a.x / b.x, a.y / b.y))
  }

  function AddScalar(a: Vector, v: real): Vector {
    Vector(a.x + v, a.y + v)
  }

  function SubScalar(a: Vector, v: real): Vector {
    Vector(a.x - v, a.y - v)
  }

  function MulScalar(a: Vector, k: real): Vector {
    Vector(a.x * k, a.y * k)
  }

  /** Division by a scalar; `None` when the scalar is zero. */
  function DivScalar(a: Vector, k: real): (r: Option<Vector>)
    ensures r.None? <==> k == 0.0
    ensures r.Some? ==> MulScalar(r.value, k) == a
  {
    if k == 0.0 then None else Some(Vector(a.x / k, a.y / k))
  }

  function Negate(a: Vector): Vector {
    Vector(-a.x, -a.y)
  }

  /** The indexer: dimension 0 is X, 1 is Y, anything else throws. */
  function Index(v: Vector, dimension: int): (r: Result<real>)
    ensures dimension == 0 ==> r == Success(v.x)
    ensures dimension == 1 ==> r == Success(v.y)
    ensures dimension != 0 && dimension != 1 ==> r == Failure(ArgumentOutOfRange)
  {
    match dimension
    case 0 => Success(v.x)
    case 1 => Success(v.y)
    case _ => Failure(ArgumentOutOfRange)
  }

  /** `==`: both components equal. */
  function Eq(a: Vector, b: Vector): (r: bool)
    ensures r <==> a == b
  {
    a.x == b.x && a.y == b.y
  }

  /** `!=`: some component differs. */
  function Neq(a: Vector, b: Vector): (r: bool)
    ensures r <==> !Eq(a, b)
  {
    a.x != b.x || a.y != b.y
  }

  /** `Equals(object)`: `other` is `None` when the object is not a vector. */
  function EqualsObject(a: Vector, other: Option<Vector>): (r: bool)
    ensures r <==> other == Some(a)
  {
    match other
    case None => false
    case Some(b) => Eq(b, a)
  }

  function LengthSquared(v: Vector): real {
    v.x * v.x + v.y * v.y
  }

  /** `DistanceToSquared`: the squared length of the difference. */
  function DistanceToSquared(a: Vector, b: Vector): (r: real)
    ensures r == LengthSquared(Sub(a, b))
    ensures a == b ==> r == 0.0
  {
    var dx := a.x - b.x;
    var dy := a.y - b.y;
    dx * dx + dy * dy
  }

  /** The squared distance does not depend on the direction of measurement. */
  lemma DistanceToSquaredSymmetric(a: Vector, b: Vector)
    ensures DistanceToSquared(a, b) == DistanceToSquared(b, a)
  {
    assert (a.x - b.x) * (a.x - b.x) == (b.x - a.x) * (b.x - a.x);
    assert (a.y - b.y) * (a.y - b.y) == (b.y - a.y) * (b.y - a.y);
  }

  /** `Normalize`, given the vector's length `len` (the square root is not
      modelled): a zero-length vector comes back unchanged; any other is
      divided by its length, so scaling the result by `len` gives `v` back. */
  function Normalize(v: Vector, len: real): (r: Vector)
    requires len >= 0.0 && len * len == LengthSquared(v)
    ensures len == 0.0 ==> r == v
    ensures len != 0.0 ==> MulScalar(r, len) == v
  {
    if len == 0.0 then v else DivScalar(v, len).value
  }

  /** `Inside(pos, size)`: the closed rectangle with corner `pos` and extent
      `size`, all four edges included. */
  function Inside(v: Vector, pos: Vector, size: Vector): bool {
    pos.x <= v.x <= pos.x + size.x && pos.y <= v.y <= pos.y + size.y
  }

  /** `Clamp(min, max)`: each component forced into `[min, max]`; when a
      bound pair is crossed the upper bound wins, as `Min(max, Max(min, v))`. */
  function Clamp(v: Vector, min: Vector, max: Vector): (r: Vector)
    ensures min.x <= max.x ==> min.x <= r.x <= max.x
    ensures min.y <= max.y ==> min.y <= r.y <= max.y
    ensures min.x <= v.x <= max.x ==> r.x == v.x
    ensures min.y <= v.y <= max.y ==> r.y == v.y
    ensures max.x < min.x ==> r.x == max.x
    ensures max.y < min.y ==> r.y == max.y
  {
    Vector(CsMath.MinReal(max.x, CsMath.MaxReal(min.x, v.x)),
           CsMath.MinReal(max.y, CsMath.MaxReal(min.y, v.y)))
  }

  /** `MoveInside(pos, size)`: the nearest point of the rectangle. */
  function MoveInside(v: Vector, pos: Vector, size: Vector): (r: Vector)
    ensures size.x >= 0.0 && size.y >= 0.0 ==> Inside(r, pos, size)
    ensures Inside(v, pos, size) ==> r == v
  {
    Clamp(v, pos, Add(pos, size))
  }

  /** The four corners of a rectangle of non-negative size are inside it:
      `Inside` includes every edge. */
  lemma InsideIncludesEdges(pos: Vector, size: Vector)
    requires size.x >= 0.0 && size.y >= 0.0
    ensures Inside(pos, pos, size)
    ensures Inside(Add(pos, size), pos, size)
    ensures Inside(Vector(pos.x + size.x, pos.y), pos, size)
    ensures Inside(Vector(pos.x, pos.y + size.y), pos, size)
  {
  }

  /** Clamping to a box leaves a vector alone exactly when it is inside the
      box: `Inside` and `Clamp` describe the same rectangle. */
  lemma ClampFixesExactlyInside(v: Vector, pos: Vector, size: Vector)
    requires size.x >= 0.0 && size.y >= 0.0
    ensures Clamp(v, pos, Add(pos, size)) == v <==> Inside(v, pos, size)
  {
  }

  /** Clamping twice is clamping once. */
  lemma ClampIdempotent(v: Vector, min: Vector, max: Vector)
    ensures Clamp(Clamp(v, min, max), min, max) == Clamp(v, min, max)
  {
  }

  /** `-` undoes `+` and `+` undoes `-`, component by component. */
  lemma AddSubRoundTrip(a: Vector, b: Vector)
    ensures Sub(Add(a, b), b) == a
    ensures Add(Sub(a, b), b) == a
    ensures Add(a, b) == Add(b, a)
  {
  }

  /** The scalar `+` and `-` act as adding or subtracting a uniform vector,
      and undo each other. */
  lemma ScalarRoundTrips(a: Vector, v: real)
    ensures AddScalar(a, v) == Add(a, Uniform(v))
    ensures SubScalar(a, v) == Sub(a, Uniform(v))
    ensures SubScalar(AddScalar(a, v), v) == a
    ensures AddScalar(SubScalar(a, v), v) == a
  {
  }

  /** Scaling is the element-wise product with a uniform vector. */
  lemma ScaleIsUniformProduct(a: Vector, k: real)
    ensures MulScalar(a, k) == Mul(a, Uniform(k))
    ensures MulScalar(a, 1.0) == a
  {
  }

  /** Unary `-` is the additive inverse, and applying it twice is the
      identity. */
  lemma NegateIsInverse(a: Vector)
    ensures Add(a, Negate(a)) == Zero
    ensures Negate(a) == Sub(Zero, a)
    ensures Negate(Negate(a)) == a
  {
  }

  /** The squared length is never negative, and is 0 for the zero
      vector. */
  lemma LengthSquaredNonNegative(v: Vector)
    ensures LengthSquared(v) >= 0.0
    ensures LengthSquared(Zero) == 0.0
  {
  }

  /** The squared length does not change under unary `-`. */
  lemma LengthSquaredOfNegate(v: Vector)
    ensures LengthSquared(Negate(v)) == LengthSquared(v)
  {
    assert (-v.x) * (-v.x) == v.x * v.x;
    assert (-v.y) * (-v.y) == v.y * v.y;
  }
}
