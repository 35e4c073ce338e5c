/** Integer 2D points (Game/IO/Common/Point.cs). */
module Points {
  import opened Wrappers
  import CsMath

  datatype Point = Point(x: int, y: int)

  /** `new Point(v)`: both coordinates set to the same value. */
  function Uniform(v: int): (p: Point)
    ensures p.x == v && p.y == v
  {
    Point(v, v)
  }

  function Add(a: Point, b: Point): Point {
    Point(a.x + b.x, a.y + b.y)
  }

  function Sub(a: Point, b: Point): Point {
    Point(a.x - b.x, a.y - b.y)
  }

  /** `a * k`: both coordinates scaled by the same integer. */
  function Scale(a: Point, k: int): Point {
    Point(a.x * k, a.y * k)
  }

  /** `a * b`: the element-wise product. */
  function Mul(a: Point, b: Point): Point {
    Point(a.x * b.x, a.y * b.y)
  }

  /** `a / divisor`: C# integer division of both coordinates, which throws
      on a zero divisor. */
  function Div(a: Point, divisor: int): (r: Result<Point>)
    ensures divisor == 0 <==> r == Failure(DivideByZero)
    ensures r.Success? ==> r.value == Point(CsMath.TruncDiv(a.x, divisor), CsMath.TruncDiv(a.y, divisor))
  {
    if divisor == 0 then Failure(DivideByZero)
    else Success(Point(CsMath.TruncDiv(a.x, divisor), CsMath.TruncDiv(a.y, divisor)))
  }

  /** `a % divisor`: computed as `(v % d + d) % d` with C#'s remainder, which
      throws on a zero divisor. */
  function Mod(a: Point, divisor: int): (r: Result<Point>)
    ensures divisor == 0 <==> r == Failure(DivideByZero)
  {
    if divisor == 0 then Failure(DivideByZero)
    else Success(Point(ModComponent(a.x, divisor), ModComponent(a.y, divisor)))
  }

  function ModComponent(v: int, d: int): int
    requires d != 0
  {
    CsMath.TruncRem(CsMath.TruncRem(v, d) + d, d)
  }

  /** `==`: both coordinates equal. */
  function Eq(a: Point, b: Point): (r: bool)
    ensures r <==> a == b
  {
    a.x == b.x && a.y == b.y
  }

  /** `!=`: some coordinate differs. */
  function Neq(a: Point, b: Point): (r: bool)
    ensures r <==> !Eq(a, b)
  {
    a.x != b.x || a.y != b.y
  }

  /** `Equals(object)`: `other` is `None` when the object is not a point. */
  function EqualsObject(a: Point, other: Option<Point>): (r: bool)
    ensures r <==> other.Some? && Eq(other.value, a)
  {
    match other
    case None => false
    case Some(p) => Eq(p, a)
  }

  /** Subtraction undoes addition in every coordinate. */
  lemma AddSubRoundTrip(a: Point, b: Point)
    ensures Sub(Add(a, b), b) == a
    ensures Add(Sub(a, b), b) == a
  {
  }

  /** Scaling by an integer is the element-wise product with a uniform
      point; scaling by 1 changes nothing and by 0 gives the origin. */
  lemma ScaleIsUniformProduct(a: Point, k: int)
    ensures Scale(a, k) == Mul(a, Uniform(k))
    ensures Scale(a, 1) == a
    ensures Scale(a, 0) == Point(0, 0)
  {
  }

  /** For a positive divisor `%` is the Euclidean remainder: every coordinate
      lands in `[0, divisor)`, and differs from the input by a multiple of it. */
  lemma ModIsEuclidean(a: Point, divisor: int)
    requires divisor > 0
    ensures Mod(a, divisor).Success?
    ensures Mod(a, divisor).value == Point(a.x % divisor, a.y % divisor)
    ensures 0 <= Mod(a, divisor).value.x < divisor && 0 <= Mod(a, divisor).value.y < divisor
  {
    ModComponentIsEuclidean(a.x, divisor);
    ModComponentIsEuclidean(a.y, divisor);
  }

  lemma ModComponentIsEuclidean(v: int, d: int)
    requires d > 0
    ensures ModComponent(v, d) == v % d
  {
    var r := CsMath.TruncRem(v, d);
    var q := CsMath.TruncDiv(v, d);
    CsMath.TruncDivRem(v, d);
    CsMath.TruncAgreesWhenNonNegative(r + d, d);
    if r >= 0 {
      CsMath.DivModUnique(r + d, 1, r, d);
      CsMath.DivModUnique(v, q, r, d);
    } else {
      CsMath.DivModUnique(r + d, 0, r + d, d);
      assert v == (q - 1) * d + (r + d);
      CsMath.DivModUnique(v, q - 1, r + d, d);
    }
  }

  /** `a / divisor` truncates toward zero: the quotient's magnitude is the
      quotient of the magnitudes, and it is never of the opposite sign. */
  lemma DivTruncatesTowardZero(a: Point, divisor: int)
    requires divisor != 0
    ensures Div(a, divisor).Success?
    ensures CsMath.Abs(Div(a, divisor).value.x) == CsMath.Abs(a.x) / CsMath.Abs(divisor)
    ensures CsMath.Abs(Div(a, divisor).value.y) == CsMath.Abs(a.y) / CsMath.Abs(divisor)
    ensures a.x >= 0 && divisor > 0 ==> Div(a, divisor).value.x == a.x / divisor
  {
  }

  // ---------------------------------------------------------------------
  // IterateToInclusive

  /** The points `(ix, iy)` for `iy` from `y0` up to `y1`. */
  function Column(ix: int, y0: int, y1: int): (r: seq<Point>)
    ensures |r| == if y0 <= y1 then y1 - y0 + 1 else 0
    decreases y1 - y0
  {
    if y0 > y1 then [] else [Point(ix, y0)] + Column(ix, y0 + 1, y1)
  }

  /** The columns for `ix` from `x0` up to `x1`, one after the other. */
  function Rows(x0: int, x1: int, y0: int, y1: int): (r: seq<Point>)
    ensures |r| == if x0 <= x1 && y0 <= y1 then (x1 - x0 + 1) * (y1 - y0 + 1) else 0
    decreases x1 - x0
  {
    if x0 > x1 then [] else Column(x0, y0, y1) + Rows(x0 + 1, x1, y0, y1)
  }

  /** `a.IterateToInclusive(b)`: the points of the closed rectangle from `a`
      to `b`, X-major; empty as soon as either span is negative. */
  function IterateToInclusive(a: Point, b: Point): (r: seq<Point>)
    ensures |r| == if a.x <= b.x && a.y <= b.y then (b.x - a.x + 1) * (b.y - a.y + 1) else 0
  {
    Rows(a.x, b.x, a.y, b.y)
  }

  /** The k-th point of a column. */
  lemma {:induction false} ColumnAt(ix: int, y0: int, y1: int, k: int)
    requires 0 <= k < |Column(ix, y0, y1)|
    ensures Column(ix, y0, y1)[k] == Point(ix, y0 + k)
    decreases y1 - y0
  {
    if k > 0 {
      ColumnAt(ix, y0 + 1, y1, k - 1);
    }
  }

  /** The k-th point of the column-by-column enumeration. */
  lemma {:induction false} RowsAt(x0: int, x1: int, y0: int, y1: int, k: int)
    requires y0 <= y1
    requires 0 <= k < |Rows(x0, x1, y0, y1)|
    ensures Rows(x0, x1, y0, y1)[k] == Point(x0 + k / (y1 - y0 + 1), y0 + k % (y1 - y0 + 1))
    decreases x1 - x0
  {
    var h := y1 - y0 + 1;
    var c, rest := Column(x0, y0, y1), Rows(x0 + 1, x1, y0, y1);
    assert Rows(x0, x1, y0, y1) == c + rest;
    if k < h {
      ColumnAt(x0, y0, y1, k);
      CsMath.DivModUnique(k, 0, k, h);
    } else {
      assert Rows(x0, x1, y0, y1)[k] == rest[k - h];
      RowsAt(x0 + 1, x1, y0, y1, k - h);
      CsMath.DivModShift(k, h);
    }
  }

  /** The enumeration is X-major: point number `k` sits in column `k / h`
      and row `k % h`, where `h` is the height of the rectangle. */
  lemma IterateToInclusiveAt(a: Point, b: Point, k: int)
    requires 0 <= k < |IterateToInclusive(a, b)|
    ensures IterateToInclusive(a, b)[k]
         == Point(a.x + k / (b.y - a.y + 1), a.y + k % (b.y - a.y + 1))
  {
    RowsAt(a.x, b.x, a.y, b.y, k);
  }

  /** A point is yielded iff it lies in the closed rectangle. */
  lemma IterateToInclusiveMembership(a: Point, b: Point, p: Point)
    ensures p in IterateToInclusive(a, b) <==> a.x <= p.x <= b.x && a.y <= p.y <= b.y
  {
    if p in IterateToInclusive(a, b) {
      YieldedIsInside(a, b, p);
    }
    if a.x <= p.x <= b.x && a.y <= p.y <= b.y {
      InsideIsYielded(a, b, p);
    }
  }

  lemma YieldedIsInside(a: Point, b: Point, p: Point)
    requires p in IterateToInclusive(a, b)
    ensures a.x <= p.x <= b.x && a.y <= p.y <= b.y
  {
    var r := IterateToInclusive(a, b);
    var h, w := b.y - a.y + 1, b.x - a.x + 1;
    var k :| 0 <= k < |r| && r[k] == p;
    IterateToInclusiveAt(a, b, k);
    CsMath.QuotientBound(k, w, h);
  }

  /** Column `i`, row `j` of a `w` by `h` block lies inside the block. */
  lemma ProductIndexBound(i: int, j: int, w: int, h: int)
    requires 0 <= i < w && 0 <= j < h
    ensures 0 <= i * h + j < w * h
  {
    CsMath.MulBounds(w - i, h);
    assert (w - i) * h == w * h - i * h;
  }

  lemma InsideIsYielded(a: Point, b: Point, p: Point)
    requires a.x <= p.x <= b.x && a.y <= p.y <= b.y
    ensures p in IterateToInclusive(a, b)
  {
    var r := IterateToInclusive(a, b);
    var h, w := b.y - a.y + 1, b.x - a.x + 1;
    var k := (p.x - a.x) * h + (p.y - a.y);
    ProductIndexBound(p.x - a.x, p.y - a.y, w, h);
    assert 0 <= k < |r|;
    CsMath.DivModUnique(k, p.x - a.x, p.y - a.y, h);
    IterateToInclusiveAt(a, b, k);
    assert r[k] == p;
  }

  /** No point is yielded twice. */
  lemma IterateToInclusiveDistinct(a: Point, b: Point, i: int, j: int)
    requires 0 <= i < j < |IterateToInclusive(a, b)|
    ensures IterateToInclusive(a, b)[i] != IterateToInclusive(a, b)[j]
  {
    var h := b.y - a.y + 1;
    IterateToInclusiveAt(a, b, i);
    IterateToInclusiveAt(a, b, j);
    CsMath.DivModInjective(i, j, h);
  }
}
