/** Integer and clamping arithmetic as C# performs it.
    Dafny's `/` and `%` are Euclidean; C# truncates the quotient toward zero
    and gives the remainder the sign of the dividend. */
module CsMath {

  /** C# integer division: the quotient truncated toward zero. */
  function TruncDiv(a: int, b: int): (q: int)
    requires b != 0
    ensures Abs(q) == Abs(a) / Abs(b)
    ensures a >= 0 && b > 0 ==> q == a / b
    ensures (a >= 0) == (b > 0) ==> q >= 0
    ensures (a >= 0) != (b > 0) ==> q <= 0
  {
    var m: int := Abs(a) / Abs(b);
    DivNonNeg(Abs(a), Abs(b));
    if (a >= 0) == (b > 0) then m else -m
  }

  /** C# integer remainder: its magnitude is that of the Euclidean remainder
      of the magnitudes, and its sign is the sign of the dividend. */
  function TruncRem(a: int, b: int): (r: int)
    requires b != 0
    ensures Abs(r) < Abs(b)
    ensures a >= 0 ==> 0 <= r
    ensures a <= 0 ==> r <= 0
    ensures a >= 0 && b > 0 ==> r == a % b
  {
    var m: int := Abs(a) % Abs(b);
    if a >= 0 then m else -m
  }

  /** The two operators agree the way C# promises: `a == (a / b) * b + a % b`. */
  lemma TruncDivRem(a: int, b: int)
    requires b != 0
    ensures a == TruncDiv(a, b) * b + TruncRem(a, b)
  {
    var A: int, B: int := Abs(a), Abs(b);
    var m: int, r: int := A / B, A % B;
    assert A == m * B + r;
    MulNeg(m, B);
    if a >= 0 && b > 0 {
      assert TruncDiv(a, b) * b == m * B;
    } else if a >= 0 {
      assert TruncDiv(a, b) * b == (-m) * (-B) == m * B;
    } else if b > 0 {
      assert TruncDiv(a, b) * b == (-m) * B == -(m * B);
    } else {
      assert TruncDiv(a, b) * b == m * (-B) == -(m * B);
    }
  }

  lemma DivNonNeg(x: int, y: int)
    requires x >= 0 && y > 0
    ensures x / y >= 0
  {
  }

  lemma MulNeg(x: int, y: int)
    ensures (-x) * y == -(x * y) == x * (-y)
    ensures (-x) * (-y) == x * y
  {
  }

  /** On a non-negative dividend and a positive divisor, C# and Dafny agree. */
  lemma TruncAgreesWhenNonNegative(a: int, b: int)
    requires a >= 0 && b > 0
    ensures TruncDiv(a, b) == a / b && TruncRem(a, b) == a % b
  {
  }

  function Abs(a: int): (r: nat)
    ensures r == a || r == -a
  {
    if a < 0 then -a else a
  }

  /** The `Clamp(min, max)` extension the code relies on: values below `lo`
      become `lo`, values above `hi` become `hi`. The extension itself is not
      part of this model; this is its assumed behaviour. */
  function ClampInt(v: int, lo: int, hi: int): (r: int)
    requires lo <= hi
    ensures lo <= r <= hi
    ensures lo <= v <= hi ==> r == v
    ensures v < lo ==> r == lo
    ensures v > hi ==> r == hi
  {
    if v < lo then lo else if v > hi then hi else v
  }

  function ClampReal(v: real, lo: real, hi: real): (r: real)
    requires lo <= hi
    ensures lo <= r <= hi
    ensures lo <= v <= hi ==> r == v
    ensures v < lo ==> r == lo
    ensures v > hi ==> r == hi
  {
    if v < lo then lo else if v > hi then hi else v
  }

  const IntMin: int := -0x8000_0000
  const IntMax: int := 0x7FFF_FFFF
  const TwoTo32: int := 0x1_0000_0000

  predicate IsInt32(x: int) {
    IntMin <= x <= IntMax
  }

  /** Unchecked 32-bit `int` arithmetic: the result wrapped into range. */
  function Wrap32(x: int): (r: int)
    ensures IsInt32(r)
    ensures (x - r) % TwoTo32 == 0
    ensures IsInt32(x) ==> r == x
  {
    var m := (x - IntMin) % TwoTo32;
    assert x - (m + IntMin) == ((x - IntMin) / TwoTo32) * TwoTo32;
    m + IntMin
  }

  /** A value at most one period out of range wraps by exactly one period. */
  lemma Wrap32Once(x: int)
    requires IntMin - TwoTo32 <= x <= IntMax + TwoTo32
    ensures x < IntMin ==> Wrap32(x) == x + TwoTo32
    ensures IsInt32(x) ==> Wrap32(x) == x
    ensures x > IntMax ==> Wrap32(x) == x - TwoTo32
  {
    if x < IntMin {
      DivModUnique(x - IntMin, -1, x - IntMin + TwoTo32, TwoTo32);
    } else if x > IntMax {
      DivModUnique(x - IntMin, 1, x - IntMin - TwoTo32, TwoTo32);
    }
  }

  function MinReal(a: real, b: real): (r: real)
    ensures r <= a && r <= b
    ensures r == a || r == b
  {
    if a <= b then a else b
  }

  function MaxReal(a: real, b: real): (r: real)
    ensures r >= a && r >= b
    ensures r == a || r == b
  {
    if a >= b then a else b
  }

  // ---------------------------------------------------------------------
  // Facts about Euclidean division used by the enumeration proofs.

  lemma MulBounds(x: int, d: int)
    requires d > 0
    ensures x >= 1 ==> x * d >= d
    ensures x <= -1 ==> x * d <= -d
  {
  }

  /** A quotient and remainder in range are THE quotient and remainder. */
  lemma DivModUnique(v: int, q: int, r: int, d: int)
    requires d > 0 && v == q * d + r && 0 <= r < d
    ensures v / d == q && v % d == r
  {
    var q', r' := v / d, v % d;
    assert v == q' * d + r';
    assert (q - q') * d == q * d - q' * d;
    MulBounds(q - q', d);
  }

  /** Taking `d` off the dividend takes one off the quotient. */
  lemma DivModShift(k: int, d: int)
    requires d > 0
    ensures (k - d) / d == k / d - 1 && (k - d) % d == k % d
  {
    assert k == (k / d) * d + k % d;
    assert k - d == (k / d - 1) * d + k % d;
    DivModUnique(k - d, k / d - 1, k % d, d);
  }

  /** Distinct indices differ in quotient or in remainder. */
  lemma DivModInjective(i: int, j: int, h: int)
    requires h > 0 && i != j
    ensures i / h != j / h || i % h != j % h
  {
    assert i == (i / h) * h + i % h;
    assert j == (j / h) * h + j % h;
  }

  /** An index below `w * h` has a quotient below `w`. */
  lemma QuotientBound(k: int, w: int, h: int)
    requires h > 0 && 0 <= k < w * h
    ensures 0 <= k / h < w
  {
    var q, m := k / h, k % h;
    assert k == q * h + m;
    MulBounds(q, h);
    MulBounds(q - w + 1, h);
    assert (q - w + 1) * h == q * h - w * h + h;
  }
}
