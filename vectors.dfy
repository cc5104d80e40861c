/**
 * Two-dimensional vectors over the reals, with the p5.Vector operations that
 * the mover relies on: add, sub, mult, div, dot, mag, normalize, setMag,
 * limit and dist, and the p5 helpers constrain and map.
 *
 * The square root is the host's Math.sqrt. It is not defined here: every
 * operation that needs it takes it as a parameter `sqrt` together with the
 * requirement IsSqrt(sqrt), which says that it is an exact square root on the
 * non-negative reals.
 */
module Vectors {

  datatype Vector2D = Vector2D(x: real, y: real)

  const Zero: Vector2D := Vector2D(0.0, 0.0)

  function Add(a: Vector2D, b: Vector2D): Vector2D {
    Vector2D(a.x + b.x, a.y + b.y)
  }

  function Sub(a: Vector2D, b: Vector2D): Vector2D {
    Vector2D(a.x - b.x, a.y - b.y)
  }

  /** p5's mult(k). */
  function Scale(v: Vector2D, k: real): Vector2D {
    Vector2D(v.x * k, v.y * k)
  }

  function Neg(v: Vector2D): Vector2D {
    Scale(v, -1.0)
  }

  /** p5's div(k); the callers here never divide by zero. */
  function Div(v: Vector2D, k: real): Vector2D
    requires k != 0.0
  {
    Vector2D(v.x / k, v.y / k)
  }

  function Dot(a: Vector2D, b: Vector2D): real {
    a.x * b.x + a.y * b.y
  }

  /** The z-component of the 3D cross product: zero exactly when a and b are parallel. */
  function Cross(a: Vector2D, b: Vector2D): real {
    a.x * b.y - a.y * b.x
  }

  /** p5's magSq(). */
  function MagSq(v: Vector2D): (r: real)
    ensures r >= 0.0
    ensures r == 0.0 <==> v == Zero
  {
    SquareNonNegative(v.x);
    SquareNonNegative(v.y);
    v.x * v.x + v.y * v.y
  }

  lemma SquareNonNegative(a: real)
    ensures a * a >= 0.0
    ensures a * a == 0.0 <==> a == 0.0
  {
    if a < 0.0 {
      assert a * a == (-a) * (-a);
    } else if a == 0.0 {
      assert a * a == 0.0 * 0.0;
    }
    if a != 0.0 {
      assert (a * a) / a == a;
    }
  }

  /** The host's square root is exact on the non-negative reals. */
  ghost predicate IsSqrt(sqrt: real -> real) {
    forall x: real :: SqrtAt(sqrt, x)
  }

  /**
   * sqrt(x) is the non-negative square root of x, where x is non-negative.
   * (Kept apart from IsSqrt so that the fact is only used where SqrtOf asks.)
   */
  ghost predicate SqrtAt(sqrt: real -> real, x: real) {
    0.0 <= x ==> 0.0 <= sqrt(x) && sqrt(x) * sqrt(x) == x
  }

  /** p5's mag(): the length of v. */
  function Mag(v: Vector2D, sqrt: real -> real): (r: real)
    requires IsSqrt(sqrt)
    ensures r >= 0.0
  {
    SqrtOf(sqrt, MagSq(v));
    sqrt(MagSq(v))
  }

  lemma SqrtOf(sqrt: real -> real, x: real)
    requires IsSqrt(sqrt) && x >= 0.0
    ensures sqrt(x) >= 0.0 && sqrt(x) * sqrt(x) == x
    ensures sqrt(x) == 0.0 <==> x == 0.0
  {
    assert SqrtAt(sqrt, x);
    SquareNonNegative(sqrt(x));
  }

  /** The length squares to magSq(). */
  lemma MagSquare(v: Vector2D, sqrt: real -> real)
    requires IsSqrt(sqrt)
    ensures Mag(v, sqrt) * Mag(v, sqrt) == MagSq(v)
  {
    SqrtOf(sqrt, MagSq(v));
  }

  /** Only the zero vector has length zero. */
  lemma MagZero(v: Vector2D, sqrt: real -> real)
    requires IsSqrt(sqrt)
    ensures Mag(v, sqrt) == 0.0 <==> v == Zero
  {
    SqrtOf(sqrt, MagSq(v));
  }

  /** p5's dist(): the length of a - b. */
  function Dist(a: Vector2D, b: Vector2D, sqrt: real -> real): real
    requires IsSqrt(sqrt)
  {
    Mag(Sub(a, b), sqrt)
  }

  /**
   * p5's normalize(): v divided by its length; the zero vector is left as it
   * is. (Its properties are stated by NormalizeUnit.)
   */
  function Normalize(v: Vector2D, sqrt: real -> real): Vector2D
    requires IsSqrt(sqrt)
  {
    var len := Mag(v, sqrt);
    if len != 0.0 then Scale(v, 1.0 / len) else v
  }

  /**
   * normalize() gives a unit vector which, stretched by the length of v,
   * gives v back; the zero vector stays zero.
   */
  lemma NormalizeUnit(v: Vector2D, sqrt: real -> real)
    requires IsSqrt(sqrt)
    ensures v == Zero ==> Normalize(v, sqrt) == Zero
    ensures v != Zero ==> MagSq(Normalize(v, sqrt)) == 1.0 && Scale(Normalize(v, sqrt), Mag(v, sqrt)) == v
  {
    var len := Mag(v, sqrt);
    MagZero(v, sqrt);
    if len != 0.0 {
      MagSquare(v, sqrt);
      UnitScale(v, len);
    }
  }

  lemma UnitScale(v: Vector2D, len: real)
    requires len > 0.0 && len * len == MagSq(v)
    ensures MagSq(Scale(v, 1.0 / len)) == 1.0
    ensures Scale(Scale(v, 1.0 / len), len) == v
  {
    MagSqScale(v, 1.0 / len);
    assert (1.0 / len) * (1.0 / len) * (len * len) == 1.0;
  }

  /** p5's setMag(n), that is normalize() then mult(n). */
  function SetMag(v: Vector2D, n: real, sqrt: real -> real): Vector2D
    requires IsSqrt(sqrt)
  {
    Scale(Normalize(v, sqrt), n)
  }

  /**
   * setMag(n) gives a vector of length |n| along v (against v when n < 0):
   * stretched by the length of v it is v stretched by n. The zero vector
   * stays zero.
   */
  lemma SetMagLength(v: Vector2D, n: real, sqrt: real -> real)
    requires IsSqrt(sqrt)
    ensures v == Zero ==> SetMag(v, n, sqrt) == Zero
    ensures v != Zero ==>
      MagSq(SetMag(v, n, sqrt)) == n * n && Scale(SetMag(v, n, sqrt), Mag(v, sqrt)) == Scale(v, n)
  {
    var u := Normalize(v, sqrt);
    NormalizeUnit(v, sqrt);
    if v != Zero {
      var len := Mag(v, sqrt);
      assert MagSq(u) == 1.0 && Scale(u, len) == v;
      MagSqScale(u, n);
      ScaleCommutes(u, n, len);
    }
  }

  /** p5's limit(max): rescale to length max only when the squared length exceeds max * max. */
  function Limit(v: Vector2D, max: real, sqrt: real -> real): Vector2D
    requires IsSqrt(sqrt)
  {
    var mSq := MagSq(v);
    if mSq > max * max then
      SquareNonNegative(max);
      SqrtOf(sqrt, mSq);
      Scale(Div(v, sqrt(mSq)), max)
    else
      v
  }

  /**
   * limit(max) caps the squared length at max * max, leaves a vector within
   * the cap as it is, and otherwise keeps the direction (against it when
   * max < 0) at exactly length |max|.
   */
  lemma LimitCaps(v: Vector2D, max: real, sqrt: real -> real)
    requires IsSqrt(sqrt)
    ensures MagSq(Limit(v, max, sqrt)) <= max * max
    ensures MagSq(v) <= max * max ==> Limit(v, max, sqrt) == v
    ensures MagSq(v) > max * max ==>
      MagSq(Limit(v, max, sqrt)) == max * max && Scale(Limit(v, max, sqrt), Mag(v, sqrt)) == Scale(v, max)
  {
    var mSq := MagSq(v);
    if mSq > max * max {
      SquareNonNegative(max);
      SqrtOf(sqrt, mSq);
      LimitRescaled(v, sqrt(mSq), max);
    }
  }

  lemma LimitRescaled(v: Vector2D, len: real, max: real)
    requires len > 0.0 && len * len == MagSq(v)
    ensures MagSq(Scale(Div(v, len), max)) == max * max
    ensures Scale(Scale(Div(v, len), max), len) == Scale(v, max)
  {
    assert Div(v, len) == Scale(v, 1.0 / len);
    UnitScale(v, len);
    MagSqScale(Div(v, len), max);
  }

  /** A unit vector along f scaled by s has length |s| and covers s * |f| along f. */
  lemma AlongUnit(f: Vector2D, s: real, sqrt: real -> real)
    requires IsSqrt(sqrt)
    ensures f != Zero ==>
      MagSq(Scale(Normalize(f, sqrt), s)) == s * s &&
      Dot(Scale(Normalize(f, sqrt), s), f) == s * Mag(f, sqrt)
  {
    if f != Zero {
      NormalizeUnit(f, sqrt);
      var u := Normalize(f, sqrt);
      MagSqScale(u, s);
      UnitDot(u, Mag(f, sqrt), f);
      DotScale(u, f, s);
    }
  }

  lemma UnitDot(u: Vector2D, len: real, w: Vector2D)
    requires MagSq(u) == 1.0 && Scale(u, len) == w
    ensures Dot(u, w) == len
  {
    DotScale(u, u, len);
    assert Dot(u, u) == MagSq(u);
  }

  lemma AddSub(a: Vector2D, b: Vector2D)
    ensures Add(a, Sub(b, a)) == b
  {
  }

  lemma SubAdd(a: Vector2D, b: Vector2D)
    ensures Sub(Add(a, b), a) == b
  {
  }

  lemma ScaleZero(k: real)
    ensures Scale(Zero, k) == Zero
  {
  }

  lemma SubZero(a: Vector2D, b: Vector2D)
    ensures Sub(a, b) == Zero <==> a == b
  {
  }

  lemma MagSqScale(v: Vector2D, k: real)
    ensures MagSq(Scale(v, k)) == k * k * MagSq(v)
  {
  }

  lemma ScaleCommutes(v: Vector2D, a: real, b: real)
    ensures Scale(Scale(v, a), b) == Scale(Scale(v, b), a) == Scale(v, a * b)
  {
  }

  lemma DotScale(u: Vector2D, v: Vector2D, k: real)
    ensures Dot(Scale(u, k), v) == k * Dot(u, v)
    ensures Dot(u, Scale(v, k)) == k * Dot(u, v)
  {
  }

  /** p5's constrain(n, lo, hi), that is max(min(n, hi), lo). */
  function Constrain(n: real, lo: real, hi: real): (r: real)
    ensures lo <= hi ==> lo <= r <= hi
    ensures lo <= n <= hi ==> r == n
    ensures n < lo ==> r == lo
    ensures lo <= hi < n ==> r == hi
  {
    var m := if n < hi then n else hi;
    if m > lo then m else lo
  }

  /**
   * p5's map(value, start1, stop1, start2, stop2): the affine map that takes
   * start1 to start2 and stop1 to stop2 (no clamping to the target range).
   */
  function MapRange(value: real, start1: real, stop1: real, start2: real, stop2: real): (r: real)
    requires start1 != stop1
    ensures value == start1 ==> r == start2
    ensures value == stop1 ==> r == stop2
  {
    var t := (value - start1) / (stop1 - start1);
    FractionEnds(value - start1, stop1 - start1);
    MulEnds(t, stop2 - start2);
    t * (stop2 - start2) + start2
  }

  /** With increasing ranges, a value inside [start1, stop1] lands inside [start2, stop2]. */
  lemma MapRangeBetween(value: real, start1: real, stop1: real, start2: real, stop2: real)
    requires start1 < stop1 && start2 <= stop2 && start1 <= value <= stop1
    ensures start2 <= MapRange(value, start1, stop1, start2, stop2) <= stop2
  {
    var t := (value - start1) / (stop1 - start1);
    FractionInUnit(value - start1, stop1 - start1);
    MulBetween(t, stop2 - start2);
  }

  lemma FractionEnds(a: real, w: real)
    requires w != 0.0
    ensures a == 0.0 ==> a / w == 0.0
    ensures a == w ==> a / w == 1.0
  {
  }

  lemma MulEnds(t: real, k: real)
    ensures t == 0.0 ==> t * k == 0.0
    ensures t == 1.0 ==> t * k == k
  {
  }

  lemma FractionInUnit(a: real, b: real)
    requires b > 0.0 && 0.0 <= a <= b
    ensures 0.0 <= a / b <= 1.0
  {
    assert a / b * b == a;
  }

  lemma MulBetween(t: real, w: real)
    requires 0.0 <= t <= 1.0 && w >= 0.0
    ensures 0.0 <= t * w <= w
  {
    assert w - t * w == (1.0 - t) * w;
  }
}
