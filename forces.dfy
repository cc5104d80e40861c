/**
 * The field forces of the mover (applyFriction, applyResistance, attract and
 * repel in src/Mover/index.js) as pure functions of the quantities they read:
 * friction and quadratic drag against the velocity, and the clamped
 * inverse-square law of gravitation.
 */
module Forces {
  import opened Vectors
  import opened Defaults

  // attract and repel clamp the distance to this range (written inline in the source).
  const MinAttractDistance: real := 5.0
  const MaxAttractDistance: real := 25.0

  /**
   * applyFriction's force: the velocity reversed, normalized, and multiplied
   * by the coefficient exactly as passed (the defaulted frictionMag of the
   * source is computed but never used).
   */
  function FrictionForce(velocity: Vector2D, coefficient: real, sqrt: real -> real): Vector2D
    requires IsSqrt(sqrt)
  {
    Scale(Normalize(Scale(velocity, -1.0), sqrt), coefficient)
  }

  /**
   * Friction has magnitude |coefficient| and points against the motion (along
   * it for a negative coefficient); a mover at rest feels none.
   */
  lemma FrictionOpposesMotion(velocity: Vector2D, coefficient: real, sqrt: real -> real)
    requires IsSqrt(sqrt)
    ensures velocity == Zero ==> FrictionForce(velocity, coefficient, sqrt) == Zero
    ensures velocity != Zero ==>
      var f := FrictionForce(velocity, coefficient, sqrt);
      MagSq(f) == coefficient * coefficient &&
      Dot(f, velocity) == -coefficient * Mag(velocity, sqrt)
  {
    Opposing(velocity, coefficient, sqrt);
  }

  /** applyResistance's strength: the coefficient (0 standing for the default) times speed squared. */
  function DragStrength(dragCoefficient: real, speed: real): real {
    OrDefault(dragCoefficient, DefaultDragCoefficient) * speed * speed
  }

  /** applyResistance's force: the velocity reversed, normalized, and scaled by the drag strength. */
  function DragForce(velocity: Vector2D, dragCoefficient: real, sqrt: real -> real): Vector2D
    requires IsSqrt(sqrt)
  {
    var speed := Mag(velocity, sqrt);
    Scale(Normalize(Scale(velocity, -1.0), sqrt), DragStrength(dragCoefficient, speed))
  }

  /**
   * Drag has magnitude c * speed^2, where c is the coefficient or, for 0,
   * DefaultDragCoefficient, and points against the motion; a mover at rest
   * feels none.
   */
  lemma DragOpposesMotion(velocity: Vector2D, dragCoefficient: real, sqrt: real -> real)
    requires IsSqrt(sqrt)
    ensures velocity == Zero ==> DragForce(velocity, dragCoefficient, sqrt) == Zero
    ensures velocity != Zero ==>
      var f := DragForce(velocity, dragCoefficient, sqrt);
      var strength := OrDefault(dragCoefficient, DefaultDragCoefficient) * MagSq(velocity);
      MagSq(f) == strength * strength &&
      Dot(f, velocity) == -strength * Mag(velocity, sqrt)
  {
    var speed := Mag(velocity, sqrt);
    var c := OrDefault(dragCoefficient, DefaultDragCoefficient);
    MagSquare(velocity, sqrt);
    assert DragStrength(dragCoefficient, speed) == c * (speed * speed);
    Opposing(velocity, DragStrength(dragCoefficient, speed), sqrt);
  }

  /** A force of size s along the unit vector opposite to v. */
  lemma Opposing(v: Vector2D, s: real, sqrt: real -> real)
    requires IsSqrt(sqrt)
    ensures v == Zero ==> Scale(Normalize(Scale(v, -1.0), sqrt), s) == Zero
    ensures v != Zero ==>
      MagSq(Scale(Normalize(Scale(v, -1.0), sqrt), s)) == s * s &&
      Dot(Scale(Normalize(Scale(v, -1.0), sqrt), s), v) == -s * Mag(v, sqrt)
  {
    var back := Scale(v, -1.0);
    if v == Zero {
      assert back == Zero;
      NormalizeUnit(back, sqrt);
      ScaleZero(s);
      assert Scale(Normalize(back, sqrt), s) == Zero;
    } else {
      OpposingMoving(v, s, sqrt);
    }
  }

  lemma OpposingMoving(v: Vector2D, s: real, sqrt: real -> real)
    requires IsSqrt(sqrt) && v != Zero
    ensures MagSq(Scale(Normalize(Scale(v, -1.0), sqrt), s)) == s * s
    ensures Dot(Scale(Normalize(Scale(v, -1.0), sqrt), s), v) == -s * Mag(v, sqrt)
  {
    var back := Scale(v, -1.0);
    NegMag(v, sqrt);
    AlongUnit(back, s, sqrt);
    NegDot(Scale(Normalize(back, sqrt), s), v);
  }

  lemma NegMag(v: Vector2D, sqrt: real -> real)
    requires IsSqrt(sqrt)
    ensures Scale(v, -1.0) != Zero <==> v != Zero
    ensures Mag(Scale(v, -1.0), sqrt) == Mag(v, sqrt)
  {
    MagSqScale(v, -1.0);
  }

  lemma NegDot(f: Vector2D, v: Vector2D)
    ensures Dot(f, Scale(v, -1.0)) == -Dot(f, v)
  {
  }

  /** attract's and repel's distance: constrain(distance, 5, 25). */
  function ClampedDistance(distance: real): real {
    Constrain(distance, MinAttractDistance, MaxAttractDistance)
  }

  /** The inverse-square strength g * m1 * m2 / d^2 at the clamped distance d. */
  function GravityStrength(g: real, m1: real, m2: real, distance: real): real {
    var d := ClampedDistance(distance);
    (g * m1 * m2) / (d * d)
  }

  /**
   * The distance used lies in [5, 25], equals the true distance inside that
   * range, and times its square gives back g * m1 * m2; so for a
   * non-negative product the strength lies between its values at 25 and at 5.
   */
  lemma GravityStrengthBounds(g: real, m1: real, m2: real, distance: real)
    ensures var d := ClampedDistance(distance);
      MinAttractDistance <= d <= MaxAttractDistance &&
      (MinAttractDistance <= distance <= MaxAttractDistance ==> d == distance) &&
      GravityStrength(g, m1, m2, distance) * (d * d) == g * m1 * m2
    ensures 0.0 <= g * m1 * m2 ==>
      g * m1 * m2 / (MaxAttractDistance * MaxAttractDistance) <= GravityStrength(g, m1, m2, distance) <=
      g * m1 * m2 / (MinAttractDistance * MinAttractDistance)
  {
    var d := ClampedDistance(distance);
    SquareRange(d, MinAttractDistance, MaxAttractDistance);
    InverseBetween(g * m1 * m2, d * d, MinAttractDistance * MinAttractDistance, MaxAttractDistance * MaxAttractDistance);
  }

  lemma SquareRange(d: real, lo: real, hi: real)
    requires 0.0 < lo <= d <= hi
    ensures 0.0 < lo * lo <= d * d <= hi * hi
  {
    assert d * d - lo * lo == (d - lo) * (d + lo);
    assert hi * hi - d * d == (hi - d) * (hi + d);
  }

  lemma InverseBetween(n: real, q: real, lo: real, hi: real)
    requires 0.0 < lo <= q <= hi
    ensures n / q * q == n
    ensures 0.0 <= n ==> n / hi <= n / q <= n / lo
  {
    if 0.0 <= n {
      assert n / hi == (n / q) * (q / hi);
      assert n / lo == (n / q) * (q / lo);
      assert q / hi <= 1.0;
      assert q / lo >= 1.0;
    }
  }
}
