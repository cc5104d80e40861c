/**
 * The steering behaviours of the mover (seek, arrive and follow in
 * src/Mover/index.js) as pure functions of the mover's state: the desired
 * velocity, the capped steering force, and the geometry of path following.
 * The class Mover applies the forces computed here.
 */
module Steering {
  import opened Vectors

  // Constants written inline in the source.
  const PredictDistance: real := 50.0
  const LookAhead: real := 10.0
  const ArrivalRadius: real := 100.0

  /** The segment a path follower steers along, and the tolerance band around it. */
  datatype Path = Path(start: Vector2D, end: Vector2D, radius: real)

  // ---------------------------------------------------------------- seek

  /** seek's desired velocity: the way to the target, set to speedLimit. */
  function SeekDesired(target: Vector2D, location: Vector2D, speedLimit: real, sqrt: real -> real): Vector2D
    requires IsSqrt(sqrt)
  {
    SetMag(Sub(target, location), speedLimit, sqrt)
  }

  /**
   * seek wants full speed straight at the target: speedLimit in length,
   * along the way from location to target; nothing when it stands on it.
   */
  lemma SeekDesiredSpeed(target: Vector2D, location: Vector2D, speedLimit: real, sqrt: real -> real)
    requires IsSqrt(sqrt)
    ensures target == location ==> SeekDesired(target, location, speedLimit, sqrt) == Zero
    ensures target != location ==>
      MagSq(SeekDesired(target, location, speedLimit, sqrt)) == speedLimit * speedLimit &&
      Scale(SeekDesired(target, location, speedLimit, sqrt), Dist(target, location, sqrt)) ==
        Scale(Sub(target, location), speedLimit)
  {
    SubZero(target, location);
    SetMagLength(Sub(target, location), speedLimit, sqrt);
  }

  /** The force seek applies: desired minus current velocity, limited to maxForce. */
  function SeekForce(target: Vector2D, location: Vector2D, velocity: Vector2D, speedLimit: real, maxForce: real, sqrt: real -> real): Vector2D
    requires IsSqrt(sqrt)
  {
    Limit(Sub(SeekDesired(target, location, speedLimit, sqrt), velocity), maxForce, sqrt)
  }

  // -------------------------------------------------------------- arrive

  /**
   * arrive's desired speed at distance d from the target: p5's
   * map(d, 0, ArrivalRadius, 0, speedLimit) inside the arrival radius,
   * speedLimit outside it.
   */
  function ArriveSpeed(d: real, speedLimit: real): real {
    if d < ArrivalRadius then MapRange(d, 0.0, ArrivalRadius, 0.0, speedLimit) else speedLimit
  }

  /**
   * The desired speed is speedLimit * d / ArrivalRadius inside the arrival
   * radius and speedLimit from it on, so it never exceeds speedLimit.
   */
  lemma ArriveSpeedRange(d: real, speedLimit: real)
    ensures d >= ArrivalRadius ==> ArriveSpeed(d, speedLimit) == speedLimit
    ensures d < ArrivalRadius ==> ArriveSpeed(d, speedLimit) * ArrivalRadius == speedLimit * d
    ensures 0.0 <= d && 0.0 <= speedLimit ==> 0.0 <= ArriveSpeed(d, speedLimit) <= speedLimit
  {
    if d < ArrivalRadius {
      assert ArriveSpeed(d, speedLimit) == d / ArrivalRadius * speedLimit;
    }
  }

  /** arrive's desired velocity: the way to the target, set to the arrival speed. */
  function ArriveDesired(target: Vector2D, location: Vector2D, speedLimit: real, sqrt: real -> real): Vector2D
    requires IsSqrt(sqrt)
  {
    var desired := Sub(target, location);
    var d := Mag(desired, sqrt);
    if d < ArrivalRadius then SetMag(desired, MapRange(d, 0.0, ArrivalRadius, 0.0, speedLimit), sqrt)
    else SetMag(desired, speedLimit, sqrt)
  }

  /**
   * arrive wants exactly the arrival speed, so never more than speedLimit,
   * and nothing when it stands on the target.
   */
  lemma ArriveDesiredSpeed(target: Vector2D, location: Vector2D, speedLimit: real, sqrt: real -> real)
    requires IsSqrt(sqrt)
    ensures target == location ==> ArriveDesired(target, location, speedLimit, sqrt) == Zero
    ensures var speed := ArriveSpeed(Dist(target, location, sqrt), speedLimit);
      MagSq(ArriveDesired(target, location, speedLimit, sqrt)) == speed * speed
    ensures 0.0 <= speedLimit ==>
      MagSq(ArriveDesired(target, location, speedLimit, sqrt)) <= speedLimit * speedLimit
  {
    var desired := Sub(target, location);
    var d := Mag(desired, sqrt);
    var speed := ArriveSpeed(d, speedLimit);
    var r := ArriveDesired(target, location, speedLimit, sqrt);
    SubZero(target, location);
    MagZero(desired, sqrt);
    assert r == SetMag(desired, speed, sqrt);
    SetMagLength(desired, speed, sqrt);
    if desired == Zero {
      assert d == 0.0 && speed == 0.0;
      assert r == Zero;
      SquareNonNegative(speed);
    } else {
      assert MagSq(r) == speed * speed;
    }
    if 0.0 <= speedLimit {
      ArriveSpeedRange(d, speedLimit);
      SquareBetween(speed, speedLimit);
    }
  }

  /** From ArrivalRadius on, arrive wants exactly what seek wants. */
  lemma ArriveFarIsSeek(target: Vector2D, location: Vector2D, speedLimit: real, sqrt: real -> real)
    requires IsSqrt(sqrt)
    requires Dist(target, location, sqrt) >= ArrivalRadius
    ensures ArriveDesired(target, location, speedLimit, sqrt) == SeekDesired(target, location, speedLimit, sqrt)
  {
  }

  /**
   * Inside ArrivalRadius, arrive wants seek's velocity scaled by
   * d / ArrivalRadius: slower than seek, and nothing at the target itself.
   */
  lemma ArriveNearScalesSeek(target: Vector2D, location: Vector2D, speedLimit: real, sqrt: real -> real)
    requires IsSqrt(sqrt)
    requires Dist(target, location, sqrt) < ArrivalRadius
    ensures ArriveDesired(target, location, speedLimit, sqrt) ==
      Scale(SeekDesired(target, location, speedLimit, sqrt), Dist(target, location, sqrt) / ArrivalRadius)
  {
    var desired := Sub(target, location);
    var d := Mag(desired, sqrt);
    var u := Normalize(desired, sqrt);
    var m := MapRange(d, 0.0, ArrivalRadius, 0.0, speedLimit);
    assert m == speedLimit * (d / ArrivalRadius);
    ScaleCommutes(u, speedLimit, d / ArrivalRadius);
  }

  /** The force arrive applies: desired minus current velocity, limited to maxForce. */
  function ArriveForce(target: Vector2D, location: Vector2D, velocity: Vector2D, speedLimit: real, maxForce: real, sqrt: real -> real): Vector2D
    requires IsSqrt(sqrt)
  {
    Limit(Sub(ArriveDesired(target, location, speedLimit, sqrt), velocity), maxForce, sqrt)
  }

  /** Both steering forces are capped at maxForce. */
  lemma SteeringForceCapped(target: Vector2D, location: Vector2D, velocity: Vector2D, speedLimit: real, maxForce: real, sqrt: real -> real)
    requires IsSqrt(sqrt)
    ensures MagSq(SeekForce(target, location, velocity, speedLimit, maxForce, sqrt)) <= maxForce * maxForce
    ensures MagSq(ArriveForce(target, location, velocity, speedLimit, maxForce, sqrt)) <= maxForce * maxForce
  {
    LimitCaps(Sub(SeekDesired(target, location, speedLimit, sqrt), velocity), maxForce, sqrt);
    LimitCaps(Sub(ArriveDesired(target, location, speedLimit, sqrt), velocity), maxForce, sqrt);
  }

  // ------------------------------------------------------ path following

  /**
   * getNormalPoint: p projected on the line through a and b, through the
   * unit vector from a to b and a dot product.
   */
  function GetNormalPoint(p: Vector2D, a: Vector2D, b: Vector2D, sqrt: real -> real): Vector2D
    requires IsSqrt(sqrt)
  {
    var ap := Sub(p, a);
    var ab := Normalize(Sub(b, a), sqrt);
    Add(a, Scale(ab, Dot(ap, ab)))
  }

  /** With a == b there is no line, and the normal point is a. */
  lemma NormalPointDegenerate(p: Vector2D, a: Vector2D, sqrt: real -> real)
    requires IsSqrt(sqrt)
    ensures GetNormalPoint(p, a, a, sqrt) == a
  {
    assert Sub(a, a) == Zero;
    NormalizeUnit(Zero, sqrt);
    StepOnZero(a, Dot(Sub(p, a), Zero));
  }

  /** A step of any length along the zero direction stays in place. */
  lemma StepOnZero(a: Vector2D, t: real)
    ensures Add(a, Scale(Zero, t)) == a
  {
  }

  /**
   * The normal point lies on the line through a and b, and the way from it
   * to p is orthogonal to that line.
   */
  lemma NormalPointProjects(p: Vector2D, a: Vector2D, b: Vector2D, sqrt: real -> real)
    requires IsSqrt(sqrt) && a != b
    ensures var n := GetNormalPoint(p, a, b, sqrt);
      Cross(Sub(n, a), Sub(b, a)) == 0.0 && Dot(Sub(p, n), Sub(b, a)) == 0.0
  {
    var w := Sub(b, a);
    SubZero(b, a);
    NormalizeUnit(w, sqrt);
    var len := Mag(w, sqrt);
    var u := Normalize(w, sqrt);
    var ap := Sub(p, a);
    var t := Dot(ap, u);
    var n := GetNormalPoint(p, a, b, sqrt);
    assert Sub(n, a) == Scale(u, t);
    assert Sub(p, n) == Sub(ap, Scale(u, t));
    CrossParallel(u, t, len);
    ResidualOrthogonal(ap, u, len);
  }

  /**
   * A point already on the line through a and b, between them or beyond
   * either end, is its own normal point: the projection is onto the whole
   * line, not clamped to the segment.
   */
  lemma NormalPointFixesLine(p: Vector2D, a: Vector2D, b: Vector2D, sqrt: real -> real)
    requires IsSqrt(sqrt) && a != b
    requires Cross(Sub(p, a), Sub(b, a)) == 0.0
    ensures GetNormalPoint(p, a, b, sqrt) == p
  {
    var w := Sub(b, a);
    SubZero(b, a);
    NormalizeUnit(w, sqrt);
    MagZero(w, sqrt);
    var len := Mag(w, sqrt);
    var u := Normalize(w, sqrt);
    var ap := Sub(p, a);
    OnLineFixed(ap, u, len);
    AddSub(a, p);
  }

  /** A vector parallel to Scale(u, len), for a unit u, is its own projection on u. */
  lemma OnLineFixed(ap: Vector2D, u: Vector2D, len: real)
    requires MagSq(u) == 1.0 && len > 0.0 && Cross(ap, Scale(u, len)) == 0.0
    ensures Scale(u, Dot(ap, u)) == ap
  {
    var t := Dot(ap, u);
    var e := Sub(ap, Scale(u, t));
    ResidualOrthogonal(ap, u, 1.0);
    assert Scale(u, 1.0) == u;
    CrossResidual(ap, u, t, len);
    Lagrange(e, u);
    ZeroLength(e);
    SubZero(ap, Scale(u, t));
  }

  lemma CrossParallel(u: Vector2D, t: real, len: real)
    ensures Cross(Scale(u, t), Scale(u, len)) == 0.0
  {
    assert Cross(Scale(u, t), Scale(u, len)) == t * len * (u.x * u.y - u.y * u.x);
  }

  /** Taking out the component along a unit vector u leaves something orthogonal to u. */
  lemma ResidualOrthogonal(ap: Vector2D, u: Vector2D, len: real)
    requires MagSq(u) == 1.0
    ensures Dot(Sub(ap, Scale(u, Dot(ap, u))), Scale(u, len)) == 0.0
  {
    var t := Dot(ap, u);
    DotScale(Sub(ap, Scale(u, t)), u, len);
    assert Dot(Sub(ap, Scale(u, t)), u) == t - t * MagSq(u);
  }

  lemma CrossResidual(ap: Vector2D, u: Vector2D, t: real, len: real)
    requires len > 0.0 && Cross(ap, Scale(u, len)) == 0.0
    ensures Cross(Sub(ap, Scale(u, t)), u) == 0.0
  {
    assert Cross(ap, Scale(u, len)) == len * Cross(ap, u);
    assert Cross(Sub(ap, Scale(u, t)), u) == Cross(ap, u) - t * (u.x * u.y - u.y * u.x);
  }

  /** Lagrange's identity in the plane: (e . u)^2 + (e x u)^2 == |e|^2 |u|^2. */
  lemma Lagrange(e: Vector2D, u: Vector2D)
    ensures Dot(e, u) * Dot(e, u) + Cross(e, u) * Cross(e, u) == MagSq(e) * MagSq(u)
  {
  }

  lemma ZeroLength(e: Vector2D)
    requires MagSq(e) == 0.0
    ensures e == Zero
  {
  }

  /** follow's prediction: PredictDistance ahead of the mover along its velocity. */
  function PredictedLocation(location: Vector2D, velocity: Vector2D, sqrt: real -> real): Vector2D
    requires IsSqrt(sqrt)
  {
    Add(location, Scale(Normalize(velocity, sqrt), PredictDistance))
  }

  /**
   * A moving mover predicts a point exactly PredictDistance away, straight
   * along its velocity; a mover at rest predicts its own location.
   */
  lemma PredictedAhead(location: Vector2D, velocity: Vector2D, sqrt: real -> real)
    requires IsSqrt(sqrt)
    ensures velocity == Zero ==> PredictedLocation(location, velocity, sqrt) == location
    ensures velocity != Zero ==>
      var ahead := Sub(PredictedLocation(location, velocity, sqrt), location);
      MagSq(ahead) == PredictDistance * PredictDistance &&
      Dot(ahead, velocity) == PredictDistance * Mag(velocity, sqrt)
  {
    StepAlong(location, velocity, PredictDistance, sqrt);
  }

  /** follow's target: LookAhead beyond the normal point, along the path. */
  function FollowTarget(normalPoint: Vector2D, path: Path, sqrt: real -> real): Vector2D
    requires IsSqrt(sqrt)
  {
    Add(normalPoint, Scale(Normalize(Sub(path.end, path.start), sqrt), LookAhead))
  }

  /**
   * The target is LookAhead past the normal point in the direction from the
   * path's start to its end; a path of one point gives the normal point.
   */
  lemma FollowTargetAhead(normalPoint: Vector2D, path: Path, sqrt: real -> real)
    requires IsSqrt(sqrt)
    ensures path.start == path.end ==> FollowTarget(normalPoint, path, sqrt) == normalPoint
    ensures path.start != path.end ==>
      var ahead := Sub(FollowTarget(normalPoint, path, sqrt), normalPoint);
      MagSq(ahead) == LookAhead * LookAhead &&
      Dot(ahead, Sub(path.end, path.start)) == LookAhead * Dist(path.end, path.start, sqrt)
  {
    SubZero(path.end, path.start);
    StepAlong(normalPoint, Sub(path.end, path.start), LookAhead, sqrt);
  }

  // --------------------------------------------------------------- helpers

  /** A step of length |k| from base along w; no step at all when w is zero. */
  lemma StepAlong(base: Vector2D, w: Vector2D, k: real, sqrt: real -> real)
    requires IsSqrt(sqrt)
    ensures w == Zero ==> Add(base, Scale(Normalize(w, sqrt), k)) == base
    ensures w != Zero ==>
      var ahead := Sub(Add(base, Scale(Normalize(w, sqrt), k)), base);
      MagSq(ahead) == k * k && Dot(ahead, w) == k * Mag(w, sqrt)
  {
    NormalizeUnit(w, sqrt);
    var step := Scale(Normalize(w, sqrt), k);
    if w == Zero {
      ScaleZero(k);
      assert step == Zero;
    } else {
      SubAdd(base, step);
      AlongUnit(w, k, sqrt);
    }
  }

  lemma SquareBetween(d: real, hi: real)
    requires 0.0 <= d <= hi
    ensures d * d <= hi * hi
  {
    assert hi * hi - d * d == (hi - d) * (hi + d);
  }
}
