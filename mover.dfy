/**
 * The Mover of src/Mover/index.js: a point mass with a location, a velocity
 * and an acceleration that forces accumulate into, integrated once per tick
 * by Update. The steering and field forces it applies are the pure
 * functions of the modules Steering and Forces; each method here is proved
 * to apply exactly that force and to change nothing but the fields it names.
 */
module Mover {
  import opened Vectors
  import opened Defaults
  import opened Steering
  import opened Forces

  class Mover {
    var location: Vector2D
    var velocity: Vector2D
    var acceleration: Vector2D
    var mass: real
    var speedLimit: real
    var maxForce: real

    /** Forces are divided by the mass, which `mass || DEFAULTS.mass` keeps away from zero. */
    ghost predicate Valid()
      reads this
    {
      mass != 0.0
    }

    /**
     * A mover at rest at (x, y), with the default speed limit and force cap;
     * a mass of 0 stands for the default mass.
     */
    constructor(x: real, y: real, mass: real)
      ensures Valid()
      ensures location == Vector2D(x, y) && velocity == Zero && acceleration == Zero
      ensures this.mass == OrDefault(mass, DefaultMass)
      ensures speedLimit == DefaultSpeedLimit && maxForce == DefaultMaxForce
    {
      location := Vector2D(x, y);
      velocity := Vector2D(0.0, 0.0);
      acceleration := Vector2D(0.0, 0.0);
      speedLimit := DefaultSpeedLimit;
      this.mass := OrDefault(mass, DefaultMass);
      maxForce := DefaultMaxForce;
    }

    /** Newton's second law: the force divided by the mass joins the acceleration. */
    method ApplyForce(force: Vector2D)
      requires Valid()
      modifies this`acceleration
      ensures acceleration == Add(old(acceleration), Div(force, mass))
    {
      var f := Div(force, mass);
      acceleration := Add(acceleration, f);
    }

    /**
     * One integration step: the accumulated acceleration enters the velocity,
     * which is then capped at the speed limit; the mover moves by the new
     * velocity, and the acceleration starts the next tick at zero.
     */
    method Update(sqrt: real -> real)
      requires IsSqrt(sqrt)
      modifies this`velocity, this`location, this`acceleration
      ensures velocity == Limit(Add(old(velocity), old(acceleration)), speedLimit, sqrt)
      ensures MagSq(velocity) <= speedLimit * speedLimit
      ensures MagSq(Add(old(velocity), old(acceleration))) <= speedLimit * speedLimit ==>
                velocity == Add(old(velocity), old(acceleration))
      ensures location == Add(old(location), velocity)
      ensures acceleration == Zero
    {
      LimitCaps(Add(velocity, acceleration), speedLimit, sqrt);
      velocity := Add(velocity, acceleration);
      velocity := Limit(velocity, speedLimit, sqrt);
      location := Add(location, velocity);
      acceleration := Scale(acceleration, 0.0);
    }

    /**
     * seek: steer toward the target at full speed. The steering force is
     * capped at maxForce, so the acceleration changes by at most
     * maxForce / |mass|, and nothing but the acceleration changes.
     */
    method Seek(target: Vector2D, sqrt: real -> real)
      requires Valid() && IsSqrt(sqrt)
      modifies this`acceleration
      ensures acceleration == Add(old(acceleration), Div(SeekForce(target, location, velocity, speedLimit, maxForce, sqrt), mass))
      ensures MagSq(Sub(acceleration, old(acceleration))) <= (maxForce / mass) * (maxForce / mass)
    {
      var desired := Sub(target, location);
      desired := SetMag(desired, speedLimit, sqrt);
      var steer := Sub(desired, velocity);
      LimitCaps(steer, maxForce, sqrt);
      steer := Limit(steer, maxForce, sqrt);
      assert steer == SeekForce(target, location, velocity, speedLimit, maxForce, sqrt);
      AccelerationStep(acceleration, steer, mass, maxForce);
      ApplyForce(steer);
    }

    /**
     * arrive: seek with a braking zone; within ArrivalRadius of the target
     * the desired speed falls linearly to zero. The same cap on the change of
     * acceleration holds as for seek.
     */
    method Arrive(target: Vector2D, sqrt: real -> real)
      requires Valid() && IsSqrt(sqrt)
      modifies this`acceleration
      ensures acceleration == Add(old(acceleration), Div(ArriveForce(target, location, velocity, speedLimit, maxForce, sqrt), mass))
      ensures MagSq(Sub(acceleration, old(acceleration))) <= (maxForce / mass) * (maxForce / mass)
    {
      var desired := Sub(target, location);
      var d := Mag(desired, sqrt);
      if d < ArrivalRadius {
        var m := MapRange(d, 0.0, ArrivalRadius, 0.0, speedLimit);
        desired := SetMag(desired, m, sqrt);
      } else {
        desired := SetMag(desired, speedLimit, sqrt);
      }
      var steer := Sub(desired, velocity);
      LimitCaps(steer, maxForce, sqrt);
      steer := Limit(steer, maxForce, sqrt);
      assert steer == ArriveForce(target, location, velocity, speedLimit, maxForce, sqrt);
      AccelerationStep(acceleration, steer, mass, maxForce);
      ApplyForce(steer);
    }

    /**
     * follow: predict where the mover will be PredictDistance ahead, project
     * that point on the path's line, and seek a point LookAhead further along
     * the path, but only when the prediction is farther from the line than
     * the path's radius; otherwise the acceleration is left as it is.
     */
    method Follow(path: Path, sqrt: real -> real)
      requires Valid() && IsSqrt(sqrt)
      modifies this`acceleration
      ensures
        var predicted := PredictedLocation(location, velocity, sqrt);
        var normal := GetNormalPoint(predicted, path.start, path.end, sqrt);
        var target := FollowTarget(normal, path, sqrt);
        acceleration ==
          if Dist(predicted, normal, sqrt) > path.radius
          then Add(old(acceleration), Div(SeekForce(target, location, velocity, speedLimit, maxForce, sqrt), mass))
          else old(acceleration)
    {
      var predict := velocity;
      predict := Normalize(predict, sqrt);
      predict := Scale(predict, PredictDistance);
      var predictLocation := Add(location, predict);

      var a := path.start;
      var b := path.end;
      var normalPoint := GetNormalPoint(predictLocation, a, b, sqrt);
      var dir := Sub(b, a);
      dir := Normalize(dir, sqrt);
      dir := Scale(dir, LookAhead);
      var target := Add(normalPoint, dir);

      var distance := Dist(predictLocation, normalPoint, sqrt);
      if distance > path.radius {
        Seek(target, sqrt);
      }
    }

    /** applyFriction: applies FrictionForce for the current velocity. */
    method ApplyFriction(frictionCoefficient: real, sqrt: real -> real)
      requires Valid() && IsSqrt(sqrt)
      modifies this`acceleration
      ensures acceleration == Add(old(acceleration), Div(FrictionForce(velocity, frictionCoefficient, sqrt), mass))
    {
      var f := velocity;
      f := Scale(f, -1.0);
      f := Normalize(f, sqrt);
      f := Scale(f, frictionCoefficient);
      assert f == FrictionForce(velocity, frictionCoefficient, sqrt);
      ApplyForce(f);
    }

    /** applyResistance: applies DragForce for the current velocity. */
    method ApplyResistance(dragCoefficient: real, sqrt: real -> real)
      requires Valid() && IsSqrt(sqrt)
      modifies this`acceleration
      ensures acceleration == Add(old(acceleration), Div(DragForce(velocity, dragCoefficient, sqrt), mass))
    {
      var f := velocity;
      var speed := Mag(f, sqrt);
      f := Scale(f, -1.0);
      f := Normalize(f, sqrt);
      var dragCoeff := OrDefault(dragCoefficient, DefaultDragCoefficient);
      var strength := dragCoeff * speed * speed;
      assert strength == DragStrength(dragCoefficient, speed);
      f := Scale(f, strength);
      assert f == DragForce(velocity, dragCoefficient, sqrt);
      ApplyForce(f);
    }

    /**
     * attract: the force this mover exerts on an attractor at
     * attractorLocation with mass attractorMass, that is the unit vector
     * from the attractor toward this mover scaled by the clamped
     * inverse-square strength; an attraction constant of 0 stands for the
     * default. The mover is only read. (Its law is AttractLaw.)
     */
    function Attract(attractorLocation: Vector2D, attractorMass: real, attractionConstant: real, sqrt: real -> real): Vector2D
      reads this
      requires IsSqrt(sqrt)
    {
      var f := Sub(location, attractorLocation);
      var distance := Mag(f, sqrt);
      var g := OrDefault(attractionConstant, DefaultG);
      var strength := GravityStrength(g, mass, attractorMass, distance);
      Scale(Normalize(f, sqrt), strength)
    }

    /** repel: the same computation with the strength negated, so exactly attract reversed. */
    function Repel(attractorLocation: Vector2D, attractorMass: real, attractionConstant: real, sqrt: real -> real): (r: Vector2D)
      reads this
      requires IsSqrt(sqrt)
      ensures r == Neg(Attract(attractorLocation, attractorMass, attractionConstant, sqrt))
    {
      var f := Sub(location, attractorLocation);
      var distance := Mag(f, sqrt);
      var g := OrDefault(attractionConstant, DefaultG);
      var strength := GravityStrength(g, mass, attractorMass, distance);
      ScaleCommutes(Normalize(f, sqrt), strength, -1.0);
      Scale(Normalize(f, sqrt), strength * -1.0)
    }

    /**
     * checkEdges in a width x height region, with the mass standing in for
     * the body's radius: each axis is clamped and its velocity component
     * reversed as ReflectAxis says, so the speed is kept.
     */
    method CheckEdges(width: real, height: real)
      modifies this`location, this`velocity
      ensures (location, velocity) == Bounce(old(location), old(velocity), width, height, mass)
      ensures MagSq(velocity) == MagSq(old(velocity))
    {
      if location.x > width - mass {
        location := location.(x := width - mass);
        velocity := velocity.(x := velocity.x * -1.0);
      } else if location.x < mass {
        location := location.(x := mass);
        velocity := velocity.(x := velocity.x * -1.0);
      }

      if location.y > height - mass {
        location := location.(y := height - mass);
        velocity := velocity.(y := velocity.y * -1.0);
      } else if location.y < mass {
        location := location.(y := mass);
        velocity := velocity.(y := velocity.y * -1.0);
      }
      BounceKeepsSpeed(old(location), old(velocity), width, height, mass);
    }
  }

  // ------------------------------------------------------ force accumulation

  /** The acceleration after applyForce has been called with each force in turn. */
  function Accumulate(acceleration: Vector2D, forces: seq<Vector2D>, mass: real): Vector2D
    requires mass != 0.0
    decreases |forces|
  {
    if |forces| == 0 then acceleration
    else Accumulate(Add(acceleration, Div(forces[0], mass)), forces[1..], mass)
  }

  /** The net force. */
  function SumForces(forces: seq<Vector2D>): Vector2D
    decreases |forces|
  {
    if |forces| == 0 then Zero else Add(forces[0], SumForces(forces[1..]))
  }

  /**
   * Forces applied one by one within a tick add up: the acceleration grows
   * by the net force divided by the mass.
   */
  lemma {:induction false} ForcesAddUp(acceleration: Vector2D, forces: seq<Vector2D>, mass: real)
    requires mass != 0.0
    ensures Accumulate(acceleration, forces, mass) == Add(acceleration, Div(SumForces(forces), mass))
    decreases |forces|
  {
    if |forces| == 0 {
      assert Div(Zero, mass) == Zero;
    } else {
      var next := Add(acceleration, Div(forces[0], mass));
      ForcesAddUp(next, forces[1..], mass);
      DivAdd(forces[0], SumForces(forces[1..]), mass);
    }
  }

  lemma DivAdd(a: Vector2D, b: Vector2D, k: real)
    requires k != 0.0
    ensures Div(Add(a, b), k) == Add(Div(a, k), Div(b, k))
  {
  }

  /** A force of length at most bound changes the acceleration by at most bound / |mass|. */
  lemma AccelerationStep(acceleration: Vector2D, force: Vector2D, mass: real, bound: real)
    requires mass != 0.0 && MagSq(force) <= bound * bound
    ensures MagSq(Sub(Add(acceleration, Div(force, mass)), acceleration)) <= (bound / mass) * (bound / mass)
  {
    SubAdd(acceleration, Div(force, mass));
    DivBound(force, mass, bound);
  }

  lemma DivBound(force: Vector2D, mass: real, bound: real)
    requires mass != 0.0 && MagSq(force) <= bound * bound
    ensures MagSq(Div(force, mass)) <= (bound / mass) * (bound / mass)
  {
    DivMagSq(force, mass);
    ScalarBound(MagSq(Div(force, mass)), MagSq(force), mass, bound);
  }

  lemma ScalarBound(q: real, p: real, m: real, b: real)
    requires m != 0.0 && q == (1.0 / m) * (1.0 / m) * p && p <= b * b
    ensures q <= (b / m) * (b / m)
  {
    var k := 1.0 / m;
    SquareNonNegative(k);
    MulMonotone(k * k, p, b * b);
    InverseSquare(b, m);
  }

  lemma DivMagSq(force: Vector2D, mass: real)
    requires mass != 0.0
    ensures MagSq(Div(force, mass)) == (1.0 / mass) * (1.0 / mass) * MagSq(force)
  {
    assert Div(force, mass) == Scale(force, 1.0 / mass);
    MagSqScale(force, 1.0 / mass);
  }

  lemma MulMonotone(c: real, x: real, y: real)
    requires 0.0 <= c && x <= y
    ensures c * x <= c * y
  {
    assert c * y - c * x == c * (y - x);
  }

  lemma InverseSquare(b: real, m: real)
    requires m != 0.0
    ensures (1.0 / m) * (1.0 / m) * (b * b) == (b / m) * (b / m)
  {
    assert b / m == b * (1.0 / m);
  }

  // ---------------------------------------------------------------- gravity

  /**
   * attract's law: zero when the two locations coincide; otherwise a force
   * of size equal to the clamped inverse-square strength, pointing from the
   * attractor toward the mover.
   */
  lemma AttractLaw(m: Mover, attractorLocation: Vector2D, attractorMass: real, attractionConstant: real, sqrt: real -> real)
    requires IsSqrt(sqrt)
    ensures m.location == attractorLocation ==> m.Attract(attractorLocation, attractorMass, attractionConstant, sqrt) == Zero
    ensures m.location != attractorLocation ==>
      var r := m.Attract(attractorLocation, attractorMass, attractionConstant, sqrt);
      var s := GravityStrength(OrDefault(attractionConstant, DefaultG), m.mass, attractorMass, Dist(m.location, attractorLocation, sqrt));
      MagSq(r) == s * s && Dot(r, Sub(m.location, attractorLocation)) == s * Dist(m.location, attractorLocation, sqrt)
  {
    var f := Sub(m.location, attractorLocation);
    var s := GravityStrength(OrDefault(attractionConstant, DefaultG), m.mass, attractorMass, Mag(f, sqrt));
    SubZero(m.location, attractorLocation);
    if f == Zero {
      NormalizeUnit(f, sqrt);
      ScaleZero(s);
    } else {
      AlongUnit(f, s, sqrt);
    }
  }

  // ------------------------------------------------------------------ edges

  /**
   * One axis of checkEdges: a coordinate p past bound - radius is put back on
   * bound - radius, one below radius on radius, and in both cases the
   * velocity component v is reversed; otherwise nothing changes.
   */
  function ReflectAxis(p: real, v: real, bound: real, radius: real): (r: (real, real))
    ensures p > bound - radius ==> r == (bound - radius, -v)
    ensures p <= bound - radius && p < radius ==> r == (radius, -v)
    ensures radius <= p <= bound - radius ==> r == (p, v)
    ensures radius + radius <= bound ==> radius <= r.0 <= bound - radius
  {
    if p > bound - radius then (bound - radius, v * -1.0)
    else if p < radius then (radius, v * -1.0)
    else (p, v)
  }

  /** checkEdges on a location and a velocity: ReflectAxis on x, then on y. */
  function Bounce(location: Vector2D, velocity: Vector2D, width: real, height: real, radius: real): (Vector2D, Vector2D)
  {
    var (x, vx) := ReflectAxis(location.x, velocity.x, width, radius);
    var (y, vy) := ReflectAxis(location.y, velocity.y, height, radius);
    (Vector2D(x, y), Vector2D(vx, vy))
  }

  /** Reflection only flips the signs of velocity components, so the speed is kept. */
  lemma BounceKeepsSpeed(location: Vector2D, velocity: Vector2D, width: real, height: real, radius: real)
    ensures MagSq(Bounce(location, velocity, width, height, radius).1) == MagSq(velocity)
  {
    var w := Bounce(location, velocity, width, height, radius).1;
    NegSquare(velocity.x, w.x);
    NegSquare(velocity.y, w.y);
  }

  lemma NegSquare(a: real, b: real)
    requires b == a || b == -a
    ensures b * b == a * a
  {
    if b == -a {
      assert b * b == (-a) * (-a);
    }
  }

  /**
   * When the region is at least a body wide in each direction, checkEdges
   * leaves the mover inside [radius, bound - radius] on both axes, and a
   * second call changes nothing.
   */
  lemma BounceSettles(location: Vector2D, velocity: Vector2D, width: real, height: real, radius: real)
    requires radius + radius <= width && radius + radius <= height
    ensures var (l, v) := Bounce(location, velocity, width, height, radius);
      radius <= l.x <= width - radius && radius <= l.y <= height - radius &&
      Bounce(l, v, width, height, radius) == (l, v)
  {
  }
}
