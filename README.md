# Mover: a verified model of a p5 point-mass steering agent

This project models the `Mover` class of p5-mimicry (`src/Mover/index.js`).
A mover is a point mass with three vectors:

- `location`;
- `velocity`;
- `acceleration`, which collects the forces applied during one animation tick.

It also has three scalars: `mass`, `speedLimit` and `maxForce`.

Forces enter through `applyForce`, which adds force / mass to the acceleration. There are two kinds:

- steering forces: `seek`, `arrive` and `follow`, which projects onto a path with `getNormalPoint`;
- field forces: `applyFriction`, `applyResistance`, and the returned vectors of `attract` and `repel`.

`update` integrates one tick. `checkEdges` keeps the body inside the canvas by clamping and reflecting.

The Dafny project has five modules:

- `Vectors` (vectors.dfy): 2D vectors over the reals, with the p5.Vector operations the mover uses (`add`, `sub`, `mult`, `div`, `dot`, `mag`, `normalize`, `setMag`, `limit`, `dist`) and the p5 helpers `constrain` and `map`. p5 itself is not part of this model. These are redefined with p5's behaviour on the zero vector: `normalize` and `setMag` leave it as it is, and `limit` rescales only when the squared length exceeds max².
- `Defaults` (defaults.dfy): the `DEFAULTS` table and JavaScript's `x || fallback` on numbers.
- `Steering` (steering.dfy): the desired velocities and capped forces of seek and arrive, `getNormalPoint`, and the predicted point and target of follow, as pure functions with lemmas about them.
- `Forces` (forces.dfy): friction, quadratic drag and the clamped inverse-square strength, as pure functions with lemmas about them.
- `Mover` (mover.dfy): the class `Mover`.
  - The methods that update fields in place (`modifies` names exactly the fields the source writes) follow the source step by step. Each is proved to leave the new state equal to a pure function of the old state: the steering, force and vector functions of the modules above, or, for `checkEdges`, the function `Bounce` defined in module `Mover` itself.
  - `attract` and `repel`, which only read the mover, are functions with `reads this`.

Math.sqrt, which `mag`, `normalize`, `setMag`, `limit` and `dist` use, is a parameter `sqrt` of every member that needs it. `IsSqrt(sqrt)` requires it to be the exact non-negative square root on the non-negative reals.

## Model

| member | source | states |
|---|---|---|
| `Defaults.OrDefault` | src/Mover/index.js:17 | the `DEFAULTS.mass` fallback: a non-zero fallback makes the result non-zero (so the default mass keeps the divisor non-zero), and the result is zero exactly when both the value and the fallback are zero |
| `Mover.Mover.constructor` | src/Mover/index.js:12-19 | the mover rests at (x, y) with zero velocity and acceleration, the default speed limit and force cap, and mass given, or 40 for 0, so the mass is never 0 |
| `Mover.Mover.ApplyForce` | src/Mover/index.js:175-179 | acceleration becomes old acceleration + force / mass; only the acceleration may change |
| `Mover.Accumulate` | src/Mover/index.js:175-179 | the acceleration after applying a sequence of forces one by one; properties stated by `Mover.ForcesAddUp` and `Mover.AccelerationStep` |
| `Mover.ForcesAddUp` | src/Mover/index.js:175-179 | applying any sequence of forces one by one raises the acceleration by the net force / mass (induction over the sequence) |
| `Mover.AccelerationStep` | src/Mover/index.js:175-179 | a force of length at most b changes the acceleration by a vector of length at most b / abs(mass) |
| `Mover.Mover.Update` | src/Mover/index.js:181-189 | new velocity = limit(old velocity + acceleration, speedLimit), so its length is at most speedLimit; exactly the sum when that is within the limit; location moves by exactly the new velocity; acceleration is reset to zero |
| `Vectors.LimitCaps` | src/Mover/index.js:184 | `limit(max)` caps the squared length at max², leaves a vector within the cap unchanged, and otherwise keeps the direction at length abs(max) |
| `Vectors.NormalizeUnit` | src/Mover/index.js:27 | `normalize()` yields a unit vector that, stretched by the original length, gives the vector back; the zero vector stays zero |
| `Vectors.SetMagLength` | src/Mover/index.js:145 | `setMag(n)` yields length abs(n) along the vector; the zero vector stays zero |
| `Vectors.MagZero` | src/Mover/index.js:40 | only the zero vector has length zero |
| `Vectors.Constrain` | src/Mover/index.js:109 | `constrain(n, lo, hi)` lies in [lo, hi], is n inside the range, lo below it and hi above it |
| `Vectors.MapRange` | src/Mover/index.js:161 | `map` sends start1 to start2 and stop1 to stop2 |
| `Vectors.MapRangeBetween` | src/Mover/index.js:161 | with increasing ranges, `map` sends every value of [start1, stop1] into [start2, stop2] |
| `Mover.Mover.Seek` | src/Mover/index.js:141-152 | acceleration grows by SeekForce / mass, a change of length at most maxForce / abs(mass); location and velocity are untouched |
| `Steering.SeekDesiredSpeed` | src/Mover/index.js:142-145 | seek wants speedLimit straight toward the target, and nothing when the target is the mover's location |
| `Steering.SeekForce` | src/Mover/index.js:141-152 | seek's steering force, desired minus current velocity limited to maxForce; properties stated by `Steering.SeekDesiredSpeed` and `Steering.SteeringForceCapped` |
| `Steering.ArriveForce` | src/Mover/index.js:154-173 | arrive's steering force; properties stated by `Steering.ArriveSpeedRange`, `Steering.ArriveDesiredSpeed`, `Steering.ArriveFarIsSeek`, `Steering.ArriveNearScalesSeek` and `Steering.SteeringForceCapped` |
| `Steering.SteeringForceCapped` | src/Mover/index.js:141-173 | the steering forces of seek and of arrive both have length at most maxForce |
| `Mover.Mover.Arrive` | src/Mover/index.js:154-173 | acceleration grows by ArriveForce / mass, a change of length at most maxForce / abs(mass); location and velocity are untouched |
| `Steering.ArriveSpeedRange` | src/Mover/index.js:158-166 | the desired speed is speedLimit · d / 100 below distance 100 and speedLimit from 100 on, so it lies in [0, speedLimit] |
| `Steering.ArriveDesiredSpeed` | src/Mover/index.js:155-166 | arrive wants exactly the arrival speed, never more than speedLimit, and nothing at the target itself |
| `Steering.ArriveFarIsSeek` | src/Mover/index.js:163-166 | at distance 100 or more, arrive wants exactly what seek wants |
| `Steering.ArriveNearScalesSeek` | src/Mover/index.js:158-162 | inside distance 100, arrive wants seek's velocity scaled by d / 100 |
| `Mover.Mover.Follow` | src/Mover/index.js:53-83 | seeks the point 10 past the normal point of the 50-ahead prediction only when that prediction is farther than path.radius from its normal point; otherwise acceleration is unchanged; location and velocity are untouched |
| `Steering.PredictedAhead` | src/Mover/index.js:54-57 | a moving mover predicts the point exactly 50 ahead along its velocity; a mover at rest predicts its own location |
| `Steering.FollowTargetAhead` | src/Mover/index.js:66-70 | the target lies exactly 10 past the normal point in the direction from path start to path end; a one-point path gives the normal point |
| `Steering.GetNormalPoint` | src/Mover/index.js:87-97 | the projection of p on the line through a and b; properties stated by `Steering.NormalPointDegenerate`, `Steering.NormalPointProjects` and `Steering.NormalPointFixesLine` |
| `Steering.NormalPointDegenerate` | src/Mover/index.js:87-97 | with a == b the normal point is a |
| `Steering.NormalPointProjects` | src/Mover/index.js:87-97 | with a != b the normal point lies on the line through a and b, and p minus it is orthogonal to b - a |
| `Steering.NormalPointFixesLine` | src/Mover/index.js:87-97 | a point on the line through a and b, inside the segment or beyond either end, is its own normal point: the projection is onto the whole line |
| `Mover.Mover.Attract` | src/Mover/index.js:99-117 | the attraction toward an attractor; properties stated by `Mover.AttractLaw` and `Forces.GravityStrengthBounds` |
| `Mover.AttractLaw` | src/Mover/index.js:99-117 | attract is zero when the two locations coincide; otherwise its length is G · m_self · m_other / d² with d the clamped distance, and it points from the attractor toward this mover; G = 0 stands for 0.4 |
| `Forces.GravityStrengthBounds` | src/Mover/index.js:106-113 | the distance used lies in [5, 25] and equals the true one inside that range; for a non-negative G · m1 · m2 the strength lies between its values at 25 and at 5 |
| `Mover.Mover.Repel` | src/Mover/index.js:119-138 | repel is exactly the negation of attract for the same arguments |
| `Mover.Mover.ApplyFriction` | src/Mover/index.js:21-33 | acceleration grows by FrictionForce / mass; only the acceleration may change |
| `Forces.FrictionForce` | src/Mover/index.js:25-29 | the friction force for a velocity and coefficient; properties stated by `Forces.FrictionOpposesMotion` |
| `Forces.FrictionOpposesMotion` | src/Mover/index.js:25-29 | friction has length abs(c) and points against the velocity (along it for c < 0); none when the mover is at rest |
| `Mover.Mover.ApplyResistance` | src/Mover/index.js:35-51 | acceleration grows by DragForce / mass; only the acceleration may change |
| `Forces.DragForce` | src/Mover/index.js:37-48 | the quadratic drag force for a velocity and coefficient; properties stated by `Forces.DragOpposesMotion` |
| `Forces.DragOpposesMotion` | src/Mover/index.js:37-48 | drag has length k · speed², with k the coefficient or 0.01 for 0, and points against the velocity; none when the mover is at rest |
| `Mover.Mover.CheckEdges` | src/Mover/index.js:191-207 | location and velocity become Bounce of the old ones, with the mass as the radius; the speed is unchanged |
| `Mover.Bounce` | src/Mover/index.js:191-207 | the location and velocity after bouncing off the edges; properties stated by `Mover.ReflectAxis`, `Mover.BounceKeepsSpeed` and `Mover.BounceSettles` |
| `Mover.ReflectAxis` | src/Mover/index.js:192-198 | past bound - radius the coordinate is set to bound - radius; else below radius it is set to radius; either way the velocity component is negated; otherwise both are kept; the result lies in [radius, bound - radius] when 2 · radius ≤ bound |
| `Mover.BounceKeepsSpeed` | src/Mover/index.js:191-207 | reflection never changes the speed |
| `Mover.BounceSettles` | src/Mover/index.js:191-207 | when width and height are at least 2 · mass, the mover ends inside [mass, bound - mass] on both axes and a second checkEdges changes nothing |

## Left out

- `display` (src/Mover/index.js:211-219): p5 rendering with `heading()`, which is trigonometry; there is no logic to verify.
- examples/geneticAlgorithm_classic/sketch.js: canvas setup and the draw loop, driving a genetic-algorithm library whose source is not shown.
- Floating point: every quantity is an exact real. IEEE rounding, NaN and Infinity are not modelled.
- Math.sqrt is not defined here. It is a parameter that is required to be the exact square root, so a result is proved for every exact square root.
- The globals `width` and `height` that `checkEdges` reads are parameters of `CheckEdges`.
- `attract` and `repel` look up the attractor's location and mass by string keys (`attractor[lProp]`, `attractor[mProp]`, src/Mover/index.js:102-104 and 122-124). The model takes the location and the mass as plain parameters.
  - This leaves out a quirk: when `massProp` is not given, `mProp` becomes the mass value itself, and `attractor[mProp]` is not the attractor's mass.
- Only 0 stands for a missing argument in `x || fallback`. `undefined` and NaN are not modelled.
  - With `applyFriction()` called without an argument, the source multiplies by `undefined`. The model has no such call.
  - `applyFriction` computes the defaulted `frictionMag` (src/Mover/index.js:23) but scales by the raw coefficient (line 29). The model follows the code, so a coefficient of 0 gives no friction.
- Mover.Mover.ApplyForce: it requires the class invariant `mass != 0`. The constructor establishes it through `mass || 40`. A mass of 0 assigned to the field afterwards, which in JavaScript divides by zero, is not modelled.
- `getNormalPoint` does not read the mover. It is the module function `Steering.GetNormalPoint` rather than a class member.
- Seek, Arrive, Follow, ApplyFriction and ApplyResistance keep `location`, `velocity`, `mass` and the limits unchanged through their `modifies` frames (they may change only `acceleration`) rather than through separate `ensures` clauses. Update's frame keeps only `mass`, `speedLimit` and `maxForce`; its `ensures` state the new `velocity`, `location` and `acceleration`.
