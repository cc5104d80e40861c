/**
 * The DEFAULTS table at the top of src/Mover/index.js, and JavaScript's
 * `value || fallback` idiom with which the mover applies it.
 */
module Defaults {

  const DefaultSpeedLimit: real := 4.0
  const DefaultMass: real := 40.0
  /**
   * Read only by applyFriction's `frictionMag` (src/Mover/index.js:23),
   * which the source computes and never uses; the friction model therefore
   * does not refer to it either.
   */
  const DefaultFrictionCoefficient: real := 0.01
  const DefaultDragCoefficient: real := 0.01
  const DefaultG: real := 0.4
  const DefaultMaxForce: real := 0.2

  /**
   * `x || fallback` on a number: the fallback replaces 0, the only falsy
   * real (NaN and undefined are not modelled), and every other x is kept.
   * A non-zero fallback therefore makes the result non-zero, which is what
   * lets the mover divide by its mass: the result is zero only when both
   * are, so applying the fallback a second time changes nothing.
   */
  function OrDefault(x: real, fallback: real): (r: real)
    ensures x != 0.0 ==> r == x
    ensures x == 0.0 ==> r == fallback
    ensures fallback != 0.0 ==> r != 0.0
    ensures r == 0.0 <==> x == 0.0 && fallback == 0.0
  {
    if x == 0.0 then fallback else x
  }
}
