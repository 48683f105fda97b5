// The rigid-body dynamics shared by both versions of RigidBody: the
// symplectic-Euler step of advanceTime, kinetic energy, gravity and the
// velocity of a point carried by the body.

module Dynamics {
  import opened Vectors

  /** The kinematic state advanceTime integrates: centre-of-mass position x,
      linear velocity v, orientation angles theta, angular velocity omega. */
  datatype Motion = Motion(x: Vec3, v: Vec3, theta: Vec3, omega: Vec3)

  const AtRest := Motion(Zero, Zero, Zero, Zero)

  /** One symplectic-Euler step of an unpinned body under the accumulated
      force and torque: the angular velocity is updated first and the angles
      advance with the new angular velocity; the linear velocity is updated
      with the force divided by the mass and the position advances with the
      new velocity. */
  function EulerStep(m: Motion, force: Vec3, torque: Vec3, massLinear: real, jinv: real, dt: real): Motion
    requires massLinear != 0.0
  {
    var omega := Vec3(m.omega.x + dt * torque.x * jinv,
                      m.omega.y + dt * torque.y * jinv,
                      m.omega.z + dt * torque.z * jinv);
    var theta := Vec3(m.theta.x + dt * omega.x,
                      m.theta.y + dt * omega.y,
                      m.theta.z + dt * omega.z);
    var v := Vec3(m.v.x + 1.0 / massLinear * force.x * dt,
                  m.v.y + 1.0 / massLinear * force.y * dt,
                  m.v.z + 1.0 / massLinear * force.z * dt);
    var x := Vec3(m.x.x + v.x * dt, m.x.y + v.y * dt, m.x.z + v.z * dt);
    Motion(x, v, theta, omega)
  }

  /** The reciprocal, as the inverse masses minv and jinv are computed. */
  function Inverse(a: real): real
    requires a != 0.0
  {
    1.0 / a
  }

  /** One velocity component: mass times the change is dt times the force. */
  lemma ComponentImpulse(mass: real, v: real, f: real, dt: real)
    requires mass != 0.0
    ensures mass * ((v + 1.0 / mass * f * dt) - v) == dt * f
  {
    assert mass * (1.0 / mass) == 1.0;
    calc {
      mass * ((v + 1.0 / mass * f * dt) - v);
      mass * (1.0 / mass * f * dt);
      (mass * (1.0 / mass)) * (f * dt);
      dt * f;
    }
  }

  /** One angular component: the change is dt jinv times the torque. */
  lemma ComponentSpin(w: real, t: real, jinv: real, dt: real)
    ensures (w + dt * t * jinv) - w == dt * jinv * t
  {
    assert dt * t * jinv == dt * jinv * t;
  }

  /** Impulse and momentum: the step changes the linear momentum by exactly
      dt times the force, and the angular velocity by dt times jinv times
      the torque. */
  lemma StepImpulse(m: Motion, force: Vec3, torque: Vec3, massLinear: real, jinv: real, dt: real)
    requires massLinear != 0.0
    ensures Scale(massLinear, Sub(EulerStep(m, force, torque, massLinear, jinv, dt).v, m.v)) == Scale(dt, force)
    ensures Sub(EulerStep(m, force, torque, massLinear, jinv, dt).omega, m.omega) == Scale(dt * jinv, torque)
  {
    ComponentImpulse(massLinear, m.v.x, force.x, dt);
    ComponentImpulse(massLinear, m.v.y, force.y, dt);
    ComponentImpulse(massLinear, m.v.z, force.z, dt);
    ComponentSpin(m.omega.x, torque.x, jinv, dt);
    ComponentSpin(m.omega.y, torque.y, jinv, dt);
    ComponentSpin(m.omega.z, torque.z, jinv, dt);
  }

  /** The step is symplectic: the position and the angles move along the
      new velocities, not the old ones. */
  lemma StepDrift(m: Motion, force: Vec3, torque: Vec3, massLinear: real, jinv: real, dt: real)
    requires massLinear != 0.0
    ensures EulerStep(m, force, torque, massLinear, jinv, dt).x == Add(m.x, Scale(dt, EulerStep(m, force, torque, massLinear, jinv, dt).v))
    ensures EulerStep(m, force, torque, massLinear, jinv, dt).theta == Add(m.theta, Scale(dt, EulerStep(m, force, torque, massLinear, jinv, dt).omega))
  {
    var v := EulerStep(m, force, torque, massLinear, jinv, dt).v;
    assert v.x * dt == dt * v.x && v.y * dt == dt * v.y && v.z * dt == dt * v.z;
  }

  /** Applying the step n times with the same force and torque. */
  function Run(m: Motion, n: nat, force: Vec3, torque: Vec3, massLinear: real, jinv: real, dt: real): Motion
    requires massLinear != 0.0
  {
    if n == 0 then m else EulerStep(Run(m, n - 1, force, torque, massLinear, jinv, dt), force, torque, massLinear, jinv, dt)
  }

  /** The time covered by n steps of length dt. */
  function Elapsed(n: nat, dt: real): real
  {
    if n == 0 then 0.0 else Elapsed(n - 1, dt) + dt
  }

  lemma {:induction false} ElapsedIsProduct(n: nat, dt: real)
    ensures Elapsed(n, dt) == n as real * dt
  {
    if n > 0 {
      ElapsedIsProduct(n - 1, dt);
      NextMultiple(n, dt);
    }
  }

  /** Under a constant force the linear momentum grows linearly in time:
      after n steps, that is after Elapsed(n, dt) == n dt, it has changed by
      the elapsed time times the force. */
  lemma {:induction false} RunMomentum(m: Motion, n: nat, force: Vec3, torque: Vec3, massLinear: real, jinv: real, dt: real)
    requires massLinear != 0.0
    ensures Scale(massLinear, Sub(Run(m, n, force, torque, massLinear, jinv, dt).v, m.v)) == Scale(Elapsed(n, dt), force)
  {
    if n > 0 {
      var prev := Run(m, n - 1, force, torque, massLinear, jinv, dt);
      var now := EulerStep(prev, force, torque, massLinear, jinv, dt);
      assert now == Run(m, n, force, torque, massLinear, jinv, dt);
      RunMomentum(m, n - 1, force, torque, massLinear, jinv, dt);
      StepImpulse(prev, force, torque, massLinear, jinv, dt);
      MomentumSum(massLinear, m.v, prev.v, now.v, Elapsed(n - 1, dt), dt, force);
    }
  }

  lemma NextMultiple(n: nat, dt: real)
    requires n > 0
    ensures (n - 1) as real * dt + dt == n as real * dt
  {
    assert (n - 1) as real == n as real - 1.0;
  }

  lemma MomentumSum(mass: real, v0: Vec3, v1: Vec3, v2: Vec3, t: real, dt: real, f: Vec3)
    requires Scale(mass, Sub(v1, v0)) == Scale(t, f)
    requires Scale(mass, Sub(v2, v1)) == Scale(dt, f)
    ensures Scale(mass, Sub(v2, v0)) == Scale(t + dt, f)
  {
    assert mass * (v2.x - v0.x) == mass * (v2.x - v1.x) + mass * (v1.x - v0.x);
    assert mass * (v2.y - v0.y) == mass * (v2.y - v1.y) + mass * (v1.y - v0.y);
    assert mass * (v2.z - v0.z) == mass * (v2.z - v1.z) + mass * (v1.z - v0.z);
    assert (t + dt) * f.x == t * f.x + dt * f.x;
    assert (t + dt) * f.y == t * f.y + dt * f.y;
    assert (t + dt) * f.z == t * f.z + dt * f.z;
  }

  /** A step without force or torque keeps both velocities. */
  lemma FreeStep(m: Motion, massLinear: real, jinv: real, dt: real)
    requires massLinear != 0.0
    ensures EulerStep(m, Zero, Zero, massLinear, jinv, dt) ==
            Motion(Add(m.x, Scale(dt, m.v)), m.v, Add(m.theta, Scale(dt, m.omega)), m.omega)
  {
    assert m.v.x * dt == dt * m.v.x && m.v.y * dt == dt * m.v.y && m.v.z * dt == dt * m.v.z;
  }

  lemma Advance(p: Vec3, u: Vec3, t: real, dt: real)
    ensures Add(Add(p, Scale(t, u)), Scale(dt, u)) == Add(p, Scale(t + dt, u))
  {
    assert (t + dt) * u.x == t * u.x + dt * u.x;
    assert (t + dt) * u.y == t * u.y + dt * u.y;
    assert (t + dt) * u.z == t * u.z + dt * u.z;
  }

  lemma CoastStep(m: Motion, prev: Motion, t: real, massLinear: real, jinv: real, dt: real)
    requires massLinear != 0.0
    requires prev == Motion(Add(m.x, Scale(t, m.v)), m.v, Add(m.theta, Scale(t, m.omega)), m.omega)
    ensures EulerStep(prev, Zero, Zero, massLinear, jinv, dt) ==
            Motion(Add(m.x, Scale(t + dt, m.v)), m.v, Add(m.theta, Scale(t + dt, m.omega)), m.omega)
  {
    FreeStep(prev, massLinear, jinv, dt);
    Advance(m.x, m.v, t, dt);
    Advance(m.theta, m.omega, t, dt);
  }

  /** With no force and no torque a body coasts: both velocities are kept
      and after n steps the position and the angles have moved by n dt times
      the velocities. */
  lemma {:induction false} Coasting(m: Motion, n: nat, massLinear: real, jinv: real, dt: real)
    requires massLinear != 0.0
    ensures Run(m, n, Zero, Zero, massLinear, jinv, dt) ==
            Motion(Add(m.x, Scale(Elapsed(n, dt), m.v)), m.v, Add(m.theta, Scale(Elapsed(n, dt), m.omega)), m.omega)
  {
    if n == 0 {
      assert Add(m.x, Scale(0.0, m.v)) == m.x;
      assert Add(m.theta, Scale(0.0, m.omega)) == m.theta;
    } else {
      var prev := Run(m, n - 1, Zero, Zero, massLinear, jinv, dt);
      Coasting(m, n - 1, massLinear, jinv, dt);
      CoastStep(m, prev, Elapsed(n - 1, dt), massLinear, jinv, dt);
    }
  }

  // ---------------------------------------------------------------------
  // Gravity
  // ---------------------------------------------------------------------

  /** The gravity force on a body of the given mass: the unit direction
      (cos a, sin a, 0) scaled by mass times the gravitational constant. The
      cosine and sine are supplied by the caller. */
  function GravityForce(massLinear: real, amount: real, cosA: real, sinA: real): Vec3
  {
    Scale(massLinear * amount, Vec3(cosA, sinA, 0.0))
  }

  /** Gravity accelerates every unpinned body alike: under gravity alone the
      velocity change of one step does not depend on the body's mass. */
  lemma GravityIndependentOfMass(m: Motion, massLinear: real, jinv: real, amount: real, cosA: real, sinA: real, dt: real)
    requires massLinear != 0.0
    ensures EulerStep(m, GravityForce(massLinear, amount, cosA, sinA), Zero, massLinear, jinv, dt).v ==
            Add(m.v, Scale(dt * amount, Vec3(cosA, sinA, 0.0)))
  {
    var g := GravityForce(massLinear, amount, cosA, sinA);
    assert 1.0 / massLinear * massLinear == 1.0;
    assert 1.0 / massLinear * g.x * dt == (1.0 / massLinear * massLinear) * (amount * cosA * dt);
    assert 1.0 / massLinear * g.y * dt == (1.0 / massLinear * massLinear) * (amount * sinA * dt);
  }

  // ---------------------------------------------------------------------
  // Kinetic energy
  // ---------------------------------------------------------------------

  /** getKineticEnergy: translational plus rotational energy, the latter with
      the scalar angular mass. */
  function KineticEnergy(massLinear: real, massAngular: real, v: Vec3, omega: Vec3): real
  {
    0.5 * massLinear * NormSq(v) + 0.5 * massAngular * (omega.x * omega.x + omega.y * omega.y + omega.z * omega.z)
  }

  lemma Weighted(mass: real, q: real)
    requires mass >= 0.0 && q >= 0.0
    ensures 0.5 * mass * q >= 0.0
  {
  }

  /** The energy is never negative when neither mass is. */
  lemma KineticEnergyNonNegative(massLinear: real, massAngular: real, v: Vec3, omega: Vec3)
    requires massLinear >= 0.0 && massAngular >= 0.0
    ensures KineticEnergy(massLinear, massAngular, v, omega) >= 0.0
  {
    assert omega.x * omega.x + omega.y * omega.y + omega.z * omega.z == NormSq(omega);
    NormSqNonNegative(v);
    NormSqNonNegative(omega);
    Weighted(massLinear, NormSq(v));
    Weighted(massAngular, NormSq(omega));
  }

  /** A body at rest has no kinetic energy, whatever its masses. */
  lemma KineticEnergyAtRest(massLinear: real, massAngular: real)
    ensures KineticEnergy(massLinear, massAngular, Zero, Zero) == 0.0
  {
    assert NormSq(Zero) == 0.0;
    assert 0.5 * massLinear * 0.0 == 0.0 && 0.5 * massAngular * 0.0 == 0.0;
  }

  // ---------------------------------------------------------------------
  // Velocity of a point carried by the body
  // ---------------------------------------------------------------------

  /** getSpatialVelocity as written: with r = p - x it returns v + r x omega. */
  function SpatialVelocityAsWritten(x: Vec3, v: Vec3, omega: Vec3, p: Vec3): (u: Vec3)
    ensures u == Add(Cross(Sub(p, x), omega), v)
  {
    var r := Sub(p, x);
    assert -r.z * omega.y == -(r.z * omega.y) && -r.x * omega.z == -(r.x * omega.z) && -r.y * omega.x == -(r.y * omega.x);
    Vec3(-r.z * omega.y + r.y * omega.z + v.x,
         r.z * omega.x + -r.x * omega.z + v.y,
         -r.y * omega.x + r.x * omega.y + v.z)
  }

  /** The velocity of the material point at p of a body moving with linear
      velocity v about its centre x at angular velocity omega:
      v + omega x (p - x). */
  function PointVelocity(x: Vec3, v: Vec3, omega: Vec3, p: Vec3): Vec3
  {
    Add(v, Cross(omega, Sub(p, x)))
  }

  /** Power balance: a force F applied at p, as applyContactForceW applies
      it, does work at the rate of its linear part F . v plus its torque
      (p - x) x F dotted with omega, when the point moves with
      PointVelocity. */
  lemma PointVelocityPower(x: Vec3, v: Vec3, omega: Vec3, p: Vec3, f: Vec3)
    ensures Dot(f, PointVelocity(x, v, omega, p)) == Dot(f, v) + Dot(Cross(Sub(p, x), f), omega)
  {
    var r := Sub(p, x);
    TripleProductRotate(f, omega, r);
    TripleProductRotate(omega, r, f);
  }

  /** The formula as written breaks that balance: a body spinning about z
      with a unit force pushing at a point one unit along x. */
  lemma SpatialVelocityAsWrittenBreaksPower()
    ensures var x, v, omega, p, f := Zero, Zero, Vec3(0.0, 0.0, 1.0), Vec3(1.0, 0.0, 0.0), Vec3(0.0, 1.0, 0.0);
            Dot(f, SpatialVelocityAsWritten(x, v, omega, p)) == -1.0 &&
            Dot(f, v) + Dot(Cross(Sub(p, x), f), omega) == 1.0
  {
  }

  /** The two formulas differ exactly by the sign of the rotational part. */
  lemma SpatialVelocityAsWrittenMirrors(x: Vec3, v: Vec3, omega: Vec3, p: Vec3)
    ensures Add(SpatialVelocityAsWritten(x, v, omega, p), PointVelocity(x, v, omega, p)) == Scale(2.0, v)
  {
  }
}
