/** The `tank_collision` of collisions.py: the rule applied to a particle
    object with the particle's own radius, updating its position and velocity
    vectors in place and handing the same object back. */
module Collisions {
  import opened Vectors
  import opened Constants
  import opened Boundary
  import opened Liquid

  /** Margin kept between the particle's surface and the wall. */
  const EPSILON: real := 0.001

  /** The rule this routine applies, for a particle of radius `rad`. */
  function Rule(b: Body, rad: real): Body
  {
    Collide(b, CENTER_TANK, HALF_TANK, rad, EPSILON)
  }

  method TankCollision(particule: Particule) returns (r: Particule)
    requires particule.Valid()
    modifies particule.pos, particule.vel
    ensures r == particule
    ensures particule.pos == old(particule.pos) && particule.vel == old(particule.vel)
    ensures particule.rad == old(particule.rad)
    ensures Body(particule.pos.Value(), particule.vel.Value())
         == Rule(Body(old(particule.pos.Value()), old(particule.vel.Value())), particule.rad)
  {
    var centerTank := Vec2(TANK.x + TANK.w / 2.0, TANK.y + TANK.h / 2.0);
    var refX, refY := particule.pos.x - centerTank.x, particule.pos.y - centerTank.y;

    if Abs(refX) + particule.rad >= TANK.w / 2.0 {
      particule.vel.x := particule.vel.x * -0.7;
      particule.pos.x := centerTank.x + (TANK.w / 2.0 - particule.rad - 0.001) * Sign(refX);
    }

    if Abs(refY) + particule.rad >= TANK.h / 2.0 {
      particule.vel.y := particule.vel.y * -0.7;
      particule.pos.y := centerTank.y + (TANK.h / 2.0 - particule.rad - 0.001) * Sign(refY);
    }

    r := particule;
  }

  /** For any radius below 239.9995 (rad + EPSILON / 2 < HALF_TANK.y), the
      rule leaves the particle strictly inside and a second call changes
      nothing. */
  lemma RuleInsideAndIdempotent(b: Body, rad: real)
    requires rad + EPSILON / 2.0 < HALF_TANK.y
    ensures Inside(Rule(b, rad).pos.x, CENTER_TANK.x, HALF_TANK.x, rad)
    ensures Inside(Rule(b, rad).pos.y, CENTER_TANK.y, HALF_TANK.y, rad)
    ensures Rule(Rule(b, rad), rad) == Rule(b, rad)
  {
    BounceInsideUpTo(Axis(b.pos.x, b.vel.x), CENTER_TANK.x, HALF_TANK.x, rad, EPSILON);
    BounceInsideUpTo(Axis(b.pos.y, b.vel.y), CENTER_TANK.y, HALF_TANK.y, rad, EPSILON);
    CollideKeepsInside(Rule(b, rad), CENTER_TANK, HALF_TANK, rad, EPSILON);
  }

  /** The bound above is exact: from rad + EPSILON / 2 >= HALF_TANK.y on, a
      particle ends inside vertically only if it already was, so any particle
      that hits the floor or ceiling is bounced again by a second call. */
  lemma RuleOversized(b: Body, rad: real)
    requires HALF_TANK.y <= rad + EPSILON / 2.0
    ensures Inside(Rule(b, rad).pos.y, CENTER_TANK.y, HALF_TANK.y, rad) <==> Inside(b.pos.y, CENTER_TANK.y, HALF_TANK.y, rad)
  {
    BounceOversized(Axis(b.pos.y, b.vel.y), CENTER_TANK.y, HALF_TANK.y, rad, EPSILON);
  }
}
