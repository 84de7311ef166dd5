/** The module-level `tank_collision` of main.py: one particle, the position
    given as a 2-element array that is copied, the velocity a mutable vector
    that is updated in place and handed back. */
module MainCollision {
  import opened Vectors
  import opened Constants
  import opened Boundary

  /** Margin kept between the particle's surface and the wall. */
  const EPSILON: real := 0.001

  /** The rule this routine applies, with the global particle radius. */
  function Rule(b: Body): Body
  {
    Collide(b, CENTER_TANK, HALF_TANK, RADIUS, EPSILON)
  }

  method TankCollision(pos: array<real>, vel: Vector2) returns (newPos: array<real>, velOut: Vector2)
    requires pos.Length >= 2
    modifies vel
    ensures velOut == vel && pos[..] == old(pos[..])
    ensures fresh(newPos) && newPos.Length == 2
    ensures Body(Vec2(newPos[0], newPos[1]), vel.Value()) == Rule(Body(Vec2(pos[0], pos[1]), old(vel.Value())))
  {
    var p := new Vector2(pos[0], pos[1]);
    var refX, refY := p.x - CENTER_TANK.x, p.y - CENTER_TANK.y;

    if Abs(refX) + RADIUS >= TANK.w / 2.0 {
      vel.x := vel.x * -0.7;
      p.x := CENTER_TANK.x + (TANK.w / 2.0 - RADIUS - 0.001) * Sign(refX);
    }

    if Abs(refY) + RADIUS >= TANK.h / 2.0 {
      vel.y := vel.y * -0.7;
      p.y := CENTER_TANK.y + (TANK.h / 2.0 - RADIUS - 0.001) * Sign(refY);
    }

    newPos := new real[2];
    newPos[0], newPos[1] := p.x, p.y;
    velOut := vel;
  }

  /** The global radius and margin fit the tank: the rule leaves every
      particle strictly inside, and running it on its own output changes
      nothing. */
  lemma RuleInsideAndIdempotent(b: Body)
    ensures Inside(Rule(b).pos.x, CENTER_TANK.x, HALF_TANK.x, RADIUS)
    ensures Inside(Rule(b).pos.y, CENTER_TANK.y, HALF_TANK.y, RADIUS)
    ensures Rule(Rule(b)) == Rule(b)
  {
    assert Fits(HALF_TANK, RADIUS, EPSILON);
    CollideInside(b, CENTER_TANK, HALF_TANK, RADIUS, EPSILON);
    CollideIdempotent(b, CENTER_TANK, HALF_TANK, RADIUS, EPSILON);
  }

  /** A particle exactly touching the right wall (centre at 1070, surface at
      1080 = 20 + 1060) is
      bounced: its x velocity is reversed and damped, it is put 0.001 inside,
      and its y components are untouched when it is clear of the floor and
      ceiling. */
  lemma TouchingRightWall(y: real, vx: real, vy: real)
    requires Inside(y, CENTER_TANK.y, HALF_TANK.y, RADIUS)
    ensures Rule(Body(Vec2(1070.0, y), Vec2(vx, vy))) == Body(Vec2(1069.999, y), Vec2(-0.7 * vx, vy))
  {
  }
}
