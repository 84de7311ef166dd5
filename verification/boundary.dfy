/** The tank-collision rule shared by the three collision routines of the
    simulator. Each routine applies the same rule to each axis independently:
    if the particle's surface reaches the wall (|p - c| + rad >= half), the
    velocity component is reversed and damped by 0.7 and the position is put
    back at distance half - rad - eps from the centre, on the side it was on.
    The routines differ only in the radius and the margin eps they use. */
module Boundary {
  import opened Vectors

  /** Fraction of the normal speed kept after hitting a wall. */
  const RESTITUTION: real := 0.7

  function Abs(x: real): real
  {
    if x < 0.0 then -x else x
  }

  /** numpy's `sign`: 1, -1, or 0 at zero. */
  function Sign(x: real): (s: real)
    ensures s * x == Abs(x)
    ensures s == 1.0 || s == -1.0 || s == 0.0
    ensures x == 0.0 ==> s == 0.0
  {
    if x > 0.0 then 1.0 else if x < 0.0 then -1.0 else 0.0
  }

  /** Position and velocity of a particle along one axis. */
  datatype Axis = Axis(p: real, v: real)

  /** Position and velocity of a particle. */
  datatype Body = Body(pos: Vec2, vel: Vec2)

  /** The wall test on one axis: the particle's surface touches or crosses
      the wall. Exact touching counts. */
  predicate Hits(p: real, c: real, half: real, rad: real)
  {
    Abs(p - c) + rad >= half
  }

  /** A particle of radius `rad` lies strictly inside the walls of one axis. */
  predicate Inside(p: real, c: real, half: real, rad: real)
  {
    Abs(p - c) + rad < half
  }

  /** The rule on one axis whose walls are at c - half and c + half: a hit
      reverses and damps the velocity and puts the surface eps away from the
      wall on the side the particle was on; no hit changes nothing. */
  function Bounce(a: Axis, c: real, half: real, rad: real, eps: real): (r: Axis)
    ensures !Hits(a.p, c, half, rad) ==> r == a
    ensures Hits(a.p, c, half, rad) ==> r.v * a.v <= 0.0 && Abs(r.v) == RESTITUTION * Abs(a.v)
    ensures Hits(a.p, c, half, rad) && 0.0 < eps && rad + eps < half ==>
      Abs(r.p - c) == half - rad - eps && Sign(r.p - c) == Sign(a.p - c) && Sign(a.p - c) != 0.0
  {
    if Hits(a.p, c, half, rad) then
      Axis(c + (half - rad - eps) * Sign(a.p - c), a.v * -RESTITUTION)
    else
      a
  }

  /** The rule on both axes; both tests read the position before any update,
      so each axis of the result depends on that axis of the input alone. */
  function Collide(b: Body, center: Vec2, half: Vec2, rad: real, eps: real): (r: Body)
    ensures Axis(r.pos.x, r.vel.x) == Bounce(Axis(b.pos.x, b.vel.x), center.x, half.x, rad, eps)
    ensures Axis(r.pos.y, r.vel.y) == Bounce(Axis(b.pos.y, b.vel.y), center.y, half.y, rad, eps)
  {
    var x := Bounce(Axis(b.pos.x, b.vel.x), center.x, half.x, rad, eps);
    var y := Bounce(Axis(b.pos.y, b.vel.y), center.y, half.y, rad, eps);
    Body(Vec2(x.p, y.p), Vec2(x.v, y.v))
  }

  /** A configuration in which the rule is meaningful: the margin is positive
      and the tank is wider than the particle plus the margin on each side. */
  predicate Fits(half: Vec2, rad: real, eps: real)
  {
    0.0 < eps && rad + eps < half.x && rad + eps < half.y
  }

  /** After a hit the particle is strictly inside, exactly eps away from the
      wall, on the same side of the centre as before. */
  lemma BounceInside(a: Axis, c: real, half: real, rad: real, eps: real)
    requires 0.0 < eps && rad + eps < half
    ensures var b := Bounce(a, c, half, rad, eps);
      Inside(b.p, c, half, rad) && Sign(b.p - c) == Sign(a.p - c) &&
      (Hits(a.p, c, half, rad) ==> Abs(b.p - c) + rad == half - eps)
  {
    if Hits(a.p, c, half, rad) {
      assert a.p != c;
      var d := half - rad - eps;
      assert d > 0.0;
      if a.p > c {
        assert Bounce(a, c, half, rad, eps).p == c + d;
      } else {
        assert Bounce(a, c, half, rad, eps).p == c - d;
      }
    }
  }

  /** The rule places the particle strictly inside exactly when the margin
      leaves room for it: rad + eps / 2 < half. A larger particle that hits a
      wall is thrown past the centre by more than it can fit. */
  lemma BounceInsideUpTo(a: Axis, c: real, half: real, rad: real, eps: real)
    requires 0.0 < eps && rad + eps / 2.0 < half
    ensures Inside(Bounce(a, c, half, rad, eps).p, c, half, rad)
  {
    if Hits(a.p, c, half, rad) {
      assert a.p != c;
      var d := half - rad - eps;
      if a.p > c {
        assert Bounce(a, c, half, rad, eps).p == c + d;
      } else {
        assert Bounce(a, c, half, rad, eps).p == c - d;
      }
    }
  }

  /** From rad + eps / 2 >= half on, only a particle that was already inside
      ends inside: every hit leaves it touching or crossing a wall. */
  lemma BounceOversized(a: Axis, c: real, half: real, rad: real, eps: real)
    requires 0.0 < eps && half <= rad + eps / 2.0
    ensures Inside(Bounce(a, c, half, rad, eps).p, c, half, rad) <==> Inside(a.p, c, half, rad)
  {
    if Hits(a.p, c, half, rad) && a.p != c {
      var d := half - rad - eps;
      if a.p > c {
        assert Bounce(a, c, half, rad, eps).p == c + d;
      } else {
        assert Bounce(a, c, half, rad, eps).p == c - d;
      }
    }
  }

  /** A hit gives the velocity component exactly -0.7 times its old value,
      wherever the centre and margin are; the position never affects it. */
  lemma BounceVelocity(a: Axis, c: real, half: real, rad: real, eps: real)
    ensures var b := Bounce(a, c, half, rad, eps);
      b.v == if Hits(a.p, c, half, rad) then -RESTITUTION * a.v else a.v
  {
    var b := Bounce(a, c, half, rad, eps);
    if Hits(a.p, c, half, rad) {
      assert b.v * a.v <= 0.0 && Abs(b.v) == RESTITUTION * Abs(a.v);
    }
  }

  /** Applying the rule to its own output changes nothing. */
  lemma BounceIdempotent(a: Axis, c: real, half: real, rad: real, eps: real)
    requires 0.0 < eps && rad + eps < half
    ensures Bounce(Bounce(a, c, half, rad, eps), c, half, rad, eps) == Bounce(a, c, half, rad, eps)
  {
    BounceInside(a, c, half, rad, eps);
  }

  /** After the rule the particle is strictly inside the tank on both axes. */
  lemma CollideInside(b: Body, center: Vec2, half: Vec2, rad: real, eps: real)
    requires Fits(half, rad, eps)
    ensures var r := Collide(b, center, half, rad, eps);
      Inside(r.pos.x, center.x, half.x, rad) && Inside(r.pos.y, center.y, half.y, rad)
  {
    BounceInside(Axis(b.pos.x, b.vel.x), center.x, half.x, rad, eps);
    BounceInside(Axis(b.pos.y, b.vel.y), center.y, half.y, rad, eps);
  }

  /** A particle already strictly inside is left as it is. */
  lemma CollideKeepsInside(b: Body, center: Vec2, half: Vec2, rad: real, eps: real)
    requires Inside(b.pos.x, center.x, half.x, rad) && Inside(b.pos.y, center.y, half.y, rad)
    ensures Collide(b, center, half, rad, eps) == b
  {
  }

  /** Applying the rule twice is the same as applying it once. */
  lemma CollideIdempotent(b: Body, center: Vec2, half: Vec2, rad: real, eps: real)
    requires Fits(half, rad, eps)
    ensures Collide(Collide(b, center, half, rad, eps), center, half, rad, eps) == Collide(b, center, half, rad, eps)
  {
    CollideInside(b, center, half, rad, eps);
    CollideKeepsInside(Collide(b, center, half, rad, eps), center, half, rad, eps);
  }
}
