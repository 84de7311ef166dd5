/** The `particule` record of liquid.py: a position, a radius and a
    velocity. Its drawing method is not part of this model. */
module Liquid {
  import opened Vectors

  class Particule {
    var pos: Vector2
    var rad: real
    var vel: Vector2

    /** The velocity is an object of its own, never the position. */
    ghost predicate Valid()
      reads this
    {
      pos != vel
    }

    /** A particle at a given vector, which it shares with the caller. */
    constructor (pos: Vector2, rad: real := 5.0)
      ensures Valid()
      ensures this.pos == pos && this.rad == rad
      ensures fresh(vel) && vel.Value() == Vec2(0.0, 0.0)
    {
      this.pos := pos;
      this.rad := rad;
      this.vel := new Vector2(0.0, 0.0);
    }

    /** A particle at a position given as a pair, copied into a new vector. */
    constructor FromPair(x: real, y: real, rad: real := 5.0)
      ensures Valid()
      ensures fresh(pos) && pos.Value() == Vec2(x, y) && this.rad == rad
      ensures fresh(vel) && vel.Value() == Vec2(0.0, 0.0)
    {
      this.pos := new Vector2(x, y);
      this.rad := rad;
      this.vel := new Vector2(0.0, 0.0);
    }
  }
}
