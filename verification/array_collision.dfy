/** The vectorised `tank_collision` of utils.py: N x 2 arrays of positions and
    velocities, updated in place and handed back. The routine computes both
    wall tests of every row from the positions before any write, then rewrites
    the columns; since a row's outcome depends on that row alone, the model
    visits the rows one at a time. */
module ArrayCollision {
  import opened Vectors
  import opened Constants
  import opened Boundary

  /** Margin kept between the particle's surface and the wall. */
  const EPSILON: real := 0.1

  /** The rule this routine applies to each row. */
  function Rule(b: Body): Body
  {
    Collide(b, CENTER_TANK, HALF_TANK, RADIUS, EPSILON)
  }

  /** The rule applied to every row. */
  function RuleRows(rows: seq<Body>): (out: seq<Body>)
    ensures |out| == |rows|
  {
    seq(|rows|, i requires 0 <= i < |rows| => Rule(rows[i]))
  }

  /** Row i of the position and velocity arrays. */
  function Row(pos: array2<real>, vel: array2<real>, i: int): Body
    reads pos, vel
    requires pos.Length1 == 2 && vel.Length1 == 2
    requires 0 <= i < pos.Length0 && i < vel.Length0
  {
    Body(Vec2(pos[i, 0], pos[i, 1]), Vec2(vel[i, 0], vel[i, 1]))
  }

  /** All rows of the position and velocity arrays. */
  function Rows(pos: array2<real>, vel: array2<real>): (rows: seq<Body>)
    reads pos, vel
    requires pos.Length1 == 2 && vel.Length1 == 2 && pos.Length0 == vel.Length0
    ensures |rows| == pos.Length0
  {
    seq(pos.Length0, i requires 0 <= i < pos.Length0 reads pos, vel => Row(pos, vel, i))
  }

  method TankCollision(pos: array2<real>, vel: array2<real>) returns (posOut: array2<real>, velOut: array2<real>)
    requires pos.Length1 == 2 && vel.Length1 == 2 && pos.Length0 == vel.Length0
    requires pos != vel
    modifies pos, vel
    ensures posOut == pos && velOut == vel
    ensures Rows(pos, vel) == RuleRows(old(Rows(pos, vel)))
  {
    var n := pos.Length0;
    for i := 0 to n
      invariant forall k :: 0 <= k < i ==> Row(pos, vel, k) == Rule(old(Row(pos, vel, k)))
      invariant forall k :: i <= k < n ==> Row(pos, vel, k) == old(Row(pos, vel, k))
    {
      var refX, refY := pos[i, 0] - CENTER_TANK.x, pos[i, 1] - CENTER_TANK.y;
      var condX := Abs(refX) + RADIUS >= TANK.w / 2.0;
      var condY := Abs(refY) + RADIUS >= TANK.h / 2.0;

      if condX {
        pos[i, 0] := CENTER_TANK.x + (TANK.w / 2.0 - RADIUS - 0.1) * Sign(refX);
        vel[i, 0] := vel[i, 0] * -0.7;
      }

      if condY {
        pos[i, 1] := CENTER_TANK.y + (TANK.h / 2.0 - RADIUS - 0.1) * Sign(refY);
        vel[i, 1] := vel[i, 1] * -0.7;
      }
    }
    posOut, velOut := pos, vel;
  }

  /** After the routine every row is strictly inside the tank. */
  lemma RuleRowsInside(rows: seq<Body>)
    ensures forall i :: 0 <= i < |rows| ==>
      Inside(RuleRows(rows)[i].pos.x, CENTER_TANK.x, HALF_TANK.x, RADIUS) &&
      Inside(RuleRows(rows)[i].pos.y, CENTER_TANK.y, HALF_TANK.y, RADIUS)
  {
    assert Fits(HALF_TANK, RADIUS, EPSILON);
    forall i | 0 <= i < |rows|
      ensures Inside(RuleRows(rows)[i].pos.x, CENTER_TANK.x, HALF_TANK.x, RADIUS)
      ensures Inside(RuleRows(rows)[i].pos.y, CENTER_TANK.y, HALF_TANK.y, RADIUS)
    {
      CollideInside(rows[i], CENTER_TANK, HALF_TANK, RADIUS, EPSILON);
    }
  }

  /** A second call leaves both arrays as the first call left them. */
  lemma RuleRowsIdempotent(rows: seq<Body>)
    ensures RuleRows(RuleRows(rows)) == RuleRows(rows)
  {
    assert Fits(HALF_TANK, RADIUS, EPSILON);
    forall i | 0 <= i < |rows|
      ensures RuleRows(RuleRows(rows))[i] == RuleRows(rows)[i]
    {
      CollideIdempotent(rows[i], CENTER_TANK, HALF_TANK, RADIUS, EPSILON);
    }
  }
}
