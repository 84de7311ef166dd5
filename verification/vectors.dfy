/** Two-dimensional vectors: an immutable value (a row of a numpy array) and a
    mutable object with `x` and `y` fields (pygame's `Vector2`, whose
    components the simulator assigns in place). */
module Vectors {

  /** A 2D vector as a value. */
  datatype Vec2 = Vec2(x: real, y: real)

  /** A mutable 2D vector. */
  class Vector2 {
    var x: real
    var y: real

    constructor (x: real, y: real)
      ensures this.x == x && this.y == y
    {
      this.x := x;
      this.y := y;
    }

    /** The current value of the vector. */
    function Value(): Vec2
      reads this
    {
      Vec2(x, y)
    }
  }
}
