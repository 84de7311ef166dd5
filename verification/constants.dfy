/** The simulation constants of constants.py that the collision rule and the
    spatial hash read. Floating-point literals become exact rationals. */
module Constants {
  import opened Vectors

  /** A rectangle given by its top-left corner and its extent. */
  datatype Rect = Rect(x: real, y: real, w: real, h: real)

  /** Window resolution in pixels. */
  const WIN_RES: Vec2 := Vec2(1100.0, 600.0)

  /** The tank: 20 pixels from the left, 100 from the top, 20 from the right
      and the bottom of the window, i.e. (20, 100, 1060, 480). */
  const TANK: Rect := Rect(20.0, 100.0, WIN_RES.x - 20.0 - 20.0, WIN_RES.y - 100.0 - 20.0)

  /** The middle of the tank, (550, 340). */
  const CENTER_TANK: Vec2 := Vec2(TANK.x + TANK.w / 2.0, TANK.y + TANK.h / 2.0)

  /** Half the tank's extent on each axis, (530, 240). */
  const HALF_TANK: Vec2 := Vec2(TANK.w / 2.0, TANK.h / 2.0)

  /** Drawn radius of a particle, used as its collision radius. */
  const RADIUS: real := 10.0

  /** Support radius of the smoothing kernel, also the grid cell size. */
  const SMOOTHING_RADIUS: real := 50.0
}
