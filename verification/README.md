# Tank collision and spatial-hash filter of a 2D SPH liquid simulator

This project models two self-contained parts of a Python smoothed-particle
hydrodynamics (SPH) liquid simulator, and proves properties of that model.

* **The spatial-hash neighbour filter** (`filter.py`). A position is mapped
  to a cell of a square grid. The grid's origin is the tank's top-left corner
  `START = (20, 100)` and its cell size is the smoothing radius (50). A cell
  `(cx, cy)` is mapped to the integer key `cx·15823 + cy·9737333`. The
  candidates of a particle are the particles whose key is the key of one of
  the 3×3 cells around its own cell. The model proves four things:
  - the cell is the unique one whose square holds the position;
  - the hash is linear and cannot confuse cells fewer than 616 columns apart;
  - the candidate mask marks exactly the particles whose hash is in the
    lookup space, whatever order the lookup values are visited in;
  - the filter never misses a particle within the smoothing radius. Inside the
    tank it is exact at cell level.
* **The tank-collision rule**, in the three forms the simulator has:
  - `main.py`: one particle; the position is copied and the velocity vector
    is updated in place;
  - `utils.py`: N×2 position and velocity arrays, updated in place, with a
    margin of 0.1;
  - `collisions.py`: a `particule` object with its own radius.

  On each axis, if `abs(p − c) + R ≥ half extent`, the velocity component is
  multiplied by −0.7 and the position is put `half − R − ε` from the centre,
  on the side the particle was on. The shared rule is `Boundary.Collide`, and
  each routine is proved to compute it. The proofs show four things: the
  particle ends strictly inside the tank; the velocity is reversed and damped
  only on the axes that hit a wall; other axes are untouched; a second call
  changes nothing.

Geometry comes from `constants.py`: the window is 1100×600, the tank is
`(20, 100, 1060, 480)`, its centre is `(550, 340)`, the particle radius is 10
and the smoothing radius is 50. Floating-point values are exact rationals
(`real`), so 0.7, 0.001 and 0.1 are exact.

Files: `vectors.dfy` (`Vec2` values and the mutable `Vector2`),
`constants.dfy`, `boundary.dfy` (the shared per-axis rule and its lemmas),
`filter.dfy`, `main_collision.dfy`, `array_collision.dfy`, `liquid.dfy` (the
`particule` record), `collisions.dfy`.

## Model

| member | source | states |
|---|---|---|
| Boundary.Sign | main.py:151 | numpy `sign` gives 1, −1 or 0, `sign(x)·x = abs(x)`, and `sign(0) = 0` |
| Boundary.Bounce | main.py:149-155 | the per-axis rule: without a hit the axis is unchanged; on a hit the velocity changes sign and keeps 0.7 of its magnitude, and when ε > 0 and R + ε < half the position ends exactly `half − R − ε` from the centre on the side it was on |
| Boundary.Collide | main.py:149-155 | the two-axis rule: each axis of the result is the per-axis rule applied to that axis of the original body, so both tests use the original position |
| Boundary.BounceInside | main.py:149-155 | when ε > 0 and R + ε < half: after the per-axis rule the particle is strictly inside (`abs(p′ − c) + R < half`) and on the same side of the centre; if the rule fired, the surface is exactly ε from the wall |
| Boundary.BounceVelocity | main.py:149-155 | the new velocity component is exactly `−0.7·v` on a hit (exact touching counts) and `v` otherwise, whatever the centre and margin |
| Boundary.BounceIdempotent | main.py:149-155 | when ε > 0 and R + ε < half, applying the per-axis rule to its own output changes nothing |
| Boundary.CollideInside | main.py:144-157 | when ε > 0 and R + ε is below both half extents, after the two-axis rule the particle is strictly inside on both axes |
| Boundary.CollideKeepsInside | main.py:149-155 | a particle strictly inside on both axes is left as it is |
| Boundary.CollideIdempotent | main.py:144-157 | when ε > 0 and R + ε is below both half extents, the two-axis rule applied twice equals the rule applied once |
| MainCollision.TankCollision | main.py:144-157 | returns a fresh 2-element position array and the same velocity object; the input array is unchanged; the new position and the mutated velocity are the rule with R = 10, ε = 0.001 applied to the old ones |
| MainCollision.RuleInsideAndIdempotent | main.py:144-157 | with the global constants the result is strictly inside the tank and a second call is a no-op |
| MainCollision.TouchingRightWall | main.py:149-151 | a particle whose surface exactly touches the right wall has its x velocity multiplied by −0.7 and is moved to x = 1069.999; when y is strictly inside, its y components are unchanged |
| ArrayCollision.TankCollision | utils.py:7-25 | returns the same two arrays; every row of the new arrays is the rule with R = 10, ε = 0.1 applied to that row of the old arrays, so row i depends only on row i |
| ArrayCollision.RuleRowsInside | utils.py:13-23 | afterwards every row satisfies `abs(x − cx) + R < W/2` and `abs(y − cy) + R < H/2` |
| ArrayCollision.RuleRowsIdempotent | utils.py:7-25 | a second call leaves both arrays unchanged |
| Liquid.Particule.constructor | liquid.py:8-11 | a particle built from a vector shares that vector as its position and gets a fresh zero velocity and the given radius (default 5) |
| Liquid.Particule.FromPair | liquid.py:8-11 | a particle built from a pair gets a fresh position vector with those coordinates, a fresh zero velocity and the given radius |
| Collisions.TankCollision | collisions.py:7-20 | returns the same particle; its radius and its vector objects are unchanged; its position and velocity become the rule with the particle's own radius and ε = 0.001, around the centre `(TANK[0] + TANK[2]/2, TANK[1] + TANK[3]/2)` |
| Collisions.RuleInsideAndIdempotent | collisions.py:7-20 | for any radius with R + ε/2 < 240 (below 239.9995) the particle ends strictly inside and a second call is a no-op |
| Collisions.RuleOversized | collisions.py:12-18 | from R + ε/2 ≥ 240 on, a particle ends vertically inside exactly when it started there, so the bound above is exact |
| Boundary.BounceInsideUpTo | collisions.py:12-18 | when ε > 0 and R + ε/2 < half, the per-axis rule leaves the particle strictly inside, even when R + ε ≥ half sends it past the centre |
| Boundary.BounceOversized | collisions.py:12-18 | when ε > 0 and R + ε/2 ≥ half, the particle ends inside exactly when it started inside |
| Filter.FloorDiv | filter.py:10 | Python's floor division `a // r` for r > 0 is an integer q with `q·r ≤ a < (q+1)·r` |
| Filter.FloorDivUnique | filter.py:10 | that integer is unique |
| Filter.CellOf | filter.py:9-10 | the cell of a position is one whose square `[START + c·r, START + (c+1)·r)` holds it on both axes |
| Filter.CellOfUnique | filter.py:9-10 | no other cell's square holds the position |
| Filter.PosToCoord | filter.py:8-10 | one cell per row, and each row's square holds that row's position |
| Filter.HashOf | filter.py:14 | for columns 0 to 615 the hash of a cell decodes back to it: the quotient by 9737333 is the row and the remainder is `column·15823` |
| Filter.CoordsToHash | filter.py:12-14 | one hash per row: row i is `cx·15823 + cy·9737333` of cell i |
| Filter.HashAdditive | filter.py:13-14 | the hash is linear: `hash(a + b) = hash(a) + hash(b)` |
| Filter.HashInjectiveNear | filter.py:6 | two cells with equal hashes whose columns differ by at most 615 are the same cell |
| Filter.PositionsToHash | filter.py:16-18 | one hash per position: the hash of any cell whose square holds that position |
| Filter.GetLookupSpace | filter.py:28-30 | the lookup space has nine entries and contains the query hash itself |
| Filter.LookupSpaceOfCell | filter.py:21-30 | the lookup space of `hash(c)` lists `hash(c + o)` for every offset o of `CELL_SPACE`, in order, and holds no other value |
| Filter.CellSpaceIsBlock | filter.py:21-25 | `CELL_SPACE` is exactly the offsets with both components in {−1, 0, 1} |
| Filter.HashSpaceDistinct | filter.py:21-26 | the nine entries of `HASH_SPACE` are pairwise distinct, and the centre entry is 0 |
| Filter.OrEqual | filter.py:39 | the element-wise OR of `filter` with `ref == value` keeps the length of `ref`, keeps every true entry, sets every entry equal to `value`, and sets no other entry |
| Filter.MaskOf | filter.py:34-39 | the mask built by the loop has the length of `ref` |
| Filter.MaskOfMembership | filter.py:34-39 | entry j of the loop's mask is true iff `ref[j]` is one of the visited values |
| Filter.MaskOfGrows | filter.py:37-39 | visiting more values only turns entries from false to true |
| Filter.MaskOfOrderFree | filter.py:37-39 | the mask does not depend on the order of the visited values, nor on repeats |
| Filter.GetIndices | filter.py:32-41 | the mask has the length of `ref`, and `mask[j]` is true iff `ref[j]` is one of the nine lookup values of `hash` |
| Filter.SelfMarked | filter.py:33-41 | querying with `ref[i]` marks index i itself |
| Filter.NeighbourInLookupSpace | filter.py:21-30 | the hash of every cell at most one step from c on each axis is in the lookup space of `hash(c)` |
| Filter.NearCellsOnAxis | filter.py:9-10 | positions at most r apart on an axis fall in cells at most one step apart on that axis |
| Filter.NearInLookupSpace | filter.py:9-30 | if two positions differ by at most r on each axis, the second's hash is in the lookup space of the first's |
| Filter.NeighboursAreCandidates | filter.py:9-41 | over-approximation: every particle within Euclidean distance r of particle i is marked in particle i's mask |
| Filter.LookupSpaceExact | filter.py:13-30 | for cells fewer than 615 columns apart (the tank is 22 columns wide), a cell's hash is in another cell's lookup space iff the two cells are neighbours in the 3×3 sense |

## Left out

- The `Engine` class of `main.py` is left out: window setup, events, rendering, the clock, the mutable global `GRAVITY` and numba `@jit` compilation.
- The integration step, `update_velocities`, `update_densities` and `update_pressures` are left out: floating-point integration that divides by a density that can be zero. `update_densities` and `update_pressures` call `calculate_density` and `calculate_pressure_force` (main.py:96, 106), and the engine calls `create_particules` (main.py:39); neither main.py nor the modules it imports (constants.py, liquid.py) define these three functions.
- The colour and drawing helpers of `utils.py` and `particule.draw` are left out (logarithms, colour interpolation, drawing calls), and so is `test.py`, which only prints values.
- `MASS`, `VOLUME` and the colour constants are left out: the collision rule and the filter do not read them.
- numba's `prange` loops are modelled as sequential loops.
- MainCollision.TankCollision requires a position array of at least two elements; the source raises IndexError on a shorter one (main.py:146), but its only caller (main.py:81) always passes a two-element row.
- Floating point is not modelled. Positions and velocities are exact reals: float32 storage, rounding of `0.7·v` and of the clamped position, and NaN/infinity are not represented. Cell coordinates and hashes are exact integers; numpy computes them as float64, which is exact for magnitudes below 2^53.
- `Filter.FloorDiv`: requires a positive radius. numpy's floor division by zero yields infinities or NaN, which the model does not represent.
- `Filter.GetIndices` returns a sequence rather than a numpy array. The source builds a new array at every step of the loop, so nothing is updated in place.
- `ArrayCollision.TankCollision`: the source computes both wall tests for all rows first and then rewrites whole columns. The model visits the rows one by one; this gives the same result because each row's outcome depends on that row alone. It requires two distinct N×2 arrays of equal length. Aliased arrays and numpy broadcasting of other shapes are not modelled.
- `CENTER_TANK_NUMPY`, used by `utils.py`, is not defined in `constants.py`. The model takes it to be `CENTER_TANK` (550, 340).
- `Collisions.RuleInsideAndIdempotent`: proved only for radii with R + ε/2 < 240 (below 239.9995). From there on the source itself cannot place a particle that hits the floor or ceiling inside, and a second call bounces it again (`Collisions.RuleOversized`).
- pygame's `Vector2` is modelled only by its two mutable components.
