/** The spatial-hash neighbour filter of filter.py. Positions are mapped to
    cells of a square grid whose cell size is the smoothing radius and whose
    origin is the tank's top-left corner; a cell is mapped to an integer key by
    a linear hash; a particle's candidate neighbours are the particles whose
    key is the key of one of the 3x3 cells around its own. */
module Filter {
  import opened Vectors
  import opened Constants

  /** A grid cell. */
  datatype Cell = Cell(x: int, y: int)

  function Add(a: Cell, b: Cell): Cell
  {
    Cell(a.x + b.x, a.y + b.y)
  }

  /** Origin of the grid: the tank's top-left corner. */
  const START: Vec2 := Vec2(TANK.x, TANK.y)

  /** Multipliers of the cell hash. */
  const HASH_X: int := 15823
  const HASH_Y: int := 9737333

  // ---------------------------------------------------------------------
  // Real arithmetic helpers

  lemma MulLeft(a: real, b: real, r: real)
    requires r > 0.0 && a <= b
    ensures a * r <= b * r
  {
    assert (b - a) * r >= 0.0;
  }

  lemma MulLeftStrict(a: real, b: real, r: real)
    requires r > 0.0 && a < b
    ensures a * r < b * r
  {
    assert (b - a) * r > 0.0;
  }

  /** n * r written as repeated addition: a term the solver reasons about
      linearly, tied to the product by ScaleIsProduct. */
  function Scale(n: int, r: real): real
    decreases if n < 0 then -n else n
  {
    if n == 0 then 0.0 else if n > 0 then Scale(n - 1, r) + r else Scale(n + 1, r) - r
  }

  lemma ScaleStep(n: int, r: real)
    ensures Scale(n + 1, r) == Scale(n, r) + r
  {
  }

  lemma {:induction false} ScaleIsProduct(n: int, r: real)
    ensures Scale(n, r) == n as real * r
    decreases if n < 0 then -n else n
  {
    if n > 0 {
      ScaleIsProduct(n - 1, r);
    } else if n < 0 {
      ScaleIsProduct(n + 1, r);
    }
  }

  /** For a positive r, a larger integer is at least one r further on. */
  lemma {:induction false} ScaleMono(n: int, m: int, r: real)
    requires r > 0.0 && n < m
    ensures Scale(n, r) + r <= Scale(m, r)
    decreases m - n
  {
    ScaleStep(n, r);
    if n + 1 < m {
      ScaleMono(n + 1, m, r);
      ScaleStep(n + 1, r);
    }
  }

  /** The products of the interval bounds of n, as Scale terms. */
  lemma ScaleBounds(n: int, r: real)
    ensures n as real * r == Scale(n, r)
    ensures (n + 1) as real * r == Scale(n, r) + r
  {
    ScaleIsProduct(n, r);
    ScaleIsProduct(n + 1, r);
    ScaleStep(n, r);
  }

  lemma MulPos(a: real, b: real)
    requires a > 0.0 && b > 0.0
    ensures a * b > 0.0
  {
  }

  /** Two intervals [c * r, (c + 1) * r) holding the same number have the same c. */
  lemma SameInterval(a: real, r: real, q: int, f: int)
    requires r > 0.0
    requires q as real * r <= a < (q + 1) as real * r
    requires f as real * r <= a < (f + 1) as real * r
    ensures q == f
  {
    ScaleBounds(q, r);
    ScaleBounds(f, r);
    if q < f {
      ScaleMono(q, f, r);
    } else if f < q {
      ScaleMono(f, q, r);
    }
  }

  /** Floor division of reals, Python's `//`: the integer q with
      q * r <= a < (q + 1) * r. */
  function FloorDiv(a: real, r: real): (q: int)
    requires r > 0.0
    ensures q as real * r <= a < (q + 1) as real * r
  {
    var t := a / r;
    assert t * r == a;
    assert t.Floor as real <= t < t.Floor as real + 1.0;
    MulLeft(t.Floor as real, t, r);
    MulLeftStrict(t, (t.Floor + 1) as real, r);
    assert a < (t.Floor + 1) as real * r;
    t.Floor
  }

  /** There is only one such integer. */
  lemma FloorDivUnique(a: real, r: real, q: int)
    requires r > 0.0
    requires q as real * r <= a < (q + 1) as real * r
    ensures q == FloorDiv(a, r)
  {
    SameInterval(a, r, q, FloorDiv(a, r));
  }

  // ---------------------------------------------------------------------
  // Positions to cells to hashes

  /** The square of side `radius` of cell c contains position p. */
  predicate InCell(p: Vec2, c: Cell, radius: real)
  {
    START.x + c.x as real * radius <= p.x < START.x + (c.x + 1) as real * radius &&
    START.y + c.y as real * radius <= p.y < START.y + (c.y + 1) as real * radius
  }

  /** The cell holding one position. */
  function CellOf(p: Vec2, radius: real): (c: Cell)
    requires radius > 0.0
    ensures InCell(p, c, radius)
  {
    Cell(FloorDiv(p.x - START.x, radius), FloorDiv(p.y - START.y, radius))
  }

  /** Only one cell holds a position. */
  lemma CellOfUnique(p: Vec2, c: Cell, radius: real)
    requires radius > 0.0 && InCell(p, c, radius)
    ensures c == CellOf(p, radius)
  {
    FloorDivUnique(p.x - START.x, radius, c.x);
    FloorDivUnique(p.y - START.y, radius, c.y);
  }

  /** `pos_to_coord`: the cell of every position of an N x 2 array. */
  function PosToCoord(positions: seq<Vec2>, radius: real := SMOOTHING_RADIUS): (coords: seq<Cell>)
    requires radius > 0.0
    ensures |coords| == |positions|
    ensures forall i :: 0 <= i < |positions| ==> InCell(positions[i], coords[i], radius)
  {
    seq(|positions|, i requires 0 <= i < |positions| => CellOf(positions[i], radius))
  }

  /** The hash of one cell. For the columns a tank can hold (0 to 615, as
      615 * HASH_X < HASH_Y) the hash decodes back to the cell: the row is the
      quotient by HASH_Y and the column's share is the remainder. */
  function HashOf(c: Cell): (h: int)
    ensures 0 <= c.x <= 615 ==> h / HASH_Y == c.y && h % HASH_Y == c.x * HASH_X
  {
    c.x * HASH_X + c.y * HASH_Y
  }

  /** `coords_to_hash`: the hash of every cell of an array of cells. */
  function CoordsToHash(coords: seq<Cell>): (hashes: seq<int>)
    ensures |hashes| == |coords|
    ensures forall i :: 0 <= i < |coords| ==> hashes[i] == HashOf(coords[i])
  {
    seq(|coords|, i requires 0 <= i < |coords| => HashOf(coords[i]))
  }

  /** `positions_to_hash`: the hash of the cell of every position. */
  function PositionsToHash(positions: seq<Vec2>, radius: real := SMOOTHING_RADIUS): (hashes: seq<int>)
    requires radius > 0.0
    ensures |hashes| == |positions|
    ensures forall i, c :: 0 <= i < |positions| && InCell(positions[i], c, radius) ==> hashes[i] == HashOf(c)
  {
    var hashes := CoordsToHash(PosToCoord(positions, radius));
    forall i, c | 0 <= i < |positions| && InCell(positions[i], c, radius)
      ensures hashes[i] == HashOf(c)
    {
      CellOfUnique(positions[i], c, radius);
    }
    hashes
  }

  // ---------------------------------------------------------------------
  // The 3x3 neighbourhood

  /** Offsets of the 3x3 block of cells around a cell, the cell itself at index 4. */
  const CELL_SPACE: seq<Cell> := [
    Cell(-1, -1), Cell(0, -1), Cell(1, -1),
    Cell(-1,  0), Cell(0,  0), Cell(1,  0),
    Cell(-1,  1), Cell(0,  1), Cell(1,  1)
  ]

  /** Hashes of the offsets. */
  const HASH_SPACE: seq<int> := CoordsToHash(CELL_SPACE)

  /** `get_lookup_space`: the hash offsets shifted by a cell's hash. */
  function GetLookupSpace(hash: int): (space: seq<int>)
    ensures |space| == |HASH_SPACE| == 9
    ensures hash in space
  {
    var space := seq(|HASH_SPACE|, k requires 0 <= k < |HASH_SPACE| => HASH_SPACE[k] + hash);
    assert HASH_SPACE[4] == HashOf(Cell(0, 0)) == 0;
    assert space[4] == hash;
    space
  }

  /** The hash is linear. */
  lemma HashAdditive(a: Cell, b: Cell)
    ensures HashOf(Add(a, b)) == HashOf(a) + HashOf(b)
  {
  }

  /** The lookup space of a cell's hash is the list of hashes of its nine
      neighbouring cells, itself included, in the order of CELL_SPACE. */
  lemma LookupSpaceOfCell(c: Cell)
    ensures forall k :: 0 <= k < 9 ==> GetLookupSpace(HashOf(c))[k] == HashOf(Add(c, CELL_SPACE[k]))
    ensures forall h :: h in GetLookupSpace(HashOf(c)) <==> exists o :: o in CELL_SPACE && h == HashOf(Add(c, o))
  {
    forall k | 0 <= k < 9
      ensures GetLookupSpace(HashOf(c))[k] == HashOf(Add(c, CELL_SPACE[k]))
    {
      HashAdditive(c, CELL_SPACE[k]);
    }
  }

  /** The 3x3 block is exactly the cells at most one step away on each axis. */
  lemma CellSpaceIsBlock(o: Cell)
    ensures o in CELL_SPACE <==> -1 <= o.x <= 1 && -1 <= o.y <= 1
  {
  }

  /** The hash never confuses two cells less than 616 columns apart:
      615 * 15823 < 9737333. */
  lemma HashInjectiveNear(a: Cell, b: Cell)
    requires -615 <= a.x - b.x <= 615
    requires HashOf(a) == HashOf(b)
    ensures a == b
  {
    var dx, dy := a.x - b.x, b.y - a.y;
    assert dx * HASH_X == dy * HASH_Y;
  }

  /** The nine hash offsets are pairwise distinct and the centre cell's
      offset is 0. */
  lemma HashSpaceDistinct()
    ensures HASH_SPACE[4] == 0
    ensures forall i, j :: 0 <= i < j < 9 ==> HASH_SPACE[i] != HASH_SPACE[j]
  {
    forall i, j | 0 <= i < j < 9
      ensures HASH_SPACE[i] != HASH_SPACE[j]
    {
      if HASH_SPACE[i] == HASH_SPACE[j] {
        HashInjectiveNear(CELL_SPACE[i], CELL_SPACE[j]);
      }
    }
  }

  // ---------------------------------------------------------------------
  // The candidate mask

  /** `filter | (ref == value)`, element-wise. */
  function OrEqual(mask: seq<bool>, ref: seq<int>, value: int): (r: seq<bool>)
    requires |mask| == |ref|
    ensures |r| == |ref|
    ensures forall j :: 0 <= j < |ref| && mask[j] ==> r[j]
    ensures forall j :: 0 <= j < |ref| && ref[j] == value ==> r[j]
    ensures forall j :: 0 <= j < |ref| && r[j] ==> mask[j] || ref[j] == value
  {
    seq(|ref|, j requires 0 <= j < |ref| => mask[j] || ref[j] == value)
  }

  /** The mask obtained by OR-ing in the comparisons with `values`, in order,
      starting from all false. */
  function MaskOf(ref: seq<int>, values: seq<int>): (mask: seq<bool>)
    ensures |mask| == |ref|
    decreases |values|
  {
    if values == [] then seq(|ref|, _ => false)
    else OrEqual(MaskOf(ref, values[..|values| - 1]), ref, values[|values| - 1])
  }

  /** An entry of the mask is set exactly when its hash is one of the values. */
  lemma {:induction false} MaskOfMembership(ref: seq<int>, values: seq<int>)
    ensures forall j :: 0 <= j < |ref| ==> (MaskOf(ref, values)[j] <==> ref[j] in values)
    decreases |values|
  {
    if values != [] {
      var init := values[..|values| - 1];
      MaskOfMembership(ref, init);
      assert values == init + [values[|values| - 1]];
      forall j | 0 <= j < |ref|
        ensures MaskOf(ref, values)[j] <==> ref[j] in values
      {
        assert ref[j] in values <==> ref[j] in init || ref[j] == values[|values| - 1];
      }
    }
  }

  /** Later values only turn entries from false to true. */
  lemma MaskOfGrows(ref: seq<int>, values: seq<int>, more: seq<int>)
    ensures forall j :: 0 <= j < |ref| && MaskOf(ref, values)[j] ==> MaskOf(ref, values + more)[j]
  {
    MaskOfMembership(ref, values);
    MaskOfMembership(ref, values + more);
  }

  /** The mask does not depend on the order in which the values are visited,
      nor on repetitions. */
  lemma MaskOfOrderFree(ref: seq<int>, values: seq<int>, others: seq<int>)
    requires forall v :: v in values <==> v in others
    ensures MaskOf(ref, values) == MaskOf(ref, others)
  {
    MaskOfMembership(ref, values);
    MaskOfMembership(ref, others);
  }

  /** `get_indices`: the candidate mask of the particles whose hashes are
      `ref`, for a particle whose hash is `hash`. */
  method GetIndices(hash: int, ref: seq<int>) returns (mask: seq<bool>)
    ensures |mask| == |ref|
    ensures forall j :: 0 <= j < |ref| ==> (mask[j] <==> ref[j] in GetLookupSpace(hash))
  {
    var filter := seq(|ref|, _ => false);
    var lookupSpace := GetLookupSpace(hash);
    var i := 0;
    while i < |lookupSpace|
      invariant 0 <= i <= |lookupSpace|
      invariant filter == MaskOf(ref, lookupSpace[..i])
    {
      var value := lookupSpace[i];
      assert lookupSpace[..i + 1][..i] == lookupSpace[..i];
      filter := OrEqual(filter, ref, value);
      i := i + 1;
    }
    assert lookupSpace[..i] == lookupSpace;
    MaskOfMembership(ref, lookupSpace);
    mask := filter;
  }

  /** A particle is always its own candidate. */
  lemma SelfMarked(ref: seq<int>, i: int)
    requires 0 <= i < |ref|
    ensures MaskOf(ref, GetLookupSpace(ref[i]))[i]
  {
    HashSpaceDistinct();
    assert GetLookupSpace(ref[i])[4] == ref[i];
    MaskOfMembership(ref, GetLookupSpace(ref[i]));
  }

  // ---------------------------------------------------------------------
  // Over-approximation

  /** Two numbers at most r apart lie in intervals [c * r, (c + 1) * r) at
      most one step apart. */
  lemma NearIntervals(p: real, q: real, r: real, cp: int, cq: int)
    requires r > 0.0
    requires -r <= p - q <= r
    requires cp as real * r <= p < (cp + 1) as real * r
    requires cq as real * r <= q < (cq + 1) as real * r
    ensures -1 <= cq - cp <= 1
  {
    ScaleBounds(cp, r);
    ScaleBounds(cq, r);
    if cq > cp + 1 {
      ScaleMono(cp + 1, cq, r);
      ScaleStep(cp + 1, r);
      ScaleStep(cp, r);
    }
    if cp > cq + 1 {
      ScaleMono(cq + 1, cp, r);
      ScaleStep(cq + 1, r);
      ScaleStep(cq, r);
    }
  }

  /** Positions at most one cell size apart on an axis lie in cells at most
      one step apart on that axis. */
  lemma NearCellsOnAxis(p: real, q: real, r: real)
    requires r > 0.0
    requires -r <= p - q <= r
    ensures -1 <= FloorDiv(q, r) - FloorDiv(p, r) <= 1
  {
    NearIntervals(p, q, r, FloorDiv(p, r), FloorDiv(q, r));
  }

  /** The hash of each of the nine cells around c is in the lookup space of c. */
  lemma NeighbourInLookupSpace(c: Cell, d: Cell)
    requires -1 <= d.x - c.x <= 1 && -1 <= d.y - c.y <= 1
    ensures HashOf(d) in GetLookupSpace(HashOf(c))
  {
    var o := Cell(d.x - c.x, d.y - c.y);
    var k := (o.y + 1) * 3 + (o.x + 1);
    assert CELL_SPACE[k] == o;
    LookupSpaceOfCell(c);
    assert GetLookupSpace(HashOf(c))[k] == HashOf(d);
  }

  /** Positions within one cell size of each other on both axes lie in
      neighbouring cells, so each one's hash is in the other's lookup space. */
  lemma NearInLookupSpace(p: Vec2, q: Vec2, radius: real)
    requires radius > 0.0
    requires -radius <= p.x - q.x <= radius && -radius <= p.y - q.y <= radius
    ensures HashOf(CellOf(q, radius)) in GetLookupSpace(HashOf(CellOf(p, radius)))
  {
    NearCellsOnAxis(p.x - START.x, q.x - START.x, radius);
    NearCellsOnAxis(p.y - START.y, q.y - START.y, radius);
    NeighbourInLookupSpace(CellOf(p, radius), CellOf(q, radius));
  }

  /** A square at most r * r bounds the number by r. */
  lemma SquareBound(d: real, r: real)
    requires r > 0.0 && d * d <= r * r
    ensures -r <= d <= r
  {
    if d > r {
      MulPos(d - r, d + r);
    } else if d < -r {
      MulPos(-d - r, -d + r);
    }
  }

  /** A Euclidean distance of at most r bounds both coordinate differences by r. */
  lemma EuclideanToAxes(dx: real, dy: real, r: real)
    requires r > 0.0 && dx * dx + dy * dy <= r * r
    ensures -r <= dx <= r && -r <= dy <= r
  {
    assert dx * dx >= 0.0 && dy * dy >= 0.0;
    SquareBound(dx, r);
    SquareBound(dy, r);
  }

  /** The filter never misses a neighbour: every particle within the
      smoothing radius of particle i is a candidate of particle i. */
  lemma NeighboursAreCandidates(positions: seq<Vec2>, radius: real, i: int, j: int)
    requires radius > 0.0
    requires 0 <= i < |positions| && 0 <= j < |positions|
    requires var d := Vec2(positions[i].x - positions[j].x, positions[i].y - positions[j].y);
      d.x * d.x + d.y * d.y <= radius * radius
    ensures var hashes := PositionsToHash(positions, radius);
      MaskOf(hashes, GetLookupSpace(hashes[i]))[j]
  {
    var p, q := positions[i], positions[j];
    EuclideanToAxes(p.x - q.x, p.y - q.y, radius);
    NearInLookupSpace(p, q, radius);
    var hashes := PositionsToHash(positions, radius);
    assert hashes[i] == HashOf(CellOf(p, radius));
    assert hashes[j] == HashOf(CellOf(q, radius));
    MaskOfMembership(hashes, GetLookupSpace(hashes[i]));
  }

  /** Where cells are fewer than 615 columns apart (the whole tank is 22
      columns wide at the default radius), the filter is exact at cell
      level: a hash is in a cell's lookup space exactly when its cell is one
      of the nine around that cell. */
  lemma LookupSpaceExact(c: Cell, d: Cell)
    requires -614 <= d.x - c.x <= 614
    ensures HashOf(d) in GetLookupSpace(HashOf(c)) <==> -1 <= d.x - c.x <= 1 && -1 <= d.y - c.y <= 1
  {
    LookupSpaceOfCell(c);
    if -1 <= d.x - c.x <= 1 && -1 <= d.y - c.y <= 1 {
      var o := Cell(d.x - c.x, d.y - c.y);
      CellSpaceIsBlock(o);
      assert Add(c, o) == d;
    }
    if HashOf(d) in GetLookupSpace(HashOf(c)) {
      var o :| o in CELL_SPACE && HashOf(d) == HashOf(Add(c, o));
      CellSpaceIsBlock(o);
      HashInjectiveNear(d, Add(c, o));
    }
  }
}
