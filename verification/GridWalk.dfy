/** SET_BUILDER: fills a 3D grid in row-major order, one vector of lanes at a time.  A vector register
    is a sequence of lanes, VECTOR_SIZE is a power of two, and `f` stands for the noise formula,
    which works on every lane alone. */
module GridWalk {
  import opened Bits

  type Vec = seq<int>

  function Splat(V: nat, v: int): (r: Vec)
    ensures |r| == V
  {
    seq(V, _ => v)
  }

  function Incremental(V: nat): (r: Vec)
    ensures |r| == V
  {
    seq(V, l => l)
  }

  function Add(a: Vec, b: Vec): (r: Vec)
    requires |a| == |b|
    ensures |r| == |a|
  {
    seq(|a|, l requires 0 <= l < |a| => a[l] + b[l])
  }

  function GreaterThan(a: Vec, b: Vec): seq<bool>
    requires |a| == |b|
  {
    seq(|a|, l requires 0 <= l < |a| => a[l] > b[l])
  }

  function MaskAdd(m: seq<bool>, a: Vec, b: Vec): Vec
    requires |m| == |a| == |b|
  {
    seq(|a|, l requires 0 <= l < |a| => if m[l] then a[l] + b[l] else a[l])
  }

  function MaskSub(m: seq<bool>, a: Vec, b: Vec): Vec
    requires |m| == |a| == |b|
  {
    seq(|a|, l requires 0 <= l < |a| => if m[l] then a[l] - b[l] else a[l])
  }

  lemma AddSplat(a: Vec, v: int)
    ensures |Splat(|a|, v)| == |a| == |Add(a, Splat(|a|, v))|
    ensures forall l :: 0 <= l < |a| ==> Add(a, Splat(|a|, v))[l] == a[l] + v
  {
  }

  lemma FirstLanes(V: nat)
    ensures forall l :: 0 <= l < V ==> Incremental(V)[l] == l
  {
  }

  // ----- row-major cells -----

  function Cell(dx: int, dy: int, dz: int, ySize: nat, zSize: nat): int {
    (dx * ySize + dy) * zSize + dz
  }

  /** The coordinates of a cell are determined by its position in row-major order. */
  lemma CellCoordinates(dx: int, dy: int, dz: int, ySize: nat, zSize: nat)
    requires 0 <= dy < ySize && 0 <= dz < zSize
    ensures var c := Cell(dx, dy, dz, ySize, zSize);
      c / zSize / ySize == dx && c / zSize % ySize == dy && c % zSize == dz
  {
    var row := dx * ySize + dy;
    assert Cell(dx, dy, dz, ySize, zSize) == zSize * row + dz;
    DivUnique(Cell(dx, dy, dz, ySize, zSize), zSize, row, dz);
    DivUnique(row, ySize, dx, dy);
  }

  lemma CellInside(dx: nat, dy: nat, dz: nat, xSize: nat, ySize: nat, zSize: nat)
    requires dx < xSize && dy < ySize && dz < zSize
    ensures 0 <= Cell(dx, dy, dz, ySize, zSize) < xSize * ySize * zSize
  {
    var row := dx * ySize + dy;
    MulMonotone(ySize, dx + 1, xSize);
    assert row < xSize * ySize;
    MulMonotone(zSize, row + 1, xSize * ySize);
    MulMonotone(ySize, 0, dx);
    MulMonotone(zSize, 0, row);
  }

  datatype Grid = Grid(xStart: int, yStart: int, zStart: int, xSize: nat, ySize: nat, zSize: nat) {
    predicate Valid() { xSize >= 1 && ySize >= 1 && zSize >= 1 }
    function Total(): nat { xSize * ySize * zSize }
  }

  /** What the scalar triple loop puts into cell `c`. */
  function ScalarValue<T>(f: (int, int, int) -> T, g: Grid, c: int): T
    requires g.Valid()
  {
    f(g.xStart + c / g.zSize / g.ySize, g.yStart + c / g.zSize % g.ySize, g.zStart + c % g.zSize)
  }

  /** Three registers hold, lane by lane, the coordinates of the cells from `index` on. */
  ghost predicate Holds(x: Vec, y: Vec, z: Vec, g: Grid, V: nat, index: int) {
    && |x| == |y| == |z| == V
    && forall l :: 0 <= l < V ==> LaneHolds(x[l], y[l], z[l], g, index + l)
  }

  ghost predicate LaneHolds(x: int, y: int, z: int, g: Grid, c: int) {
    && Cell(x - g.xStart, y - g.yStart, z - g.zStart, g.ySize, g.zSize) == c
    && 0 <= y - g.yStart < g.ySize && 0 <= z - g.zStart < g.zSize
  }

  // ----- AlignedSize -----

  function AlignedSize(size: int, n: nat, alignedSets: bool): int {
    var V := Pow2(n);
    if alignedSets && And(size, V - 1) != 0 then AndNot(size, V - 1) + V else size
  }

  /** The least multiple of the vector size that is not below `size`. */
  lemma AlignedSizeIsLeastMultiple(size: int, n: nat)
    ensures var a := AlignedSize(size, n, true); a % Pow2(n) == 0 && size <= a < size + Pow2(n)
  {
    hide And, AndNot, Pow2;
    var V := Pow2(n);
    MaskIsMod(size, n);
    var q, r := size / V, size % V;
    assert size == V * q + r;
    if r != 0 {
      NextMultiple(V, q);
    }
  }

  lemma NextMultiple(V: nat, q: int)
    requires V > 0
    ensures (V * q + V) % V == 0
  {
    assert V * q + V == V * (q + 1);
    DivUnique(V * (q + 1), V, q + 1, 0);
  }

  lemma MultipleGap(V: nat, a: int, b: int)
    requires V > 0 && a % V == 0 && b % V == 0 && a < b
    ensures a + V <= b && (a + V) % V == 0
  {
    var p, q := a / V, b / V;
    assert a == V * p && b == V * q;
    if q <= p {
      MulMonotone(V, q, p);
    }
    MulMonotone(V, p + 1, q);
    NextMultiple(V, p);
  }

  lemma StepMultiple(V: nat, a: int)
    requires V > 0 && a % V == 0
    ensures (a + V) % V == 0
  {
    assert a == V * (a / V);
    NextMultiple(V, a / V);
  }

  lemma TotalPositive(g: Grid)
    requires g.Valid()
    ensures g.Total() > 0
  {
    MulMonotone(g.ySize, 1, g.xSize);
    MulMonotone(g.zSize, 1, g.xSize * g.ySize);
  }

  /** A full vector that starts below `size` at a multiple of the vector size ends within the aligned size. */
  lemma AlignedRoom(size: int, n: nat, index: int)
    requires index % Pow2(n) == 0 && index < size
    ensures index + Pow2(n) <= AlignedSize(size, n, true)
  {
    AlignedSizeIsLeastMultiple(size, n);
    MultipleGap(Pow2(n), index, AlignedSize(size, n, true));
  }

  lemma AlignedNotBelow(size: int, n: nat, alignedSets: bool)
    ensures size <= AlignedSize(size, n, alignedSets)
  {
    AlignedSizeIsLeastMultiple(size, n);
  }

  // ----- AXIS_RESET -----

  /** One masked carry of a lane, as the loop body of AXIS_RESET does it. */
  lemma LaneCarry(x: int, y: int, z: int, g: Grid, c: int)
    requires g.Valid()
    requires Cell(x - g.xStart, y - g.yStart, z - g.zStart, g.ySize, g.zSize) == c
    requires 0 <= y - g.yStart < g.ySize && z - g.zStart >= 0
    ensures var zReset := z > g.zStart + g.zSize - 1;
      var y1, z1 := if zReset then y + 1 else y, if zReset then z - g.zSize else z;
      var yReset := y1 > g.yStart + g.ySize - 1;
      var x2, y2 := if yReset then x + 1 else x, if yReset then y1 - g.ySize else y1;
      && Cell(x2 - g.xStart, y2 - g.yStart, z1 - g.zStart, g.ySize, g.zSize) == c
      && 0 <= y2 - g.yStart < g.ySize && z1 - g.zStart >= 0
  {
    var dx, dy, dz := x - g.xStart, y - g.yStart, z - g.zStart;
    if dz > g.zSize - 1 {
      var row := dx * g.ySize + dy;
      assert (row + 1) * g.zSize + (dz - g.zSize) == row * g.zSize + dz;
      if dy + 1 > g.ySize - 1 {
        assert (dx + 1) * g.ySize + (dy + 1 - g.ySize) == row + 1;
      } else {
        assert dx * g.ySize + (dy + 1) == row + 1;
      }
    }
  }

  /** Carries that are still to be done: lanes may lie past the end of their row by `slack`. */
  ghost predicate Nearly(x: Vec, y: Vec, z: Vec, g: Grid, V: nat, index: int, slack: int) {
    && |x| == |y| == |z| == V
    && forall l :: 0 <= l < V ==> LaneNearly(x[l], y[l], z[l], g, index + l, slack)
  }

  ghost predicate LaneNearly(x: int, y: int, z: int, g: Grid, c: int, slack: int) {
    && Cell(x - g.xStart, y - g.yStart, z - g.zStart, g.ySize, g.zSize) == c
    && 0 <= y - g.yStart < g.ySize && 0 <= z - g.zStart
    && (z - g.zStart < g.zSize || z - g.zStart < g.zSize + slack)
  }

  method AxisReset(g: Grid, V: nat, start: nat, x0: Vec, y0: Vec, z0: Vec, ghost index: int)
    returns (x: Vec, y: Vec, z: Vec)
    requires g.Valid() && start <= 1
    requires Nearly(x0, y0, z0, g, V, index, V - g.zSize * start)
    ensures Holds(x, y, z, g, V, index)
  {
    x, y, z := x0, y0, z0;
    var ySizeV, zSizeV := Splat(V, g.ySize), Splat(V, g.zSize);
    var yEndV, zEndV := Splat(V, g.yStart + g.ySize - 1), Splat(V, g.zStart + g.zSize - 1);
    var i := g.zSize * start;
    while i < V
      invariant Nearly(x, y, z, g, V, index, V - i)
      decreases V - i
    {
      ghost var px, py, pz := x, y, z;
      var zReset := GreaterThan(z, zEndV);
      y := MaskAdd(zReset, y, Splat(V, 1));
      z := MaskSub(zReset, z, zSizeV);
      var yReset := GreaterThan(y, yEndV);
      x := MaskAdd(yReset, x, Splat(V, 1));
      y := MaskSub(yReset, y, ySizeV);
      forall l | 0 <= l < V
        ensures LaneNearly(x[l], y[l], z[l], g, index + l, V - (i + g.zSize))
      {
        assert LaneNearly(px[l], py[l], pz[l], g, index + l, V - i);
        LaneCarry(px[l], py[l], pz[l], g, index + l);
      }
      i := i + g.zSize;
    }
    forall l | 0 <= l < V
      ensures LaneHolds(x[l], y[l], z[l], g, index + l)
    {
      assert LaneNearly(x[l], y[l], z[l], g, index + l, V - i);
    }
  }

  // ----- stores -----

  /** The noise formula applied to every lane. */
  function Lanes<T>(f: (int, int, int) -> T, x: Vec, y: Vec, z: Vec): (r: seq<T>)
    requires |x| == |y| == |z|
    ensures |r| == |x|
  {
    seq(|x|, l requires 0 <= l < |x| => f(x[l], y[l], z[l]))
  }

  lemma LanesAreScalar<T>(f: (int, int, int) -> T, x: Vec, y: Vec, z: Vec, g: Grid, V: nat, index: int)
    requires g.Valid() && Holds(x, y, z, g, V, index)
    ensures forall l :: 0 <= l < V ==> Lanes(f, x, y, z)[l] == ScalarValue(f, g, index + l)
  {
    forall l | 0 <= l < V
      ensures Lanes(f, x, y, z)[l] == ScalarValue(f, g, index + l)
    {
      assert LaneHolds(x[l], y[l], z[l], g, index + l);
      CellCoordinates(x[l] - g.xStart, y[l] - g.yStart, z[l] - g.zStart, g.ySize, g.zSize);
    }
  }

  /** Writes the first `count` lanes to consecutive cells. */
  method Store<T>(noiseSet: array<T>, index: nat, result: seq<T>, count: nat)
    requires count <= |result| && index + count <= noiseSet.Length
    modifies noiseSet
    ensures forall k :: 0 <= k < noiseSet.Length ==>
      noiseSet[k] == if index <= k < index + count then result[k - index] else old(noiseSet[k])
  {
    for i := 0 to count
      invariant forall k :: 0 <= k < noiseSet.Length ==>
        noiseSet[k] == if index <= k < index + i then result[k - index] else old(noiseSet[k])
    {
      noiseSet[index + i] := result[i];
    }
  }

  /** The cells before `index` hold what the scalar loop puts there, cells from `limit` on are untouched. */
  ghost predicate Filled<T>(f: (int, int, int) -> T, g: Grid, s: seq<T>, was: seq<T>, index: int, limit: int)
    requires g.Valid()
  {
    && |s| == |was|
    && (forall c :: 0 <= c < index && c < |s| ==> s[c] == ScalarValue(f, g, c))
    && (forall c :: 0 <= c < |s| && limit <= c ==> s[c] == was[c])
  }

  lemma FilledNothing<T>(f: (int, int, int) -> T, g: Grid, was: seq<T>, limit: int)
    requires g.Valid()
    ensures Filled(f, g, was, was, 0, limit)
  {
  }

  lemma FilledEnough<T>(f: (int, int, int) -> T, g: Grid, s: seq<T>, was: seq<T>, index: int, limit: int)
    requires g.Valid() && Filled(f, g, s, was, index, limit) && index >= g.Total()
    ensures Filled(f, g, s, was, g.Total(), limit)
  {
  }

  method StoreLanes<T>(f: (int, int, int) -> T, g: Grid, V: nat, noiseSet: array<T>, index: nat, count: nat,
                       x: Vec, y: Vec, z: Vec, ghost was: seq<T>, ghost limit: int)
    requires g.Valid() && Holds(x, y, z, g, V, index)
    requires count <= V && index + count <= noiseSet.Length && index + count <= limit
    requires Filled(f, g, noiseSet[..], was, index, limit)
    modifies noiseSet
    ensures Filled(f, g, noiseSet[..], was, index + count, limit)
  {
    LanesAreScalar(f, x, y, z, g, V, index);
    var result := Lanes(f, x, y, z);
    ghost var s := noiseSet[..];
    Store(noiseSet, index, result, count);
    forall c | 0 <= c < index + count
      ensures noiseSet[c] == ScalarValue(f, g, c)
    {
      if c < index {
        assert s[c] == ScalarValue(f, g, c);
      } else {
        assert result[c - index] == ScalarValue(f, g, index + (c - index));
      }
    }
  }

  // ----- the branch for rows that are whole vectors -----

  lemma RowStep(g: Grid, V: nat, x: Vec, y: Vec, z: Vec, ix: nat, iy: nat, iz: nat)
    requires iy < g.ySize && iz + V <= g.zSize
    requires x == Splat(V, g.xStart + ix) && y == Splat(V, g.yStart + iy)
    requires |z| == V && forall l :: 0 <= l < V ==> z[l] == g.zStart + iz + l
    ensures Holds(x, y, z, g, V, Cell(ix, iy, iz, g.ySize, g.zSize))
  {
    forall l | 0 <= l < V
      ensures LaneHolds(x[l], y[l], z[l], g, Cell(ix, iy, iz, g.ySize, g.zSize) + l)
    {
      assert x[l] - g.xStart == ix && y[l] - g.yStart == iy && z[l] - g.zStart == iz + l;
    }
  }

  method FillRow<T>(f: (int, int, int) -> T, g: Grid, V: nat, noiseSet: array<T>, start: nat, x: Vec, y: Vec,
                    ghost ix: nat, ghost iy: nat, ghost was: seq<T>)
    returns (index: nat)
    requires g.Valid() && V > 0 && g.zSize % V == 0 && ix < g.xSize && iy < g.ySize
    requires x == Splat(V, g.xStart + ix) && y == Splat(V, g.yStart + iy)
    requires start == Cell(ix, iy, 0, g.ySize, g.zSize) && start + g.zSize <= g.Total() <= noiseSet.Length
    requires Filled(f, g, noiseSet[..], was, start, g.Total())
    modifies noiseSet
    ensures index == start + g.zSize
    ensures Filled(f, g, noiseSet[..], was, index, g.Total())
  {
    hide Filled, Holds, Splat, Add;
    index := start;
    MultipleGap(V, 0, g.zSize);
    var z := Add(Incremental(V), Splat(V, g.zStart));
    AddSplat(Incremental(V), g.zStart);
    FirstLanes(V);
    RowStep(g, V, x, y, z, ix, iy, 0);
    StoreLanes(f, g, V, noiseSet, index, V, x, y, z, was, g.Total());
    var iz := V;
    while iz < g.zSize
      invariant V <= iz <= g.zSize && iz % V == 0 && index == start + iz - V
      invariant |z| == V && forall l :: 0 <= l < V ==> z[l] == g.zStart + (iz - V) + l
      invariant Filled(f, g, noiseSet[..], was, index + V, g.Total())
    {
      MultipleGap(V, iz, g.zSize);
      AddSplat(z, V);
      z := Add(z, Splat(V, V));
      index := index + V;
      iz := iz + V;
      RowStep(g, V, x, y, z, ix, iy, iz - V);
      StoreLanes(f, g, V, noiseSet, index, V, x, y, z, was, g.Total());
    }
    index := index + V;
  }

  lemma RowEnds(g: Grid, ix: nat, iy: nat)
    requires g.Valid() && ix < g.xSize && iy < g.ySize
    ensures 0 <= Cell(ix, iy, 0, g.ySize, g.zSize)
    ensures Cell(ix, iy, 0, g.ySize, g.zSize) + g.zSize == Cell(ix, iy + 1, 0, g.ySize, g.zSize) <= g.Total()
    ensures Cell(ix, g.ySize, 0, g.ySize, g.zSize) == Cell(ix + 1, 0, 0, g.ySize, g.zSize)
  {
    CellInside(ix, iy, g.zSize - 1, g.xSize, g.ySize, g.zSize);
    CellInside(ix, iy, 0, g.xSize, g.ySize, g.zSize);
    assert ix * g.ySize + (iy + 1) == (ix * g.ySize + iy) + 1;
    assert ((ix * g.ySize + iy) + 1) * g.zSize == (ix * g.ySize + iy) * g.zSize + g.zSize;
  }

  method FillWholeVectors<T>(f: (int, int, int) -> T, g: Grid, V: nat, noiseSet: array<T>, ghost was: seq<T>)
    requires g.Valid() && V > 0 && g.zSize % V == 0 && g.Total() <= noiseSet.Length && was == noiseSet[..]
    modifies noiseSet
    ensures Filled(f, g, noiseSet[..], was, g.Total(), g.Total())
  {
    var yBase := Splat(V, g.yStart);
    var x := Splat(V, g.xStart);
    var index := 0;
    for ix := 0 to g.xSize
      invariant x == Splat(V, g.xStart + ix) && index == Cell(ix, 0, 0, g.ySize, g.zSize)
      invariant Filled(f, g, noiseSet[..], was, index, g.Total())
    {
      hide Filled;
      var y := yBase;
      for iy := 0 to g.ySize
        invariant y == Splat(V, g.yStart + iy) && index == Cell(ix, iy, 0, g.ySize, g.zSize)
        invariant Filled(f, g, noiseSet[..], was, index, g.Total())
      {
        RowEnds(g, ix, iy);
        index := FillRow(f, g, V, noiseSet, index, x, y, ix, iy, was);
        y := Add(y, Splat(V, 1));
      }
      RowEnds(g, ix, 0);
      x := Add(x, Splat(V, 1));
    }
  }

  // ----- the branch with carries -----

  lemma StartNearly(g: Grid, V: nat)
    requires g.Valid()
    ensures Nearly(Splat(V, g.xStart), Splat(V, g.yStart), Add(Splat(V, g.zStart), Incremental(V)), g, V, 0,
                   V - g.zSize)
  {
    var x, y, z := Splat(V, g.xStart), Splat(V, g.yStart), Add(Splat(V, g.zStart), Incremental(V));
    forall l | 0 <= l < V
      ensures LaneNearly(x[l], y[l], z[l], g, l, V - g.zSize)
    {
      assert x[l] - g.xStart == 0 && y[l] - g.yStart == 0 && z[l] - g.zStart == l;
    }
  }

  lemma NextNearly(g: Grid, V: nat, x: Vec, y: Vec, z: Vec, index: int)
    requires g.Valid() && Holds(x, y, z, g, V, index)
    ensures |Splat(V, V)| == |z| && Nearly(x, y, Add(z, Splat(V, V)), g, V, index + V, V)
  {
    AddSplat(z, V);
    forall l | 0 <= l < V
      ensures LaneNearly(x[l], y[l], Add(z, Splat(V, V))[l], g, index + V + l, V)
    {
      assert LaneHolds(x[l], y[l], z[l], g, index + l);
    }
  }

  method FillWithCarries<T>(f: (int, int, int) -> T, g: Grid, n: nat, alignedSets: bool, noiseSet: array<T>,
                            ghost was: seq<T>)
    requires g.Valid() && AlignedSize(g.Total(), n, alignedSets) <= noiseSet.Length && was == noiseSet[..]
    modifies noiseSet
    ensures Filled(f, g, noiseSet[..], was, g.Total(), AlignedSize(g.Total(), n, alignedSets))
  {
    hide *;
    var V := Pow2(n);
    ghost var limit := AlignedSize(g.Total(), n, alignedSets);
    AlignedNotBelow(g.Total(), n, alignedSets);
    TotalPositive(g);
    FilledNothing(f, g, was, limit);
    StartNearly(g, V);
    var x, y := Splat(V, g.xStart), Splat(V, g.yStart);
    var z := Add(Splat(V, g.zStart), Incremental(V));
    x, y, z := AxisReset(g, V, 1, x, y, z, 0);
    var index := 0;
    var maxIndex: int := g.Total();
    while index < maxIndex - (V as int)
      invariant 0 <= index < maxIndex && index % V == 0 && V > 0
      invariant Holds(x, y, z, g, V, index)
      invariant Filled(f, g, noiseSet[..], was, index, limit)
    {
      StoreLanes(f, g, V, noiseSet, index, V, x, y, z, was, limit);
      NextNearly(g, V, x, y, z, index);
      z := Add(z, Splat(V, V));
      StepMultiple(V, index);
      index := index + V;
      x, y, z := AxisReset(g, V, 0, x, y, z, index);
    }
    if alignedSets {
      AlignedRoom(g.Total(), n, index);
      StoreLanes(f, g, V, noiseSet, index, V, x, y, z, was, limit);
      FilledEnough(f, g, noiseSet[..], was, index + V, limit);
    } else {
      StoreLanes(f, g, V, noiseSet, index, maxIndex - index, x, y, z, was, limit);
    }
  }

  /** SET_BUILDER.  Every cell of the grid gets the value of its own coordinates, as in the plain triple
      loop, and nothing past the aligned size of the set is written. */
  method FillSet<T>(f: (int, int, int) -> T, g: Grid, n: nat, alignedSets: bool, noiseSet: array<T>)
    requires g.Valid() && AlignedSize(g.Total(), n, alignedSets) <= noiseSet.Length
    modifies noiseSet
    ensures forall dx: nat, dy: nat, dz: nat :: dx < g.xSize && dy < g.ySize && dz < g.zSize ==>
      0 <= Cell(dx, dy, dz, g.ySize, g.zSize) < noiseSet.Length &&
      noiseSet[Cell(dx, dy, dz, g.ySize, g.zSize)] == f(g.xStart + dx, g.yStart + dy, g.zStart + dz)
    ensures forall c :: 0 <= c < noiseSet.Length && AlignedSize(g.Total(), n, alignedSets) <= c ==>
      noiseSet[c] == old(noiseSet[c])
  {
    var V := Pow2(n);
    ghost var was := noiseSet[..];
    AlignedNotBelow(g.Total(), n, alignedSets);
    MaskIsMod(g.zSize, n);
    if And(g.zSize, V - 1) == 0 {
      FillWholeVectors(f, g, V, noiseSet, was);
    } else {
      FillWithCarries(f, g, n, alignedSets, noiseSet, was);
    }
    forall dx: nat, dy: nat, dz: nat | dx < g.xSize && dy < g.ySize && dz < g.zSize
      ensures 0 <= Cell(dx, dy, dz, g.ySize, g.zSize) < noiseSet.Length
      ensures noiseSet[Cell(dx, dy, dz, g.ySize, g.zSize)] == f(g.xStart + dx, g.yStart + dy, g.zStart + dz)
    {
      CellInside(dx, dy, dz, g.xSize, g.ySize, g.zSize);
      CellCoordinates(dx, dy, dz, g.ySize, g.zSize);
    }
  }
}
