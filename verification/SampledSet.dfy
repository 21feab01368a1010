/** FillSampledNoiseSet: noise is computed on a coarse grid of samples and blended in between, block by
    block, with the local coordinates of every lane decoded from a counter by shifts and masks. */
module SampledSet {
  import opened Bits
  import opened GridWalk

  // ----- one axis -----

  function Offset(start: int, s: nat): int {
    And(Pow2(s) - And(start, Pow2(s) - 1), Pow2(s) - 1)
  }

  function SampleCount(size: nat, start: int, s: nat): int {
    var n := size + Offset(start, s);
    var rounded := if And(n, Pow2(s) - 1) != 0 then AndNot(n, Pow2(s) - 1) + Pow2(s) else n;
    Shr(rounded, s) + 1
  }

  /** The block a coordinate falls into and its place in the block. */
  function Block(c: int, start: int, s: nat): int { (c + Offset(start, s)) / Pow2(s) }

  function Local(c: int, start: int, s: nat): int { (c + Offset(start, s)) % Pow2(s) }

  lemma OffsetIsNegation(start: int, s: nat)
    ensures 0 <= Offset(start, s) < Pow2(s)
    ensures Offset(start, s) == if start % Pow2(s) == 0 then 0 else Pow2(s) - start % Pow2(s)
  {
    hide And, AndNot, Pow2;
    var S := Pow2(s);
    MaskIsMod(start, s);
    MaskIsMod(S - start % S, s);
    if start % S == 0 {
      DivUnique(S, S, 1, 0);
    } else {
      DivUnique(S - start % S, S, 0, S - start % S);
    }
  }

  lemma RoundUp(n: int, S: nat)
    requires S > 0
    ensures var m := if n % S != 0 then n - n % S + S else n; S * (m / S) == m && n <= m < n + S
  {
    var q, r := n / S, n % S;
    assert n == S * q + r;
    if r != 0 {
      assert S * q + S == S * (q + 1);
      DivUnique(S * (q + 1), S, q + 1, 0);
    }
  }

  lemma SampleCountIsCeiling(size: nat, start: int, s: nat)
    ensures size + Offset(start, s) <= Pow2(s) * (SampleCount(size, start, s) - 1) < size + Offset(start, s) + Pow2(s)
  {
    var n := size + Offset(start, s);
    MaskIsMod(n, s);
    RoundUp(n, Pow2(s));
  }

  /** Every coordinate of the output has a block, the samples on both sides of the block exist, and the
      coordinate is the block's first one plus its place. */
  lemma AxisCovered(c: int, size: nat, start: int, s: nat)
    requires 0 <= c < size
    ensures 0 <= Block(c, start, s) < SampleCount(size, start, s) - 1
    ensures 0 <= Local(c, start, s) < Pow2(s)
    ensures c == Pow2(s) * Block(c, start, s) + Local(c, start, s) - Offset(start, s)
  {
    OffsetIsNegation(start, s);
    SampleCountIsCeiling(size, start, s);
    QuotientBelow(c + Offset(start, s), Pow2(s), SampleCount(size, start, s) - 1);
  }

  lemma QuotientBelow(n: nat, S: nat, N: int)
    requires S > 0 && n < S * N
    ensures 0 <= n / S < N && 0 <= n % S < S && n == S * (n / S) + n % S
  {
    var q := n / S;
    if q >= N {
      MulMonotone(S, N, q);
    }
    if q < 0 {
      MulMonotone(S, q, -1);
    }
  }

  /** ... and no other block and place give the same coordinate. */
  lemma PlaceIsUnique(c: int, start: int, s: nat, b: int, i: int)
    requires 0 <= i < Pow2(s) && c == Pow2(s) * b + i - Offset(start, s)
    ensures b == Block(c, start, s) && i == Local(c, start, s)
  {
    DivUnique(c + Offset(start, s), Pow2(s), b, i);
  }

  /** The samples of a block are taken at the world coordinate where the block starts exactly when the
      start is a multiple of the sample size or halfway between two of them. */
  lemma SamplesLineUp(start: int, s: nat, b: int)
    ensures Pow2(s) * (Shr(start, s) + b) == start + (Pow2(s) * b - Offset(start, s)) <==>
      start % Pow2(s) == 0 || 2 * (start % Pow2(s)) == Pow2(s)
  {
    OffsetIsNegation(start, s);
    Distribute(start, Pow2(s), b);
  }

  /** For start 1 and samples of size 4 the first block starts at -2, its sample is taken at 0. */
  lemma SamplesShifted()
    ensures Pow2(2) * Shr(1, 2) == 0 && 1 - Offset(1, 2) == -2
  {
    OffsetIsNegation(1, 2);
    assert Pow2(2) == 2 * Pow2(1) == 4 * Pow2(0) == 4;
  }

  lemma Distribute(a: int, S: nat, b: int)
    requires S > 0
    ensures S * (a / S + b) == a - a % S + S * b
  {
    var q := a / S;
    assert S * (q + b) == S * q + S * b;
  }

  // ----- the value of a cell -----

  datatype Corners = Corners(
    c000: real, c100: real, c010: real, c110: real, c001: real, c101: real, c011: real, c111: real)

  function Lerp(a: real, b: real, t: real): real { (b - a) * t + a }

  /** Where inside its block a local coordinate is evaluated. */
  function Weight(i: int, s: nat): real {
    var axisScale := 1.0 / Pow2(s) as real;
    i as real * axisScale + axisScale * 0.5
  }

  function Blend(c: Corners, xf: real, yf: real, zf: real): real {
    Lerp(Lerp(Lerp(c.c000, c.c100, xf), Lerp(c.c010, c.c110, xf), yf),
         Lerp(Lerp(c.c001, c.c101, xf), Lerp(c.c011, c.c111, xf), yf), zf)
  }

  /** Noise on the sample grid, by sample coordinates. */
  function Sample(f: (int, int, int) -> real, g: Grid, s: nat, x: int, y: int, z: int): real {
    f(Shr(g.xStart, s) + x, Shr(g.yStart, s) + y, Shr(g.zStart, s) + z)
  }

  function BlockCorners(f: (int, int, int) -> real, g: Grid, s: nat, x: int, y: int, z: int): Corners {
    Corners(Sample(f, g, s, x, y, z), Sample(f, g, s, x + 1, y, z), Sample(f, g, s, x, y + 1, z),
            Sample(f, g, s, x + 1, y + 1, z), Sample(f, g, s, x, y, z + 1), Sample(f, g, s, x + 1, y, z + 1),
            Sample(f, g, s, x, y + 1, z + 1), Sample(f, g, s, x + 1, y + 1, z + 1))
  }

  /** What an output cell has to hold: the blend of the eight corners of its block at its place. */
  function CellValue(f: (int, int, int) -> real, g: Grid, s: nat, dx: int, dy: int, dz: int): real {
    Blend(BlockCorners(f, g, s, Block(dx, g.xStart, s), Block(dy, g.yStart, s), Block(dz, g.zStart, s)),
          Weight(Local(dx, g.xStart, s), s), Weight(Local(dy, g.yStart, s), s), Weight(Local(dz, g.zStart, s), s))
  }

  ghost predicate Inside(g: Grid, dx: int, dy: int, dz: int) {
    0 <= dx < g.xSize && 0 <= dy < g.ySize && 0 <= dz < g.zSize
  }

  ghost predicate InBlock(g: Grid, s: nat, dx: int, dy: int, dz: int, x: int, y: int, z: int) {
    Block(dx, g.xStart, s) == x && Block(dy, g.yStart, s) == y && Block(dz, g.zStart, s) == z
  }

  ghost function At(g: Grid, cells: seq<real>, dx: int, dy: int, dz: int): real
    requires |cells| >= g.Total() && Inside(g, dx, dy, dz)
  {
    CellInside(dx, dy, dz, g.xSize, g.ySize, g.zSize);
    cells[Cell(dx, dy, dz, g.ySize, g.zSize)]
  }

  lemma AtUpdate(g: Grid, cells: seq<real>, dx: int, dy: int, dz: int, v: real, ex: int, ey: int, ez: int)
    requires |cells| >= g.Total() && Inside(g, dx, dy, dz) && Inside(g, ex, ey, ez)
    ensures 0 <= Cell(dx, dy, dz, g.ySize, g.zSize) < g.Total()
    ensures At(g, cells[Cell(dx, dy, dz, g.ySize, g.zSize) := v], ex, ey, ez)
         == if dx == ex && dy == ey && dz == ez then v else At(g, cells, ex, ey, ez)
  {
    hide Cell;
    CellInside(dx, dy, dz, g.xSize, g.ySize, g.zSize);
    CellInside(ex, ey, ez, g.xSize, g.ySize, g.zSize);
    CellCoordinates(dx, dy, dz, g.ySize, g.zSize);
    CellCoordinates(ex, ey, ez, g.ySize, g.zSize);
  }

  // ----- what the blend means -----

  datatype Affine = Affine(slope: real, start: real) {
    function At(x: real): real { slope * x + start }
  }

  /** Noise that is a product of one affine function for each axis. */
  ghost predicate Separable(f: (int, int, int) -> real, p: Affine, q: Affine, r: Affine) {
    forall x, y, z :: f(x, y, z) == p.At(x as real) * q.At(y as real) * r.At(z as real)
  }

  /** Where on the axis of samples output coordinate `d` is evaluated: half a step into its place, counted
      from the multiple of the sample size at or above the start. */
  function SampleAxis(start: int, d: int, S: nat): real
    requires S > 0
  {
    (start / S) as real +
    (2 * (d + if start % S == 0 then 0 else S - start % S) + 1) as real / (2 * S) as real
  }

  lemma AxisPlace(start: int, d: int, s: nat)
    ensures SampleAxis(start, d, Pow2(s))
         == (Shr(start, s) + Block(d, start, s)) as real + Weight(Local(d, start, s), s)
  {
    hide Pow2, Offset;
    var S, o := Pow2(s), Offset(start, s);
    OffsetIsNegation(start, s);
    QuotientOf(d + o, S);
    Halves(Block(d, start, s), Local(d, start, s), S);
  }

  lemma QuotientOf(n: int, S: nat)
    requires S > 0
    ensures n == S * (n / S) + n % S
  {
  }

  lemma Halves(b: int, l: int, S: nat)
    requires S > 0
    ensures (2 * (S * b + l) + 1) as real / (2 * S) as real
         == b as real + (l as real * (1.0 / S as real) + 1.0 / S as real * 0.5)
  {
    var t, n, v := 1.0 / S as real, S as real, b as real;
    assert t * n == 1.0;
    assert (S * b) as real == n * v;
    assert 2.0 * (n * v + l as real) + 1.0 == (2.0 * n) * (v + (l as real * t + t * 0.5)) by {
      assert n * (l as real * t) == l as real * (t * n);
      assert n * t == 1.0;
    }
    Quotient(2.0 * (n * v + l as real) + 1.0, 2.0 * n, v + (l as real * t + t * 0.5));
  }

  lemma Quotient(a: real, b: real, c: real)
    requires b > 0.0 && a == b * c
    ensures a / b == c
  {
  }

  function Product(a: real, b: real, c: real): real { a * b * c }

  lemma LerpX(a0: real, a1: real, b: real, c: real, t: real)
    ensures Lerp(Product(a0, b, c), Product(a1, b, c), t) == Product(Lerp(a0, a1, t), b, c)
  {
  }

  lemma LerpY(a: real, b0: real, b1: real, c: real, t: real)
    ensures Lerp(Product(a, b0, c), Product(a, b1, c), t) == Product(a, Lerp(b0, b1, t), c)
  {
  }

  lemma LerpZ(a: real, b: real, c0: real, c1: real, t: real)
    ensures Lerp(Product(a, b, c0), Product(a, b, c1), t) == Product(a, b, Lerp(c0, c1, t))
  {
  }

  lemma LerpAffine(p: Affine, x: int, t: real)
    ensures Lerp(p.At(x as real), p.At((x + 1) as real), t) == p.At(x as real + t)
  {
  }

  lemma ProductBlend(p0: real, p1: real, q0: real, q1: real, r0: real, r1: real, xf: real, yf: real, zf: real)
    ensures Blend(Corners(Product(p0, q0, r0), Product(p1, q0, r0), Product(p0, q1, r0), Product(p1, q1, r0),
                          Product(p0, q0, r1), Product(p1, q0, r1), Product(p0, q1, r1), Product(p1, q1, r1)),
                  xf, yf, zf)
         == Product(Lerp(p0, p1, xf), Lerp(q0, q1, yf), Lerp(r0, r1, zf))
  {
    hide Lerp, Product;
    var px, qy := Lerp(p0, p1, xf), Lerp(q0, q1, yf);
    LerpX(p0, p1, q0, r0, xf);
    LerpX(p0, p1, q1, r0, xf);
    LerpX(p0, p1, q0, r1, xf);
    LerpX(p0, p1, q1, r1, xf);
    LerpY(px, q0, q1, r0, yf);
    LerpY(px, q0, q1, r1, yf);
    LerpZ(px, qy, r0, r1, zf);
  }

  lemma SeparableAt(f: (int, int, int) -> real, p: Affine, q: Affine, r: Affine, x: int, y: int, z: int)
    requires Separable(f, p, q, r)
    ensures f(x, y, z) == Product(p.At(x as real), q.At(y as real), r.At(z as real))
  {
  }

  /** The blend of a product is the product of the three functions, each at the place on its own axis. */
  lemma SeparableBlend(f: (int, int, int) -> real, p: Affine, q: Affine, r: Affine, x: int, y: int, z: int,
                       xf: real, yf: real, zf: real)
    requires Separable(f, p, q, r)
    ensures Blend(Corners(f(x, y, z), f(x + 1, y, z), f(x, y + 1, z), f(x + 1, y + 1, z), f(x, y, z + 1),
                          f(x + 1, y, z + 1), f(x, y + 1, z + 1), f(x + 1, y + 1, z + 1)), xf, yf, zf)
         == p.At(x as real + xf) * q.At(y as real + yf) * r.At(z as real + zf)
  {
    hide Lerp, Blend, Separable;
    forall i, j, k
      ensures f(i, j, k) == Product(p.At(i as real), q.At(j as real), r.At(k as real))
    {
      SeparableAt(f, p, q, r, i, j, k);
    }
    LerpAffine(p, x, xf);
    LerpAffine(q, y, yf);
    LerpAffine(r, z, zf);
    ProductBlend(p.At(x as real), p.At((x + 1) as real), q.At(y as real), q.At((y + 1) as real),
                 r.At(z as real), r.At((z + 1) as real), xf, yf, zf);
  }

  lemma SeparableCell(f: (int, int, int) -> real, p: Affine, q: Affine, r: Affine, g: Grid, s: nat,
                      dx: int, dy: int, dz: int)
    requires Separable(f, p, q, r)
    ensures CellValue(f, g, s, dx, dy, dz) ==
      p.At(SampleAxis(g.xStart, dx, Pow2(s))) * q.At(SampleAxis(g.yStart, dy, Pow2(s))) *
      r.At(SampleAxis(g.zStart, dz, Pow2(s)))
  {
    hide Blend, Weight, SampleAxis, Block, Local, Shr, Separable;
    AxisPlace(g.xStart, dx, s);
    AxisPlace(g.yStart, dy, s);
    AxisPlace(g.zStart, dz, s);
    var x, y, z := Block(dx, g.xStart, s), Block(dy, g.yStart, s), Block(dz, g.zStart, s);
    SeparableBlend(f, p, q, r, Shr(g.xStart, s) + x, Shr(g.yStart, s) + y, Shr(g.zStart, s) + z,
                   Weight(Local(dx, g.xStart, s), s), Weight(Local(dy, g.yStart, s), s),
                   Weight(Local(dz, g.zStart, s), s));
  }

  // ----- decoding the lanes of the local counter -----

  function DecodeX(count: int, s: nat): int { And(Shr(count, s * 2), Pow2(s) - 1) }

  function DecodeY(count: int, s: nat): int { And(Shr(count, s), Pow2(s) - 1) }

  function DecodeZ(count: int, s: nat): int { And(count, Pow2(s) - 1) }

  lemma DecodeInRange(count: int, s: nat)
    ensures 0 <= DecodeX(count, s) < Pow2(s) && 0 <= DecodeY(count, s) < Pow2(s) && 0 <= DecodeZ(count, s) < Pow2(s)
  {
    MaskIsMod(Shr(count, s * 2), s);
    MaskIsMod(Shr(count, s), s);
    MaskIsMod(count, s);
  }

  lemma TwiceThrice(s: nat)
    ensures Pow2(s * 2) == Pow2(s) * Pow2(s) && Pow2(s * 3) == Pow2(s) * Pow2(s) * Pow2(s)
  {
    Pow2Add(s, s);
    Pow2Add(s * 2, s);
  }

  /** Every place of a block is decoded from one counter value below the size of the block. */
  lemma DecodePlace(xi: int, yi: int, zi: int, s: nat)
    requires 0 <= xi < Pow2(s) && 0 <= yi < Pow2(s) && 0 <= zi < Pow2(s)
    ensures var count := Cell(xi, yi, zi, Pow2(s), Pow2(s));
      && 0 <= count < Pow2(s * 3)
      && DecodeX(count, s) == xi && DecodeY(count, s) == yi && DecodeZ(count, s) == zi
  {
    var S := Pow2(s);
    var count := Cell(xi, yi, zi, S, S);
    CellInside(xi, yi, zi, S, S, S);
    CellCoordinates(xi, yi, zi, S, S);
    TwiceThrice(s);
    MaskIsMod(Shr(count, s * 2), s);
    MaskIsMod(Shr(count, s), s);
    MaskIsMod(count, s);
    DivTwice(count, S, S);
    DivUnique(xi, S, 0, xi);
  }

  lemma DivTwice(a: int, p: nat, q: nat)
    requires p > 0 && q > 0
    ensures p * q > 0 && a / (p * q) == a / p / q
  {
    MulMonotone(p, 1, q);
    var b := a / p;
    var r, t := a % p, b % q;
    Regroup(p, q, b / q, t);
    MulMonotone(p, t + 1, q);
    MulMonotone(p, 0, t);
    DivUnique(a, p * q, b / q, p * t + r);
  }

  lemma Regroup(p: int, q: int, c: int, t: int)
    ensures p * (q * c + t) == (p * q) * c + p * t
  {
  }

  function LocalIndex(g: Grid, s: nat, dx: int, dy: int, dz: int): int {
    Cell(Local(dx, g.xStart, s), Local(dy, g.yStart, s), Local(dz, g.zStart, s), Pow2(s), Pow2(s))
  }

  // ----- what a step of the walk does to the output -----

  /** Cells only ever change to the value they have to hold, and those of block (x, y, z) whose local
      counter lies in [lo, hi) do hold it. */
  ghost predicate Advanced(f: (int, int, int) -> real, g: Grid, s: nat, was: seq<real>, now: seq<real>,
                           x: int, y: int, z: int, lo: int, hi: int) {
    && |was| == |now| >= g.Total()
    && (forall c :: g.Total() <= c < |now| ==> now[c] == was[c])
    && forall dx, dy, dz {:trigger At(g, now, dx, dy, dz)} :: Inside(g, dx, dy, dz) ==>
      && (At(g, now, dx, dy, dz) == At(g, was, dx, dy, dz) || At(g, now, dx, dy, dz) == CellValue(f, g, s, dx, dy, dz))
      && (InBlock(g, s, dx, dy, dz, x, y, z) && lo <= LocalIndex(g, s, dx, dy, dz) < hi ==>
          At(g, now, dx, dy, dz) == CellValue(f, g, s, dx, dy, dz))
  }

  lemma AdvancedTrans(f: (int, int, int) -> real, g: Grid, s: nat, was: seq<real>, mid: seq<real>, now: seq<real>,
                      x: int, y: int, z: int, lo: int, m: int, hi: int)
    requires Advanced(f, g, s, was, mid, x, y, z, lo, m) && Advanced(f, g, s, mid, now, x, y, z, m, hi)
    ensures Advanced(f, g, s, was, now, x, y, z, lo, hi)
  {
    hide At, CellValue, InBlock, LocalIndex, Inside;
    forall dx, dy, dz | Inside(g, dx, dy, dz)
      ensures At(g, now, dx, dy, dz) == At(g, was, dx, dy, dz) ||
        At(g, now, dx, dy, dz) == CellValue(f, g, s, dx, dy, dz)
      ensures InBlock(g, s, dx, dy, dz, x, y, z) && lo <= LocalIndex(g, s, dx, dy, dz) < hi ==>
          At(g, now, dx, dy, dz) == CellValue(f, g, s, dx, dy, dz)
    {
      var v := At(g, mid, dx, dy, dz);
    }
  }

  lemma AdvancedNothing(f: (int, int, int) -> real, g: Grid, s: nat, was: seq<real>, x: int, y: int, z: int, lo: int)
    requires |was| >= g.Total()
    ensures Advanced(f, g, s, was, was, x, y, z, lo, lo)
  {
  }

  /** Writing the value of a decoded place to its cell is a step, also for counters past the block. */
  lemma AdvancedWrite(f: (int, int, int) -> real, g: Grid, s: nat, was: seq<real>, x: int, y: int, z: int, count: int,
                      dx: int, dy: int, dz: int, v: real)
    requires |was| >= g.Total()
    requires dx == Pow2(s) * x + DecodeX(count, s) - Offset(g.xStart, s)
    requires dy == Pow2(s) * y + DecodeY(count, s) - Offset(g.yStart, s)
    requires dz == Pow2(s) * z + DecodeZ(count, s) - Offset(g.zStart, s)
    requires v == Blend(BlockCorners(f, g, s, x, y, z),
                        Weight(DecodeX(count, s), s), Weight(DecodeY(count, s), s), Weight(DecodeZ(count, s), s))
    ensures Inside(g, dx, dy, dz) ==> 0 <= Cell(dx, dy, dz, g.ySize, g.zSize) < g.Total()
    ensures Advanced(f, g, s, was,
      if Inside(g, dx, dy, dz) then was[Cell(dx, dy, dz, g.ySize, g.zSize) := v] else was, x, y, z, count, count + 1)
  {
    DecodeInRange(count, s);
    PlaceIsUnique(dx, g.xStart, s, x, DecodeX(count, s));
    PlaceIsUnique(dy, g.yStart, s, y, DecodeY(count, s));
    PlaceIsUnique(dz, g.zStart, s, z, DecodeZ(count, s));
    assert v == CellValue(f, g, s, dx, dy, dz);
    hide At, CellValue, Blend, BlockCorners, Weight;
    if Inside(g, dx, dy, dz) {
      CellInside(dx, dy, dz, g.xSize, g.ySize, g.zSize);
    }
    var now := if Inside(g, dx, dy, dz) then was[Cell(dx, dy, dz, g.ySize, g.zSize) := v] else was;
    forall ex, ey, ez | Inside(g, ex, ey, ez)
      ensures At(g, now, ex, ey, ez) == At(g, was, ex, ey, ez) ||
        At(g, now, ex, ey, ez) == CellValue(f, g, s, ex, ey, ez)
      ensures InBlock(g, s, ex, ey, ez, x, y, z) && count <= LocalIndex(g, s, ex, ey, ez) < count + 1 ==>
          At(g, now, ex, ey, ez) == CellValue(f, g, s, ex, ey, ez)
    {
      if InBlock(g, s, ex, ey, ez, x, y, z) && LocalIndex(g, s, ex, ey, ez) == count {
        SameCell(g, s, ex, ey, ez, x, y, z);
      }
      if Inside(g, dx, dy, dz) {
        AtUpdate(g, was, dx, dy, dz, v, ex, ey, ez);
      }
    }
  }

  /** A cell is where the decoded place of its own counter says. */
  lemma SameCell(g: Grid, s: nat, ex: int, ey: int, ez: int, x: int, y: int, z: int)
    requires Inside(g, ex, ey, ez) && InBlock(g, s, ex, ey, ez, x, y, z)
    ensures var count := LocalIndex(g, s, ex, ey, ez);
      && 0 <= count < Pow2(s * 3)
      && ex == Pow2(s) * x + DecodeX(count, s) - Offset(g.xStart, s)
      && ey == Pow2(s) * y + DecodeY(count, s) - Offset(g.yStart, s)
      && ez == Pow2(s) * z + DecodeZ(count, s) - Offset(g.zStart, s)
  {
    AxisCovered(ex, g.xSize, g.xStart, s);
    AxisCovered(ey, g.ySize, g.yStart, s);
    AxisCovered(ez, g.zSize, g.zStart, s);
    DecodePlace(Local(ex, g.xStart, s), Local(ey, g.yStart, s), Local(ez, g.zStart, s), s);
  }

  // ----- the walk over one block -----

  /** Writes the lanes that fall inside the output. */
  method StoreInside(f: (int, int, int) -> real, g: Grid, s: nat, noiseSet: array<real>, result: seq<real>,
                     xi: Vec, yi: Vec, zi: Vec, ghost x: int, ghost y: int, ghost z: int, ghost count: int)
    requires noiseSet.Length >= g.Total() && |result| == |xi| == |yi| == |zi|
    requires forall l :: 0 <= l < |xi| ==>
      && xi[l] == Pow2(s) * x + DecodeX(count + l, s) - Offset(g.xStart, s)
      && yi[l] == Pow2(s) * y + DecodeY(count + l, s) - Offset(g.yStart, s)
      && zi[l] == Pow2(s) * z + DecodeZ(count + l, s) - Offset(g.zStart, s)
      && result[l] == Blend(BlockCorners(f, g, s, x, y, z), Weight(DecodeX(count + l, s), s),
                            Weight(DecodeY(count + l, s), s), Weight(DecodeZ(count + l, s), s))
    modifies noiseSet
    ensures Advanced(f, g, s, old(noiseSet[..]), noiseSet[..], x, y, z, count, count + |xi|)
  {
    hide Advanced, Blend, BlockCorners, Weight, DecodeX, DecodeY, DecodeZ, Offset, Cell;
    ghost var was := noiseSet[..];
    AdvancedNothing(f, g, s, was, x, y, z, count);
    for l := 0 to |xi|
      invariant Advanced(f, g, s, was, noiseSet[..], x, y, z, count, count + l)
    {
      ghost var mid := noiseSet[..];
      AdvancedWrite(f, g, s, mid, x, y, z, count + l, xi[l], yi[l], zi[l], result[l]);
      if 0 <= xi[l] < g.xSize && 0 <= yi[l] < g.ySize && 0 <= zi[l] < g.zSize {
        var index := Cell(xi[l], yi[l], zi[l], g.ySize, g.zSize);
        noiseSet[index] := result[l];
        assert noiseSet[..] == mid[index := result[l]];
      }
      AdvancedTrans(f, g, s, was, mid, noiseSet[..], x, y, z, count, count + l, count + l + 1);
    }
  }

  function AndVec(a: Vec, m: nat): (r: Vec)
    ensures |r| == |a| && forall l :: 0 <= l < |a| ==> r[l] == And(a[l], m)
  {
    seq(|a|, l requires 0 <= l < |a| => And(a[l], m))
  }

  function ShrVec(a: Vec, n: nat): (r: Vec)
    ensures |r| == |a| && forall l :: 0 <= l < |a| ==> r[l] == Shr(a[l], n)
  {
    seq(|a|, l requires 0 <= l < |a| => Shr(a[l], n))
  }

  function WeightVec(a: Vec, s: nat): (r: seq<real>)
    ensures |r| == |a| && forall l :: 0 <= l < |a| ==> r[l] == Weight(a[l], s)
  {
    seq(|a|, l requires 0 <= l < |a| => Weight(a[l], s))
  }

  function BlendVec(c: Corners, xf: seq<real>, yf: seq<real>, zf: seq<real>): (r: seq<real>)
    requires |xf| == |yf| == |zf|
    ensures |r| == |xf| && forall l :: 0 <= l < |xf| ==> r[l] == Blend(c, xf[l], yf[l], zf[l])
  {
    seq(|xf|, l requires 0 <= l < |xf| => Blend(c, xf[l], yf[l], zf[l]))
  }

  /** All output cells of one block, `V` local counters at a time. */
  method FillBlock(f: (int, int, int) -> real, g: Grid, s: nat, V: nat, noiseSet: array<real>, c: Corners,
                   xSIMD: int, ySIMD: int, zSIMD: int, ghost x: int, ghost y: int, ghost z: int)
    requires V > 0 && noiseSet.Length >= g.Total() && c == BlockCorners(f, g, s, x, y, z)
    requires xSIMD == Pow2(s) * x - Offset(g.xStart, s)
    requires ySIMD == Pow2(s) * y - Offset(g.yStart, s)
    requires zSIMD == Pow2(s) * z - Offset(g.zStart, s)
    modifies noiseSet
    ensures Advanced(f, g, s, old(noiseSet[..]), noiseSet[..], x, y, z, 0, Pow2(s * 3))
  {
    hide Advanced, Blend, BlockCorners, Weight, Offset, And, Shr;
    ghost var was := noiseSet[..];
    AdvancedNothing(f, g, s, was, x, y, z, 0);
    var axisMask := Pow2(s) - 1;
    var localCountMax := Pow2(s * 3);
    var localCountSIMD := Incremental(V);
    var localCount := 0;
    while localCount < localCountMax
      invariant |localCountSIMD| == V && forall l :: 0 <= l < V ==> localCountSIMD[l] == localCount + l
      invariant Advanced(f, g, s, was, noiseSet[..], x, y, z, 0, localCount)
    {
      ghost var mid := noiseSet[..];
      var xi := AndVec(ShrVec(localCountSIMD, s * 2), axisMask);
      var yi := AndVec(ShrVec(localCountSIMD, s), axisMask);
      var zi := AndVec(localCountSIMD, axisMask);
      var sampledResults := BlendVec(c, WeightVec(xi, s), WeightVec(yi, s), WeightVec(zi, s));
      xi := Add(xi, Splat(V, xSIMD));
      yi := Add(yi, Splat(V, ySIMD));
      zi := Add(zi, Splat(V, zSIMD));
      StoreInside(f, g, s, noiseSet, sampledResults, xi, yi, zi, x, y, z, localCount);
      AdvancedTrans(f, g, s, was, mid, noiseSet[..], x, y, z, 0, localCount, localCount + V);
      localCount := localCount + V;
      localCountSIMD := Add(localCountSIMD, Splat(V, V));
    }
    AdvancedShorter(f, g, s, was, noiseSet[..], x, y, z, localCount);
  }

  lemma AdvancedShorter(f: (int, int, int) -> real, g: Grid, s: nat, was: seq<real>, now: seq<real>,
                        x: int, y: int, z: int, hi: int)
    requires Advanced(f, g, s, was, now, x, y, z, 0, hi) && hi >= Pow2(s * 3)
    ensures Advanced(f, g, s, was, now, x, y, z, 0, Pow2(s * 3))
  {
  }

  // ----- the walk over the blocks -----

  /** All cells of blocks before (x, y, z), in the order of the walk, hold their value. */
  ghost predicate Done(f: (int, int, int) -> real, g: Grid, s: nat, was: seq<real>, now: seq<real>,
                       x: int, y: int, z: int) {
    && |was| == |now| >= g.Total()
    && (forall c :: g.Total() <= c < |now| ==> now[c] == was[c])
    && forall dx, dy, dz {:trigger At(g, now, dx, dy, dz)} ::
      Inside(g, dx, dy, dz) && Before(g, s, dx, dy, dz, x, y, z) ==>
        At(g, now, dx, dy, dz) == CellValue(f, g, s, dx, dy, dz)
  }

  ghost predicate Before(g: Grid, s: nat, dx: int, dy: int, dz: int, x: int, y: int, z: int) {
    var bx, b2, b3 := Block(dx, g.xStart, s), Block(dy, g.yStart, s), Block(dz, g.zStart, s);
    bx < x || (bx == x && (b2 < y || (b2 == y && b3 < z)))
  }

  lemma DoneBlock(f: (int, int, int) -> real, g: Grid, s: nat, was: seq<real>, mid: seq<real>, now: seq<real>,
                  x: int, y: int, z: int)
    requires Done(f, g, s, was, mid, x, y, z) && Advanced(f, g, s, mid, now, x, y, z, 0, Pow2(s * 3))
    ensures Done(f, g, s, was, now, x, y, z + 1)
  {
    hide At, CellValue, LocalIndex, Inside, Block;
    forall dx, dy, dz | Inside(g, dx, dy, dz) && Before(g, s, dx, dy, dz, x, y, z + 1)
      ensures At(g, now, dx, dy, dz) == CellValue(f, g, s, dx, dy, dz)
    {
      var v := At(g, mid, dx, dy, dz);
      if !Before(g, s, dx, dy, dz, x, y, z) {
        SameCell(g, s, dx, dy, dz, x, y, z);
      }
    }
  }

  lemma DoneRow(f: (int, int, int) -> real, g: Grid, s: nat, was: seq<real>, now: seq<real>, x: int, y: int)
    requires Done(f, g, s, was, now, x, y, SampleCount(g.zSize, g.zStart, s) - 1)
    ensures Done(f, g, s, was, now, x, y + 1, 0)
  {
    hide At, CellValue, SampleCount, Block;
    forall dx, dy, dz | Inside(g, dx, dy, dz) && Before(g, s, dx, dy, dz, x, y + 1, 0)
      ensures At(g, now, dx, dy, dz) == CellValue(f, g, s, dx, dy, dz)
    {
      AxisCovered(dz, g.zSize, g.zStart, s);
    }
  }

  lemma DonePlane(f: (int, int, int) -> real, g: Grid, s: nat, was: seq<real>, now: seq<real>, x: int)
    requires Done(f, g, s, was, now, x, SampleCount(g.ySize, g.yStart, s) - 1, 0)
    ensures Done(f, g, s, was, now, x + 1, 0, 0)
  {
    hide At, CellValue, SampleCount, Block;
    forall dx, dy, dz | Inside(g, dx, dy, dz) && Before(g, s, dx, dy, dz, x + 1, 0, 0)
      ensures At(g, now, dx, dy, dz) == CellValue(f, g, s, dx, dy, dz)
    {
      AxisCovered(dy, g.ySize, g.yStart, s);
      AxisCovered(dz, g.zSize, g.zStart, s);
    }
  }

  /** The grid of samples: one more than there are blocks along every axis. */
  function SampleGrid(g: Grid, s: nat): (r: Grid)
    requires g.Valid()
    ensures r.Valid()
    ensures r.xSize == SampleCount(g.xSize, g.xStart, s) >= 1
    ensures r.ySize == SampleCount(g.ySize, g.yStart, s) >= 1
    ensures r.zSize == SampleCount(g.zSize, g.zStart, s) >= 1
  {
    AxisCovered(0, g.xSize, g.xStart, s);
    AxisCovered(0, g.ySize, g.yStart, s);
    AxisCovered(0, g.zSize, g.zStart, s);
    Grid(Shr(g.xStart, s), Shr(g.yStart, s), Shr(g.zStart, s), SampleCount(g.xSize, g.xStart, s),
         SampleCount(g.ySize, g.yStart, s), SampleCount(g.zSize, g.zStart, s))
  }

  ghost predicate Sampled(f: (int, int, int) -> real, g: Grid, s: nat, q: Grid, samples: seq<real>) {
    forall x: nat, y: nat, z: nat :: x < q.xSize && y < q.ySize && z < q.zSize ==>
      0 <= Cell(x, y, z, q.ySize, q.zSize) < |samples| &&
      samples[Cell(x, y, z, q.ySize, q.zSize)] == Sample(f, g, s, x, y, z)
  }

  /** The row of blocks (x, y): four corner samples move on from block to block in registers. */
  method FillRowOfBlocks(f: (int, int, int) -> real, g: Grid, s: nat, V: nat, noiseSet: array<real>, q: Grid,
                         samples: array<real>, x: nat, y: nat, xSIMD: int, ySIMD: int, ghost was: seq<real>)
    requires V > 0 && g.Valid() && q == SampleGrid(g, s) && noiseSet != samples
    requires Sampled(f, g, s, q, samples[..])
    requires x < q.xSize - 1 && y < q.ySize - 1 && noiseSet.Length >= g.Total()
    requires xSIMD == Pow2(s) * x - Offset(g.xStart, s) && ySIMD == Pow2(s) * y - Offset(g.yStart, s)
    requires Done(f, g, s, was, noiseSet[..], x, y, 0)
    modifies noiseSet
    ensures Done(f, g, s, was, noiseSet[..], x, y + 1, 0)
  {
    hide Advanced, Done, Offset, SampleCount, Sample, Cell, SampleGrid;
    var c001 := samples[Cell(x, y, 0, q.ySize, q.zSize)];
    var c101 := samples[Cell(x + 1, y, 0, q.ySize, q.zSize)];
    var c011 := samples[Cell(x, y + 1, 0, q.ySize, q.zSize)];
    var c111 := samples[Cell(x + 1, y + 1, 0, q.ySize, q.zSize)];
    var zSIMD := -Offset(g.zStart, s);
    for z := 0 to q.zSize - 1
      invariant c001 == Sample(f, g, s, x, y, z) && c101 == Sample(f, g, s, x + 1, y, z)
      invariant c011 == Sample(f, g, s, x, y + 1, z) && c111 == Sample(f, g, s, x + 1, y + 1, z)
      invariant zSIMD == Pow2(s) * z - Offset(g.zStart, s)
      invariant samples[..] == old(samples[..])
      invariant Done(f, g, s, was, noiseSet[..], x, y, z)
    {
      var c000, c100, c010, c110 := c001, c101, c011, c111;
      c001 := samples[Cell(x, y, z + 1, q.ySize, q.zSize)];
      c101 := samples[Cell(x + 1, y, z + 1, q.ySize, q.zSize)];
      c011 := samples[Cell(x, y + 1, z + 1, q.ySize, q.zSize)];
      c111 := samples[Cell(x + 1, y + 1, z + 1, q.ySize, q.zSize)];
      ghost var mid := noiseSet[..];
      FillBlock(f, g, s, V, noiseSet, Corners(c000, c100, c010, c110, c001, c101, c011, c111), xSIMD, ySIMD, zSIMD,
                x, y, z);
      DoneBlock(f, g, s, was, mid, noiseSet[..], x, y, z);
      zSIMD := zSIMD + Pow2(s);
    }
    DoneRow(f, g, s, was, noiseSet[..], x, y);
  }

  method FillBlocks(f: (int, int, int) -> real, g: Grid, s: nat, V: nat, noiseSet: array<real>, q: Grid,
                    samples: array<real>, ghost was: seq<real>)
    requires V > 0 && g.Valid() && q == SampleGrid(g, s) && noiseSet != samples
    requires Sampled(f, g, s, q, samples[..])
    requires noiseSet.Length >= g.Total() && was == noiseSet[..]
    modifies noiseSet
    ensures Done(f, g, s, was, noiseSet[..], q.xSize - 1, 0, 0)
  {
    hide Offset, SampleCount, Sampled, Cell, SampleGrid;
    var xSIMD := -Offset(g.xStart, s);
    DoneNothing(f, g, s, was);
    for x := 0 to q.xSize - 1
      invariant xSIMD == Pow2(s) * x - Offset(g.xStart, s)
      invariant samples[..] == old(samples[..])
      invariant Done(f, g, s, was, noiseSet[..], x, 0, 0)
    {
      hide Done;
      var ySIMD := -Offset(g.yStart, s);
      for y := 0 to q.ySize - 1
        invariant ySIMD == Pow2(s) * y - Offset(g.yStart, s)
        invariant samples[..] == old(samples[..])
        invariant Done(f, g, s, was, noiseSet[..], x, y, 0)
      {
        FillRowOfBlocks(f, g, s, V, noiseSet, q, samples, x, y, xSIMD, ySIMD, was);
        ySIMD := ySIMD + Pow2(s);
      }
      DonePlane(f, g, s, was, noiseSet[..], x);
      xSIMD := xSIMD + Pow2(s);
    }
  }

  lemma DoneNothing(f: (int, int, int) -> real, g: Grid, s: nat, was: seq<real>)
    requires g.Valid() && |was| >= g.Total()
    ensures Done(f, g, s, was, was, 0, 0, 0)
  {
    hide At, CellValue, Block;
    forall dx, dy, dz | Inside(g, dx, dy, dz)
      ensures !Before(g, s, dx, dy, dz, 0, 0, 0)
    {
      AxisCovered(dx, g.xSize, g.xStart, s);
      AxisCovered(dy, g.ySize, g.yStart, s);
      AxisCovered(dz, g.zSize, g.zStart, s);
    }
  }

  lemma DoneAll(f: (int, int, int) -> real, g: Grid, s: nat, was: seq<real>, now: seq<real>)
    requires Done(f, g, s, was, now, SampleCount(g.xSize, g.xStart, s) - 1, 0, 0)
    ensures forall dx, dy, dz {:trigger At(g, now, dx, dy, dz)} :: Inside(g, dx, dy, dz) ==>
      At(g, now, dx, dy, dz) == CellValue(f, g, s, dx, dy, dz)
  {
    hide At, CellValue, SampleCount, Block;
    forall dx, dy, dz | Inside(g, dx, dy, dz)
      ensures Before(g, s, dx, dy, dz, SampleCount(g.xSize, g.xStart, s) - 1, 0, 0)
    {
      AxisCovered(dx, g.xSize, g.xStart, s);
    }
  }

  /** Fills a set with blended samples: `f` is the noise at the scaled-up frequency.  Every cell of the
      output ends as the blend of the eight samples around it; nothing past the set is written. */
  method FillSampledNoiseSet(f: (int, int, int) -> real, fine: (int, int, int) -> real, g: Grid, sampleScale: int,
                             n: nat, alignedSets: bool, noiseSet: array<real>)
    requires g.Valid() && AlignedSize(g.Total(), n, alignedSets) <= noiseSet.Length
    modifies noiseSet
    ensures noiseSet.Length >= g.Total()
    ensures forall dx, dy, dz {:trigger At(g, noiseSet[..], dx, dy, dz)} :: Inside(g, dx, dy, dz) ==>
      At(g, noiseSet[..], dx, dy, dz) == if sampleScale <= 0 then fine(g.xStart + dx, g.yStart + dy, g.zStart + dz)
                                         else CellValue(f, g, sampleScale, dx, dy, dz)
    ensures sampleScale > 0 ==> Reproduced(f, g, Pow2(sampleScale), noiseSet[..])
    ensures forall c :: 0 <= c < noiseSet.Length && AlignedSize(g.Total(), n, alignedSets) <= c ==>
      noiseSet[c] == old(noiseSet[c])
  {
    hide CellValue, SampleGrid, Done, Cell, Reproduced;
    AlignedNotBelow(g.Total(), n, alignedSets);
    if sampleScale <= 0 {
      FillSet(fine, g, n, alignedSets, noiseSet);
      return;
    }
    var s := sampleScale;
    var q := SampleGrid(g, s);
    AlignedNotBelow(q.Total(), n, alignedSets);
    var noiseSetSample := new real[AlignedSize(q.Total(), n, alignedSets)];
    FillSet(f, q, n, alignedSets, noiseSetSample);
    ghost var was := noiseSet[..];
    SampleGridStarts(f, g, s, q);
    FillBlocks(f, g, s, Pow2(n), noiseSet, q, noiseSetSample, was);
    DoneAll(f, g, s, was, noiseSet[..]);
    DoneKeeps(f, g, s, was, noiseSet[..], q.xSize - 1, 0, 0);
    SeparableCells(f, g, s, noiseSet[..]);
  }

  /** Noise that is a product of affine functions comes out as that product, each function at its own axis. */
  ghost predicate Reproduced(f: (int, int, int) -> real, g: Grid, S: nat, cells: seq<real>)
    requires |cells| >= g.Total() && S > 0
  {
    forall p, q, r, dx, dy, dz {:trigger Separable(f, p, q, r), At(g, cells, dx, dy, dz)} ::
      Separable(f, p, q, r) && Inside(g, dx, dy, dz) ==>
        At(g, cells, dx, dy, dz) ==
          p.At(SampleAxis(g.xStart, dx, S)) * q.At(SampleAxis(g.yStart, dy, S)) * r.At(SampleAxis(g.zStart, dz, S))
  }

  lemma SeparableCells(f: (int, int, int) -> real, g: Grid, s: nat, cells: seq<real>)
    requires |cells| >= g.Total()
    requires forall dx, dy, dz {:trigger At(g, cells, dx, dy, dz)} :: Inside(g, dx, dy, dz) ==>
      At(g, cells, dx, dy, dz) == CellValue(f, g, s, dx, dy, dz)
    ensures Reproduced(f, g, Pow2(s), cells)
  {
    hide At, CellValue, SampleAxis, Separable;
    forall p, q, r, dx, dy, dz | Separable(f, p, q, r) && Inside(g, dx, dy, dz)
      ensures At(g, cells, dx, dy, dz) == p.At(SampleAxis(g.xStart, dx, Pow2(s))) *
        q.At(SampleAxis(g.yStart, dy, Pow2(s))) * r.At(SampleAxis(g.zStart, dz, Pow2(s)))
    {
      SeparableCell(f, p, q, r, g, s, dx, dy, dz);
    }
  }

  lemma SampleGridStarts(f: (int, int, int) -> real, g: Grid, s: nat, q: Grid)
    requires g.Valid() && q == SampleGrid(g, s)
    ensures forall x, y, z :: Sample(f, g, s, x, y, z) == f(q.xStart + x, q.yStart + y, q.zStart + z)
  {
  }

  lemma DoneKeeps(f: (int, int, int) -> real, g: Grid, s: nat, was: seq<real>, now: seq<real>, x: int, y: int, z: int)
    requires Done(f, g, s, was, now, x, y, z)
    ensures |was| == |now| && forall c :: g.Total() <= c < |now| ==> now[c] == was[c]
  {
  }
}
