/** Scalar noise, with real numbers for the floating-point ones.  A lattice is any function from integer
    points to values; permutation table and lookup tables only pick its values. */
module FastNoise {

  function Trunc(f: real): int { if f >= 0.0 then f.Floor else -((-f).Floor) }

  function FastFloor(f: real): int { if f >= 0.0 then Trunc(f) else Trunc(f) - 1 }

  function Lerp(a: real, b: real, t: real): real { a + t * (b - a) }

  function InterpHermiteFunc(t: real): real { t * t * (3.0 - 2.0 * t) }

  function InterpQuinticFunc(t: real): real { t * t * t * (t * (t * 6.0 - 15.0) + 10.0) }

  function CubicLerp(a: real, b: real, c: real, d: real, t: real): real {
    var p := (d - c) - (a - b);
    t * t * t * p + t * t * ((a - b) - p) + t * (c - a) + b
  }

  datatype Interp = Linear | Hermite | Quintic

  function Smooth(interp: Interp, t: real): real {
    match interp
    case Linear => t
    case Hermite => InterpHermiteFunc(t)
    case Quintic => InterpQuinticFunc(t)
  }

  type Lattice = (int, int, int) -> real

  /** The blend of the eight lattice values around a cell. */
  function ValueIn(v: Lattice, x0: int, y0: int, z0: int, xs: real, ys: real, zs: real): real {
    var x1, y1, z1 := x0 + 1, y0 + 1, z0 + 1;
    var xf00 := Lerp(v(x0, y0, z0), v(x1, y0, z0), xs);
    var xf10 := Lerp(v(x0, y1, z0), v(x1, y1, z0), xs);
    var xf01 := Lerp(v(x0, y0, z1), v(x1, y0, z1), xs);
    var xf11 := Lerp(v(x0, y1, z1), v(x1, y1, z1), xs);
    Lerp(Lerp(xf00, xf10, ys), Lerp(xf01, xf11, ys), zs)
  }

  function SingleValue(v: Lattice, interp: Interp, x: real, y: real, z: real): real {
    var x0, y0, z0 := FastFloor(x), FastFloor(y), FastFloor(z);
    ValueIn(v, x0, y0, z0, Smooth(interp, x - x0 as real), Smooth(interp, y - y0 as real),
            Smooth(interp, z - z0 as real))
  }

  // ----- ranges -----

  /** `FastFloor` is the floor, except that it is one less on negative integers. */
  lemma FastFloorIs(f: real)
    ensures FastFloor(f) == if f < 0.0 && f == f.Floor as real then f.Floor - 1 else f.Floor
    ensures 0.0 <= f - FastFloor(f) as real <= 1.0
  {
  }

  lemma MulNonNegative(a: real, b: real)
    requires a >= 0.0 && b >= 0.0
    ensures a * b >= 0.0
  {
  }

  lemma LerpBetween(a: real, b: real, t: real, lo: real, hi: real)
    requires lo <= a <= hi && lo <= b <= hi && 0.0 <= t <= 1.0
    ensures lo <= Lerp(a, b, t) <= hi
  {
    MulNonNegative(1.0 - t, a - lo);
    MulNonNegative(t, b - lo);
    MulNonNegative(1.0 - t, hi - a);
    MulNonNegative(t, hi - b);
    assert (1.0 - t) * (a - lo) + t * (b - lo) == Lerp(a, b, t) - lo;
    assert (1.0 - t) * (hi - a) + t * (hi - b) == hi - Lerp(a, b, t);
  }

  lemma HermiteInUnit(t: real)
    requires 0.0 <= t <= 1.0
    ensures 0.0 <= InterpHermiteFunc(t) <= 1.0
  {
    var u := 1.0 - t;
    MulNonNegative(t, t);
    MulNonNegative(t * t, 3.0 - 2.0 * t);
    MulNonNegative(u, u);
    MulNonNegative(u * u, 1.0 + 2.0 * t);
    assert (u * u) * (1.0 + 2.0 * t) == 1.0 - InterpHermiteFunc(t);
  }

  lemma QuinticInUnit(t: real)
    requires 0.0 <= t <= 1.0
    ensures 0.0 <= InterpQuinticFunc(t) <= 1.0
  {
    var u := 1.0 - t;
    var e := t - 1.25;
    assert t * (t * 6.0 - 15.0) + 10.0 == 6.0 * (e * e) + 0.625;
    MulNonNegative(t, t);
    MulNonNegative(t * t, t);
    MulNonNegative(t * t * t, t * (t * 6.0 - 15.0) + 10.0);
    MulNonNegative(u, u);
    MulNonNegative(u * u, u);
    MulNonNegative(u * u * u, 6.0 * (t * t) + 3.0 * t + 1.0);
    assert (u * u * u) * (6.0 * (t * t) + 3.0 * t + 1.0) == 1.0 - InterpQuinticFunc(t);
  }

  lemma SmoothInUnit(interp: Interp, t: real)
    requires 0.0 <= t <= 1.0
    ensures 0.0 <= Smooth(interp, t) <= 1.0
  {
    HermiteInUnit(t);
    QuinticInUnit(t);
  }

  ghost predicate Within(v: Lattice, lo: real, hi: real) {
    forall x, y, z :: lo <= v(x, y, z) <= hi
  }

  /** Value noise never leaves the range of its lattice values. */
  lemma SingleValueBetween(v: Lattice, interp: Interp, x: real, y: real, z: real, lo: real, hi: real)
    requires Within(v, lo, hi)
    ensures lo <= SingleValue(v, interp, x, y, z) <= hi
  {
    var x0, y0, z0 := FastFloor(x), FastFloor(y), FastFloor(z);
    FastFloorIs(x);
    FastFloorIs(y);
    FastFloorIs(z);
    var xs, ys, zs := Smooth(interp, x - x0 as real), Smooth(interp, y - y0 as real), Smooth(interp, z - z0 as real);
    SmoothInUnit(interp, x - x0 as real);
    SmoothInUnit(interp, y - y0 as real);
    SmoothInUnit(interp, z - z0 as real);
    ValueInBetween(v, x0, y0, z0, xs, ys, zs, lo, hi);
  }

  lemma ValueInBetween(v: Lattice, x0: int, y0: int, z0: int, xs: real, ys: real, zs: real, lo: real, hi: real)
    requires Within(v, lo, hi) && 0.0 <= xs <= 1.0 && 0.0 <= ys <= 1.0 && 0.0 <= zs <= 1.0
    ensures lo <= ValueIn(v, x0, y0, z0, xs, ys, zs) <= hi
  {
    hide Lerp;
    var x1, y1, z1 := x0 + 1, y0 + 1, z0 + 1;
    LerpBetween(v(x0, y0, z0), v(x1, y0, z0), xs, lo, hi);
    LerpBetween(v(x0, y1, z0), v(x1, y1, z0), xs, lo, hi);
    LerpBetween(v(x0, y0, z1), v(x1, y0, z1), xs, lo, hi);
    LerpBetween(v(x0, y1, z1), v(x1, y1, z1), xs, lo, hi);
    var xf00 := Lerp(v(x0, y0, z0), v(x1, y0, z0), xs);
    var xf10 := Lerp(v(x0, y1, z0), v(x1, y1, z0), xs);
    var xf01 := Lerp(v(x0, y0, z1), v(x1, y0, z1), xs);
    var xf11 := Lerp(v(x0, y1, z1), v(x1, y1, z1), xs);
    LerpBetween(xf00, xf10, ys, lo, hi);
    LerpBetween(xf01, xf11, ys, lo, hi);
    LerpBetween(Lerp(xf00, xf10, ys), Lerp(xf01, xf11, ys), zs, lo, hi);
  }

  // ----- the odd floor does no harm -----

  lemma SmoothEnds(interp: Interp)
    ensures Smooth(interp, 0.0) == 0.0 && Smooth(interp, 1.0) == 1.0
  {
  }

  lemma LerpEnds(a: real, b: real)
    ensures Lerp(a, b, 0.0) == a && Lerp(a, b, 1.0) == b
  {
  }

  /** One cell further down with weight 1 is the same as this cell with weight 0, along every axis. */
  lemma ShiftX(v: Lattice, x0: int, y0: int, z0: int, ys: real, zs: real)
    ensures ValueIn(v, x0 - 1, y0, z0, 1.0, ys, zs) == ValueIn(v, x0, y0, z0, 0.0, ys, zs)
  {
    hide Lerp;
    forall y, z
      ensures Lerp(v(x0 - 1, y, z), v(x0, y, z), 1.0) == Lerp(v(x0, y, z), v(x0 + 1, y, z), 0.0)
    {
      LerpEnds(v(x0 - 1, y, z), v(x0, y, z));
      LerpEnds(v(x0, y, z), v(x0 + 1, y, z));
    }
  }

  lemma ShiftY(v: Lattice, x0: int, y0: int, z0: int, xs: real, zs: real)
    ensures ValueIn(v, x0, y0 - 1, z0, xs, 1.0, zs) == ValueIn(v, x0, y0, z0, xs, 0.0, zs)
  {
    hide Lerp;
    forall a, b
      ensures Lerp(a, b, 1.0) == b && Lerp(a, b, 0.0) == a
    {
      LerpEnds(a, b);
    }
  }

  lemma ShiftZ(v: Lattice, x0: int, y0: int, z0: int, xs: real, ys: real)
    ensures ValueIn(v, x0, y0, z0 - 1, xs, ys, 1.0) == ValueIn(v, x0, y0, z0, xs, ys, 0.0)
  {
    hide Lerp;
    forall a, b
      ensures Lerp(a, b, 1.0) == b && Lerp(a, b, 0.0) == a
    {
      LerpEnds(a, b);
    }
  }

  /** Value noise is what the true floor would give, at every point. */
  lemma SingleValueTrueFloor(v: Lattice, interp: Interp, x: real, y: real, z: real)
    ensures SingleValue(v, interp, x, y, z)
         == ValueIn(v, x.Floor, y.Floor, z.Floor, Smooth(interp, x - x.Floor as real),
                    Smooth(interp, y - y.Floor as real), Smooth(interp, z - z.Floor as real))
  {
    FastFloorIs(x);
    FastFloorIs(y);
    FastFloorIs(z);
    SmoothEnds(interp);
    hide FastFloor, ValueIn, Smooth;
    var ys, zs := Smooth(interp, y - FastFloor(y) as real), Smooth(interp, z - FastFloor(z) as real);
    var tx, ty := Smooth(interp, x - x.Floor as real), Smooth(interp, y - y.Floor as real);
    ShiftX(v, x.Floor, FastFloor(y), FastFloor(z), ys, zs);
    ShiftY(v, x.Floor, y.Floor, FastFloor(z), tx, zs);
    ShiftZ(v, x.Floor, y.Floor, z.Floor, tx, ty);
  }

  // ----- cubic noise -----

  function Abs(a: real): real { if a < 0.0 then -a else a }

  /** A product by name, so that the solver can be told not to look into it. */
  function Times(a: real, b: real): real { a * b }

  lemma WeightBound(w: real, a: real, m: real)
    requires Abs(a) <= m
    ensures Abs(Times(w, a)) <= Times(Abs(w), m)
  {
    MulNonNegative(Abs(w), m - Abs(a));
    assert Abs(w * a) == Abs(w) * Abs(a);
  }

  function Wa(t: real): real { -(t * ((1.0 - t) * (1.0 - t))) }
  function Wb(t: real): real { (1.0 - t) * (1.0 + t * (1.0 - t)) }
  function Wc(t: real): real { t * (1.0 + t * (1.0 - t)) }
  function Wd(t: real): real { -((1.0 - t) * (t * t)) }

  function Weighted(wa: real, wb: real, wc: real, wd: real, a: real, b: real, c: real, d: real): real {
    Times(wa, a) + Times(wb, b) + Times(wc, c) + Times(wd, d)
  }

  /** `CubicLerp` is a weighted sum. */
  lemma CubicExpanded(a: real, b: real, c: real, d: real, t: real)
    ensures CubicLerp(a, b, c, d, t) == Weighted(Wa(t), Wb(t), Wc(t), Wd(t), a, b, c, d)
  {
  }

  /** The two outer weights are never positive, the inner never negative; in absolute value they sum to
      1 + 2t(1 - t), which is at most 1.5. */
  lemma CubicWeights(t: real)
    requires 0.0 <= t <= 1.0
    ensures Wa(t) <= 0.0 && Wb(t) >= 0.0 && Wc(t) >= 0.0 && Wd(t) <= 0.0
    ensures Wb(t) + Wc(t) - Wa(t) - Wd(t) <= 1.5
  {
    var u := 1.0 - t;
    MulNonNegative(t, u);
    MulNonNegative(u, u);
    MulNonNegative(t, t);
    MulNonNegative(t, u * u);
    MulNonNegative(u, t * t);
    MulNonNegative(u, 1.0 + t * u);
    MulNonNegative(t, 1.0 + t * u);
    SquareNonNegative(t - 0.5);
  }

  lemma SquareNonNegative(e: real)
    ensures e * e >= 0.0
  {
  }

  /** One level of cubic interpolation enlarges the range by at most 1.5. */
  lemma CubicLerpBound(a: real, b: real, c: real, d: real, t: real, m: real)
    requires Abs(a) <= m && Abs(b) <= m && Abs(c) <= m && Abs(d) <= m && 0.0 <= t <= 1.0
    ensures Abs(CubicLerp(a, b, c, d, t)) <= 1.5 * m
  {
    CubicExpanded(a, b, c, d, t);
    CubicWeights(t);
    hide CubicLerp, Wa, Wb, Wc, Wd, Weighted;
    WeightedBound(Wa(t), Wb(t), Wc(t), Wd(t), a, b, c, d, m);
  }

  lemma WeightedBound(wa: real, wb: real, wc: real, wd: real, a: real, b: real, c: real, d: real, m: real)
    requires wa <= 0.0 && wb >= 0.0 && wc >= 0.0 && wd <= 0.0 && wb + wc - wa - wd <= 1.5
    requires Abs(a) <= m && Abs(b) <= m && Abs(c) <= m && Abs(d) <= m
    ensures Abs(Weighted(wa, wb, wc, wd, a, b, c, d)) <= 1.5 * m
  {
    hide Times;
    WeightBound(wa, a, m);
    WeightBound(wb, b, m);
    WeightBound(wc, c, m);
    WeightBound(wd, d, m);
    TotalWeight(-wa, wb, wc, -wd, m);
  }

  lemma TotalWeight(p: real, q: real, r: real, s: real, m: real)
    requires p + q + r + s <= 1.5 && m >= 0.0
    ensures Times(p, m) + Times(q, m) + Times(r, m) + Times(s, m) <= 1.5 * m
  {
    var w := p + q + r + s;
    assert p * m + q * m + r * m + s * m == w * m;
    MulNonNegative(1.5 - w, m);
    assert (1.5 - w) * m == 1.5 * m - w * m;
  }

  const CUBIC_3D_BOUNDING := 1.0 / (1.5 * 1.5 * 1.5)

  function CubicRow(v: Lattice, x1: int, y: int, z: int, xs: real): real {
    CubicLerp(v(x1 - 1, y, z), v(x1, y, z), v(x1 + 1, y, z), v(x1 + 2, y, z), xs)
  }

  function CubicPlane(v: Lattice, x1: int, y1: int, z: int, xs: real, ys: real): real {
    CubicLerp(CubicRow(v, x1, y1 - 1, z, xs), CubicRow(v, x1, y1, z, xs), CubicRow(v, x1, y1 + 1, z, xs),
              CubicRow(v, x1, y1 + 2, z, xs), ys)
  }

  function SingleCubic(v: Lattice, x: real, y: real, z: real): real {
    var x1, y1, z1 := FastFloor(x), FastFloor(y), FastFloor(z);
    var xs, ys, zs := x - x1 as real, y - y1 as real, z - z1 as real;
    CubicLerp(CubicPlane(v, x1, y1, z1 - 1, xs, ys), CubicPlane(v, x1, y1, z1, xs, ys),
              CubicPlane(v, x1, y1, z1 + 1, xs, ys), CubicPlane(v, x1, y1, z1 + 2, xs, ys), zs) * CUBIC_3D_BOUNDING
  }

  lemma CubicRowBound(v: Lattice, x1: int, y: int, z: int, xs: real)
    requires Within(v, -1.0, 1.0) && 0.0 <= xs <= 1.0
    ensures Abs(CubicRow(v, x1, y, z, xs)) <= 1.5
  {
    CubicLerpBound(v(x1 - 1, y, z), v(x1, y, z), v(x1 + 1, y, z), v(x1 + 2, y, z), xs, 1.0);
  }

  lemma CubicPlaneBound(v: Lattice, x1: int, y1: int, z: int, xs: real, ys: real)
    requires Within(v, -1.0, 1.0) && 0.0 <= xs <= 1.0 && 0.0 <= ys <= 1.0
    ensures Abs(CubicPlane(v, x1, y1, z, xs, ys)) <= 2.25
  {
    hide CubicLerp, CubicRow;
    CubicRowBound(v, x1, y1 - 1, z, xs);
    CubicRowBound(v, x1, y1, z, xs);
    CubicRowBound(v, x1, y1 + 1, z, xs);
    CubicRowBound(v, x1, y1 + 2, z, xs);
    CubicLerpBound(CubicRow(v, x1, y1 - 1, z, xs), CubicRow(v, x1, y1, z, xs), CubicRow(v, x1, y1 + 1, z, xs),
                   CubicRow(v, x1, y1 + 2, z, xs), ys, 1.5);
  }

  /** Cubic noise stays in [-1, 1]: the constant makes up for three nested levels. */
  lemma SingleCubicInUnit(v: Lattice, x: real, y: real, z: real)
    requires Within(v, -1.0, 1.0)
    ensures -1.0 <= SingleCubic(v, x, y, z) <= 1.0
  {
    FastFloorIs(x);
    FastFloorIs(y);
    FastFloorIs(z);
    hide CubicLerp, CubicPlane, FastFloor;
    var x1, y1, z1 := FastFloor(x), FastFloor(y), FastFloor(z);
    var xs, ys, zs := x - x1 as real, y - y1 as real, z - z1 as real;
    CubicPlaneBound(v, x1, y1, z1 - 1, xs, ys);
    CubicPlaneBound(v, x1, y1, z1, xs, ys);
    CubicPlaneBound(v, x1, y1, z1 + 1, xs, ys);
    CubicPlaneBound(v, x1, y1, z1 + 2, xs, ys);
    CubicLerpBound(CubicPlane(v, x1, y1, z1 - 1, xs, ys), CubicPlane(v, x1, y1, z1, xs, ys),
                   CubicPlane(v, x1, y1, z1 + 1, xs, ys), CubicPlane(v, x1, y1, z1 + 2, xs, ys), zs, 2.25);
  }

  predicate Inner(k: int) { k == 0 || k == 1 }

  /** Product of three signs, each positive on the two middle points of its axis. */
  function SignLattice(): Lattice {
    (x, y, z) => if Inner(x) == (Inner(y) == Inner(z)) then 1.0 else -1.0
  }

  function Signed(positive: bool, a: real): real { if positive then a else -a }

  /** ... and no larger constant would do: some lattice reaches 1 in the middle of a cell. */
  lemma SingleCubicReachesOne()
    ensures Within(SignLattice(), -1.0, 1.0) && SingleCubic(SignLattice(), 0.5, 0.5, 0.5) == 1.0
  {
    FloorOfHalf();
    hide CubicPlane, CubicLerp, FastFloor, CUBIC_3D_BOUNDING;
    PlaneOfSigns(-1);
    PlaneOfSigns(0);
    PlaneOfSigns(1);
    PlaneOfSigns(2);
    HalfCubic(2.25);
    BoundingCancels();
  }

  lemma FloorOfHalf()
    ensures FastFloor(0.5) == 0
  {
    assert 0.5.Floor == 0;
  }

  lemma BoundingCancels()
    ensures 3.375 * CUBIC_3D_BOUNDING == 1.0
  {
  }

  lemma RowOfSigns(y: int, z: int)
    ensures CubicRow(SignLattice(), 0, y, z, 0.5) == Signed(Inner(y) == Inner(z), 1.5)
  {
    hide CubicLerp;
    HalfCubic(Signed(Inner(y) == Inner(z), 1.0));
  }

  lemma PlaneOfSigns(z: int)
    ensures CubicPlane(SignLattice(), 0, 0, z, 0.5, 0.5) == Signed(Inner(z), 2.25)
  {
    hide CubicLerp, CubicRow;
    RowOfSigns(-1, z);
    RowOfSigns(0, z);
    RowOfSigns(1, z);
    RowOfSigns(2, z);
    HalfCubic(Signed(Inner(z), 1.5));
  }

  lemma HalfCubic(e: real)
    ensures CubicLerp(-e, e, e, -e, 0.5) == 1.5 * e
  {
  }

  // ----- fractal sums -----

  function Power(gain: real, i: nat): real {
    if i == 0 then 1.0 else Times(Power(gain, i - 1), gain)
  }

  /** Sum of the first `k` amplitudes. */
  function Amplitudes(gain: real, k: nat): real {
    if k == 0 then 0.0 else Amplitudes(gain, k - 1) + Power(gain, k - 1)
  }

  /** Sum of the first `k` octaves `n[i]`, each scaled by its amplitude. */
  function Octaves(n: seq<real>, gain: real, k: nat): real
    requires k <= |n|
  {
    if k == 0 then 0.0 else Octaves(n, gain, k - 1) + Times(n[k - 1], Power(gain, k - 1))
  }

  /** Octaves summed by both loops: at least one, whatever the setting. */
  function Count(octaves: int): (k: nat) { if octaves < 1 then 1 else octaves }

  /** The reciprocal of the sum of amplitudes; dividing by a zero sum gives infinity. */
  datatype Bounding = Finite(value: real) | Infinite

  method CalculateFractalBounding(octaves: int, gain: real) returns (bounding: Bounding)
    ensures bounding.Infinite? <==> Amplitudes(gain, Count(octaves)) == 0.0
    ensures bounding.Finite? ==> Times(bounding.value, Amplitudes(gain, Count(octaves))) == 1.0
  {
    var ampFractal := 1.0;
    var amp := gain;
    assert Power(gain, 0) == 1.0 && Power(gain, 1) == Times(Power(gain, 0), gain);
    assert Amplitudes(gain, 1) == Amplitudes(gain, 0) + Power(gain, 0);
    var i := 1;
    while i < octaves
      invariant 1 <= i <= Count(octaves)
      invariant amp == Power(gain, i) && ampFractal == Amplitudes(gain, i)
    {
      ampFractal := ampFractal + amp;
      amp := amp * gain;
      i := i + 1;
    }
    bounding := if ampFractal == 0.0 then Infinite else Finite(1.0 / ampFractal);
  }

  ghost predicate Unit(n: seq<real>) {
    forall i :: 0 <= i < |n| ==> -1.0 <= n[i] <= 1.0
  }

  lemma {:induction false} GainPowers(gain: real, i: nat)
    requires gain >= 0.0
    ensures Power(gain, i) >= 0.0
  {
    if i > 0 {
      GainPowers(gain, i - 1);
    }
  }

  lemma {:induction false} OctavesBound(n: seq<real>, gain: real, k: nat)
    requires k <= |n| && Unit(n) && gain >= 0.0
    ensures Abs(Octaves(n, gain, k)) <= Amplitudes(gain, k)
    ensures k >= 1 ==> Amplitudes(gain, k) >= 1.0
  {
    if k > 0 {
      OctavesBound(n, gain, k - 1);
      GainPowers(gain, k - 1);
      OctaveStep(n, gain, k - 1);
      hide Octaves, Amplitudes, Power, Times;
      UnitWeight(n[k - 1], Power(gain, k - 1));
      if k == 1 {
        OneOctave(n, gain);
      }
    } else {
      assert Octaves(n, gain, 0) == 0.0 && Amplitudes(gain, 0) == 0.0;
    }
  }

  lemma UnitWeight(w: real, p: real)
    requires -1.0 <= w <= 1.0 && p >= 0.0
    ensures Abs(Times(w, p)) <= p
  {
    MulNonNegative(1.0 - w, p);
    MulNonNegative(1.0 + w, p);
  }

  lemma OctaveStep(n: seq<real>, gain: real, i: nat)
    requires i < |n|
    ensures Octaves(n, gain, i + 1) == Octaves(n, gain, i) + Times(n[i], Power(gain, i))
    ensures Amplitudes(gain, i + 1) == Amplitudes(gain, i) + Power(gain, i)
    ensures i > 0 ==> Power(gain, i) == Times(Power(gain, i - 1), gain)
  {
  }

  lemma TimesOne(a: real)
    ensures Times(a, 1.0) == a
  {
  }

  lemma OneOctave(n: seq<real>, gain: real)
    requires |n| >= 1
    ensures Octaves(n, gain, 1) == n[0] && Amplitudes(gain, 1) == 1.0 && Power(gain, 0) == 1.0
  {
    assert Octaves(n, gain, 1) == Octaves(n, gain, 0) + Times(n[0], Power(gain, 0));
    assert Amplitudes(gain, 1) == Amplitudes(gain, 0) + Power(gain, 0);
  }

  function Signs(gain: real, k: nat): (n: seq<real>)
    ensures |n| == k
  {
    seq(k, i requires 0 <= i < k => if Power(gain, i) < 0.0 then -1.0 else 1.0)
  }

  /** With a negative gain and two octaves or more, octaves of matching signs sum to more than the
      normalising sum. */
  lemma {:induction false} SignsExceed(n: seq<real>, gain: real, k: nat)
    requires gain < 0.0 && k <= |n| && n == Signs(gain, |n|)
    ensures Abs(Amplitudes(gain, k)) <= Octaves(n, gain, k)
    ensures k >= 2 ==> Abs(Amplitudes(gain, k)) < Octaves(n, gain, k)
  {
    if k > 0 {
      SignsExceed(n, gain, k - 1);
      var p := Power(gain, k - 1);
      assert Times(n[k - 1], p) == Abs(p);
      if k == 2 {
        OneOctave(n, gain);
        assert Power(gain, 1) == Times(Power(gain, 0), gain);
      }
    }
  }

  lemma SumWithinAmplitudes(n: seq<real>, octaves: int, gain: real)
    requires |n| == Count(octaves) && Unit(n) && (gain >= 0.0 || octaves <= 1)
    ensures Amplitudes(gain, |n|) > 0.0 && Abs(Octaves(n, gain, |n|)) <= Amplitudes(gain, |n|)
  {
    hide Amplitudes, Octaves, Power, Times;
    if gain >= 0.0 {
      OctavesBound(n, gain, |n|);
    } else {
      OneOctave(n, gain);
    }
  }

  lemma QuotientInUnit(s: real, a: real)
    requires a > 0.0 && Abs(s) <= a
    ensures Abs(Times(s, 1.0 / a)) <= 1.0
  {
    assert Times(1.0 / a, a) == 1.0;
    ProductInUnit(s, a, 1.0 / a);
  }

  lemma ProductInUnit(s: real, a: real, r: real)
    requires a > 0.0 && Abs(s) <= a && Times(r, a) == 1.0
    ensures Abs(Times(s, r)) <= 1.0
  {
    if r < 0.0 {
      MulNonNegative(-r, a);
    }
    MulNonNegative(a - s, r);
    MulNonNegative(a + s, r);
    assert (a - s) * r == 1.0 - s * r && (a + s) * r == 1.0 + s * r;
  }

  lemma QuotientBeyondUnit(s: real, a: real)
    requires a != 0.0 && s > Abs(a)
    ensures Abs(Times(s, 1.0 / a)) > 1.0
  {
    var r := 1.0 / a;
    assert a * r == 1.0;
    if a > 0.0 {
      MulPositive(s - a, r);
      assert (s - a) * r == s * r - 1.0;
    } else {
      MulPositive(s + a, -r);
      assert (s + a) * -r == -(s * r) - 1.0;
    }
  }

  lemma MulPositive(a: real, b: real)
    requires a > 0.0 && b > 0.0
    ensures a * b > 0.0
  {
  }

  ghost predicate UnitFamily(v: int -> Lattice) {
    forall o :: Within(v(o), -1.0, 1.0)
  }

  lemma FamilyMember(v: int -> Lattice, o: int)
    requires UnitFamily(v)
    ensures Within(v(o), -1.0, 1.0)
  {
  }

  /** The noise of octave `i`: coordinates scaled `i` times, lattice picked by the permutation table. */
  function Octave(v: int -> Lattice, perm: seq<int>, interp: Interp, lacunarity: real, p: Point, i: nat): real
    requires i < |perm|
  {
    var s := Power(lacunarity, i);
    SingleValue(v(perm[i]), interp, Times(p.x, s), Times(p.y, s), Times(p.z, s))
  }

  function OctaveValues(v: int -> Lattice, perm: seq<int>, interp: Interp, lacunarity: real, p: Point, k: nat)
    : (n: seq<real>)
    requires k <= |perm|
    ensures |n| == k
  {
    seq(k, i requires 0 <= i < k => Octave(v, perm, interp, lacunarity, p, i))
  }

  datatype Point = Point(x: real, y: real, z: real)

  /** Value noise of all octaves, each at coordinates scaled once more, weighted by the amplitudes. */
  function Fbm(v: int -> Lattice, perm: seq<int>, interp: Interp, octaves: int, lacunarity: real, gain: real,
               bounding: real, p: Point): real
    requires Count(octaves) <= |perm|
  {
    var k := Count(octaves);
    Times(Octaves(OctaveValues(v, perm, interp, lacunarity, p, k), gain, k), bounding)
  }

  method SingleValueFractalFBM(v: int -> Lattice, perm: seq<int>, interp: Interp, octaves: int, lacunarity: real,
                               gain: real, bounding: real, p: Point) returns (r: real)
    requires Count(octaves) <= |perm|
    ensures r == Fbm(v, perm, interp, octaves, lacunarity, gain, bounding, p)
    ensures UnitFamily(v) && Times(bounding, Amplitudes(gain, Count(octaves))) == 1.0 ==>
      (gain >= 0.0 || octaves <= 1 ==> -1.0 <= r <= 1.0)
  {
    hide SingleValue, UnitFamily, Octaves, Amplitudes, Power, Times;
    ghost var k := Count(octaves);
    ghost var n := OctaveValues(v, perm, interp, lacunarity, p, k);
    var x, y, z := p.x, p.y, p.z;
    var sum := SingleValue(v(perm[0]), interp, x, y, z);
    var amp := 1.0;
    OneOctave(n, gain);
    OneOctave(n, lacunarity);
    TimesOne(p.x);
    TimesOne(p.y);
    TimesOne(p.z);
    var i := 1;
    while i < octaves
      invariant 1 <= i <= k
      invariant x == Times(p.x, Power(lacunarity, i - 1)) && y == Times(p.y, Power(lacunarity, i - 1))
      invariant z == Times(p.z, Power(lacunarity, i - 1))
      invariant amp == Power(gain, i - 1) && sum == Octaves(n, gain, i)
    {
      OctaveStep(n, gain, i);
      ScaleStep(p.x, lacunarity, i, x);
      ScaleStep(p.y, lacunarity, i, y);
      ScaleStep(p.z, lacunarity, i, z);
      x := Times(x, lacunarity);
      y := Times(y, lacunarity);
      z := Times(z, lacunarity);
      amp := Times(amp, gain);
      assert n[i] == SingleValue(v(perm[i]), interp, x, y, z);
      sum := sum + Times(SingleValue(v(perm[i]), interp, x, y, z), amp);
      i := i + 1;
    }
    if (gain >= 0.0 || octaves <= 1) && Times(bounding, Amplitudes(gain, k)) == 1.0 && UnitFamily(v) {
      OctavesInUnit(v, perm, interp, lacunarity, p, k);
      SumWithinAmplitudes(n, octaves, gain);
      ProductInUnit(sum, Amplitudes(gain, k), bounding);
    }
    r := Times(sum, bounding);
  }

  lemma ScaleStep(x0: real, lacunarity: real, i: nat, x: real)
    requires i > 0 && x == Times(x0, Power(lacunarity, i - 1))
    ensures Times(x, lacunarity) == Times(x0, Power(lacunarity, i))
  {
  }

  lemma OctavesInUnit(v: int -> Lattice, perm: seq<int>, interp: Interp, lacunarity: real, p: Point, k: nat)
    requires k <= |perm| && UnitFamily(v)
    ensures Unit(OctaveValues(v, perm, interp, lacunarity, p, k))
  {
    hide UnitFamily, Octave;
    forall i | 0 <= i < k
      ensures -1.0 <= OctaveValues(v, perm, interp, lacunarity, p, k)[i] <= 1.0
    {
      OctaveInUnit(v, perm, interp, lacunarity, p, i);
    }
  }

  lemma OctaveInUnit(v: int -> Lattice, perm: seq<int>, interp: Interp, lacunarity: real, p: Point, i: nat)
    requires i < |perm| && UnitFamily(v)
    ensures -1.0 <= Octave(v, perm, interp, lacunarity, p, i) <= 1.0
  {
    hide SingleValue, Power, Times;
    var s := Power(lacunarity, i);
    FamilyMember(v, perm[i]);
    SingleValueBetween(v(perm[i]), interp, Times(p.x, s), Times(p.y, s), Times(p.z, s), -1.0, 1.0);
  }

  // ----- exactly when the normaliser works -----

  /** Lattices without structure: lattice 1 is -1 everywhere, the others are 1. */
  function SignFamily(): int -> Lattice {
    o => (x, y, z) => if o == 1 then -1.0 else 1.0
  }

  /** A table of bytes that picks lattice 1 for every other octave. */
  function Alternating(k: nat): (perm: seq<int>)
    ensures |perm| == k && Bytes(perm)
  {
    seq(k, i requires 0 <= i < k => i % 2)
  }

  predicate Bytes(perm: seq<int>) {
    forall i :: 0 <= i < |perm| ==> 0 <= perm[i] < 256
  }

  lemma {:induction false} OddNegative(gain: real, i: nat)
    requires gain < 0.0
    ensures if i % 2 == 1 then Power(gain, i) < 0.0 else Power(gain, i) > 0.0
  {
    if i > 0 {
      OddNegative(gain, i - 1);
      if i % 2 == 1 {
        MulPositive(Power(gain, i - 1), -gain);
      } else {
        MulPositive(-Power(gain, i - 1), -gain);
      }
    }
  }

  lemma SignOctaves(gain: real, k: nat, interp: Interp, lacunarity: real, p: Point)
    requires gain < 0.0
    ensures OctaveValues(SignFamily(), Alternating(k), interp, lacunarity, p, k) == Signs(gain, k)
  {
    hide SingleValue, Times, Power;
    forall i | 0 <= i < k
      ensures Octave(SignFamily(), Alternating(k), interp, lacunarity, p, i) == Signs(gain, k)[i]
    {
      OddNegative(gain, i);
      var c := if i % 2 == 1 then -1.0 else 1.0;
      var s := Power(lacunarity, i);
      SingleValueBetween(SignFamily()(i % 2), interp, Times(p.x, s), Times(p.y, s), Times(p.z, s), c, c);
    }
  }

  /** With a negative gain and two octaves or more, constant lattices leave [-1, 1] at every point. */
  lemma FbmExceeds(interp: Interp, octaves: int, lacunarity: real, gain: real, p: Point)
    requires gain < 0.0 && octaves >= 2 && Amplitudes(gain, octaves) != 0.0
    ensures UnitFamily(SignFamily()) && Bytes(Alternating(octaves))
    ensures Abs(NormalisedFbm(SignFamily(), Alternating(octaves), interp, octaves, lacunarity, gain, p)) > 1.0
  {
    SignOctaves(gain, octaves, interp, lacunarity, p);
    SignsExceed(Signs(gain, octaves), gain, octaves);
    hide Amplitudes, Octaves, Power, Signs, Times, OctaveValues;
    QuotientBeyondUnit(Octaves(Signs(gain, octaves), gain, octaves), Amplitudes(gain, octaves));
  }

  /** The noise with the reciprocal that `CalculateFractalBounding` computes. */
  function NormalisedFbm(v: int -> Lattice, perm: seq<int>, interp: Interp, octaves: int, lacunarity: real, gain: real,
                         p: Point): real
    requires Count(octaves) <= |perm| && Amplitudes(gain, Count(octaves)) != 0.0
  {
    Fbm(v, perm, interp, octaves, lacunarity, gain, 1.0 / Amplitudes(gain, Count(octaves)), p)
  }

  /** The normaliser is a number and keeps the noise in [-1, 1] for all lattices in [-1, 1] and tables of
      bytes. */
  ghost predicate FbmNormalised(octaves: int, gain: real) {
    && Amplitudes(gain, Count(octaves)) != 0.0
    && forall v, perm, interp, lacunarity, p :: UnitFamily(v) && Bytes(perm) && |perm| >= Count(octaves) ==>
      Abs(NormalisedFbm(v, perm, interp, octaves, lacunarity, gain, p)) <= 1.0
  }

  /** It does so exactly when the gain is not negative or there is but one octave. */
  lemma FbmNormalisedIff(octaves: int, gain: real)
    ensures FbmNormalised(octaves, gain) <==> gain >= 0.0 || octaves <= 1
  {
    hide Amplitudes, Octaves, Power, Times, OctaveValues, UnitFamily, SignFamily, Bytes;
    var k := Count(octaves);
    if gain >= 0.0 || octaves <= 1 {
      SumWithinAmplitudes(Ones(k), octaves, gain);
      forall v, perm: seq<int>, interp, lacunarity, p | UnitFamily(v) && |perm| >= k
        ensures Abs(NormalisedFbm(v, perm, interp, octaves, lacunarity, gain, p)) <= 1.0
      {
        var n := OctaveValues(v, perm, interp, lacunarity, p, k);
        OctavesInUnit(v, perm, interp, lacunarity, p, k);
        SumWithinAmplitudes(n, octaves, gain);
        QuotientInUnit(Octaves(n, gain, k), Amplitudes(gain, k));
      }
    } else if Amplitudes(gain, k) != 0.0 {
      FbmExceeds(Linear, octaves, 1.0, gain, Point(0.0, 0.0, 0.0));
    }
  }

  function Ones(k: nat): (n: seq<real>)
    ensures |n| == k && Unit(n)
  {
    seq(k, _ => 1.0)
  }
}
