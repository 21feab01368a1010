/** What the scalar noises come to on lattices for which it is known: products of one function for each axis,
    steps, planes, and at the lattice points themselves. */
module FastNoiseValues {
  import opened FastNoise

  /** A lattice that is a product of one function for each axis. */
  ghost predicate Separable(v: Lattice, p: int -> real, q: int -> real, r: int -> real) {
    forall x, y, z :: v(x, y, z) == p(x) * q(y) * r(z)
  }

  function Product(a: real, b: real, c: real): real { a * b * c }

  lemma SeparableAt(v: Lattice, p: int -> real, q: int -> real, r: int -> real, x: int, y: int, z: int)
    requires Separable(v, p, q, r)
    ensures v(x, y, z) == Product(p(x), q(y), r(z))
  {
  }

  // ----- cubic noise -----

  /** The weighted sum of the four lattice values around a coordinate of one axis. */
  function CubicAxis(p: int -> real, x: real): real {
    var i := x.Floor;
    var t := x - i as real;
    -(t * (1.0 - t) * (1.0 - t)) * p(i - 1) + (1.0 - t) * (1.0 + t * (1.0 - t)) * p(i) +
    t * (1.0 + t * (1.0 - t)) * p(i + 1) - t * t * (1.0 - t) * p(i + 2)
  }

  lemma CubicEnds(a: real, b: real, c: real, d: real)
    ensures CubicLerp(a, b, c, d, 0.0) == b && CubicLerp(a, b, c, d, 1.0) == c
  {
  }

  lemma CubicIs(a: real, b: real, c: real, d: real, t: real)
    ensures CubicLerp(a, b, c, d, t)
         == -(t * (1.0 - t) * (1.0 - t)) * a + (1.0 - t) * (1.0 + t * (1.0 - t)) * b +
            t * (1.0 + t * (1.0 - t)) * c - t * t * (1.0 - t) * d
  {
  }

  lemma AxisIs(p: int -> real, x: real)
    ensures var i := FastFloor(x); CubicLerp(p(i - 1), p(i), p(i + 1), p(i + 2), x - i as real) == CubicAxis(p, x)
  {
    FastFloorIs(x);
    var i := x.Floor;
    CubicIs(p(i - 1), p(i), p(i + 1), p(i + 2), x - i as real);
    if FastFloor(x) != i {
      CubicEnds(p(i - 2), p(i - 1), p(i), p(i + 1));
      CubicEnds(p(i - 1), p(i), p(i + 1), p(i + 2));
    }
  }

  lemma CubicX(a: real, b: real, c: real, d: real, q: real, r: real, t: real)
    ensures CubicLerp(Product(a, q, r), Product(b, q, r), Product(c, q, r), Product(d, q, r), t)
         == Product(CubicLerp(a, b, c, d, t), q, r)
  {
  }

  lemma CubicY(p: real, a: real, b: real, c: real, d: real, r: real, t: real)
    ensures CubicLerp(Product(p, a, r), Product(p, b, r), Product(p, c, r), Product(p, d, r), t)
         == Product(p, CubicLerp(a, b, c, d, t), r)
  {
  }

  lemma CubicZ(p: real, q: real, a: real, b: real, c: real, d: real, t: real)
    ensures CubicLerp(Product(p, q, a), Product(p, q, b), Product(p, q, c), Product(p, q, d), t)
         == Product(p, q, CubicLerp(a, b, c, d, t))
  {
  }

  lemma RowOfProduct(v: Lattice, p: int -> real, q: int -> real, r: int -> real, x1: int, y: int, z: int, xs: real)
    requires Separable(v, p, q, r)
    ensures CubicRow(v, x1, y, z, xs)
         == Product(CubicLerp(p(x1 - 1), p(x1), p(x1 + 1), p(x1 + 2), xs), q(y), r(z))
  {
    hide CubicLerp, Product, Separable;
    SeparableAt(v, p, q, r, x1 - 1, y, z);
    SeparableAt(v, p, q, r, x1, y, z);
    SeparableAt(v, p, q, r, x1 + 1, y, z);
    SeparableAt(v, p, q, r, x1 + 2, y, z);
    CubicX(p(x1 - 1), p(x1), p(x1 + 1), p(x1 + 2), q(y), r(z), xs);
  }

  lemma PlaneOfProduct(v: Lattice, p: int -> real, q: int -> real, r: int -> real, x1: int, y1: int, z: int,
                       xs: real, ys: real)
    requires Separable(v, p, q, r)
    ensures CubicPlane(v, x1, y1, z, xs, ys)
         == Product(CubicLerp(p(x1 - 1), p(x1), p(x1 + 1), p(x1 + 2), xs),
                    CubicLerp(q(y1 - 1), q(y1), q(y1 + 1), q(y1 + 2), ys), r(z))
  {
    hide CubicLerp, Product, Separable, CubicRow;
    RowOfProduct(v, p, q, r, x1, y1 - 1, z, xs);
    RowOfProduct(v, p, q, r, x1, y1, z, xs);
    RowOfProduct(v, p, q, r, x1, y1 + 1, z, xs);
    RowOfProduct(v, p, q, r, x1, y1 + 2, z, xs);
    CubicY(CubicLerp(p(x1 - 1), p(x1), p(x1 + 1), p(x1 + 2), xs), q(y1 - 1), q(y1), q(y1 + 1), q(y1 + 2), r(z), ys);
  }

  /** On a product, cubic noise is 8/27 of the product of the three weighted sums, each along its own axis. */
  lemma SingleCubicOfProduct(v: Lattice, p: int -> real, q: int -> real, r: int -> real, x: real, y: real, z: real)
    requires Separable(v, p, q, r)
    ensures SingleCubic(v, x, y, z) == CubicAxis(p, x) * CubicAxis(q, y) * CubicAxis(r, z) * (8.0 / 27.0)
  {
    BoundingIs();
    hide CubicLerp, Separable, CubicPlane, CubicAxis, FastFloor, CUBIC_3D_BOUNDING;
    var x1, y1, z1 := FastFloor(x), FastFloor(y), FastFloor(z);
    var xs, ys, zs := x - x1 as real, y - y1 as real, z - z1 as real;
    PlaneOfProduct(v, p, q, r, x1, y1, z1 - 1, xs, ys);
    PlaneOfProduct(v, p, q, r, x1, y1, z1, xs, ys);
    PlaneOfProduct(v, p, q, r, x1, y1, z1 + 1, xs, ys);
    PlaneOfProduct(v, p, q, r, x1, y1, z1 + 2, xs, ys);
    CubicZ(CubicLerp(p(x1 - 1), p(x1), p(x1 + 1), p(x1 + 2), xs), CubicLerp(q(y1 - 1), q(y1), q(y1 + 1), q(y1 + 2), ys),
           r(z1 - 1), r(z1), r(z1 + 1), r(z1 + 2), zs);
    AxisIs(p, x);
    AxisIs(q, y);
    AxisIs(r, z);
  }

  lemma BoundingIs()
    ensures CUBIC_3D_BOUNDING == 8.0 / 27.0
  {
  }

  /** At a lattice point cubic noise is 8/27 of the lattice value. */
  lemma SingleCubicAtPoint(v: Lattice, i: int, j: int, k: int)
    ensures SingleCubic(v, i as real, j as real, k as real) == v(i, j, k) * (8.0 / 27.0)
  {
    BoundingIs();
    hide CubicLerp, CUBIC_3D_BOUNDING;
    forall a, b, c, d
      ensures CubicLerp(a, b, c, d, 0.0) == b && CubicLerp(a, b, c, d, 1.0) == c
    {
      CubicEnds(a, b, c, d);
    }
    FastFloorIs(i as real);
    FastFloorIs(j as real);
    FastFloorIs(k as real);
    hide FastFloor;
  }

  // ----- value noise -----

  /** The three smoothings as polynomials. */
  lemma SmoothIs(t: real)
    ensures Smooth(Linear, t) == t
    ensures Smooth(Hermite, t) == 3.0 * t * t - 2.0 * t * t * t
    ensures Smooth(Quintic, t) == 6.0 * t * t * t * t * t - 15.0 * t * t * t * t + 10.0 * t * t * t
  {
  }

  /** Interpolation between the two lattice values around a coordinate of one axis. */
  function ValueAxis(p: int -> real, interp: Interp, x: real): real {
    var i := x.Floor;
    var s := Smooth(interp, x - i as real);
    (1.0 - s) * p(i) + s * p(i + 1)
  }

  lemma LerpIs(a: real, b: real, t: real)
    ensures Lerp(a, b, t) == (1.0 - t) * a + t * b
  {
  }

  lemma LerpX(a0: real, a1: real, b: real, c: real, t: real)
    ensures Lerp(Product(a0, b, c), Product(a1, b, c), t) == Product(Lerp(a0, a1, t), b, c)
  {
  }

  lemma LerpY(a: real, b0: real, b1: real, c: real, t: real)
    ensures Lerp(Product(a, b0, c), Product(a, b1, c), t) == Product(a, Lerp(b0, b1, t), c)
  {
  }

  lemma LerpZ(a: real, b: real, c0: real, c1: real, t: real)
    ensures Lerp(Product(a, b, c0), Product(a, b, c1), t) == Product(a, b, Lerp(c0, c1, t))
  {
  }

  lemma ValueInOfProduct(v: Lattice, p: int -> real, q: int -> real, r: int -> real, x0: int, y0: int, z0: int,
                         xs: real, ys: real, zs: real)
    requires Separable(v, p, q, r)
    ensures ValueIn(v, x0, y0, z0, xs, ys, zs)
         == Product(Lerp(p(x0), p(x0 + 1), xs), Lerp(q(y0), q(y0 + 1), ys), Lerp(r(z0), r(z0 + 1), zs))
  {
    hide Lerp, Product, Separable;
    forall x, y, z
      ensures v(x, y, z) == Product(p(x), q(y), r(z))
    {
      SeparableAt(v, p, q, r, x, y, z);
    }
    var x1, y1, z1 := x0 + 1, y0 + 1, z0 + 1;
    var px, qy := Lerp(p(x0), p(x1), xs), Lerp(q(y0), q(y1), ys);
    LerpX(p(x0), p(x1), q(y0), r(z0), xs);
    LerpX(p(x0), p(x1), q(y1), r(z0), xs);
    LerpX(p(x0), p(x1), q(y0), r(z1), xs);
    LerpX(p(x0), p(x1), q(y1), r(z1), xs);
    LerpY(px, q(y0), q(y1), r(z0), ys);
    LerpY(px, q(y0), q(y1), r(z1), ys);
    LerpZ(px, qy, r(z0), r(z1), zs);
  }

  /** On a product, value noise is the product of the three interpolations, each along its own axis. */
  lemma SingleValueOfProduct(v: Lattice, p: int -> real, q: int -> real, r: int -> real, interp: Interp,
                             x: real, y: real, z: real)
    requires Separable(v, p, q, r)
    ensures SingleValue(v, interp, x, y, z)
         == ValueAxis(p, interp, x) * ValueAxis(q, interp, y) * ValueAxis(r, interp, z)
  {
    hide Lerp, Separable, ValueIn, Smooth, SingleValue;
    SingleValueTrueFloor(v, interp, x, y, z);
    var xs, ys, zs := Smooth(interp, x - x.Floor as real), Smooth(interp, y - y.Floor as real),
                      Smooth(interp, z - z.Floor as real);
    ValueInOfProduct(v, p, q, r, x.Floor, y.Floor, z.Floor, xs, ys, zs);
    LerpIs(p(x.Floor), p(x.Floor + 1), xs);
    LerpIs(q(y.Floor), q(y.Floor + 1), ys);
    LerpIs(r(z.Floor), r(z.Floor + 1), zs);
  }

  /** At a lattice point value noise is the lattice value, whatever the interpolation. */
  lemma SingleValueAtPoint(v: Lattice, interp: Interp, i: int, j: int, k: int)
    ensures SingleValue(v, interp, i as real, j as real, k as real) == v(i, j, k)
  {
    hide Lerp, Smooth, SingleValue;
    SingleValueTrueFloor(v, interp, i as real, j as real, k as real);
    SmoothEnds(interp);
    forall a, b
      ensures Lerp(a, b, 0.0) == a
    {
      LerpEnds(a, b);
    }
  }

  function Step(): int -> real { i => if i >= 1 then 1.0 else 0.0 }

  function One(): int -> real { i => 1.0 }

  lemma StepAxis(interp: Interp, t: real)
    requires 0.0 <= t <= 1.0
    ensures ValueAxis(Step(), interp, t) == Smooth(interp, t)
    ensures ValueAxis(One(), interp, t) == 1.0
  {
    SmoothEnds(interp);
    hide Smooth;
  }

  function StepX(): Lattice { (x, y, z) => if x >= 1 then 1.0 else 0.0 }
  function StepY(): Lattice { (x, y, z) => if y >= 1 then 1.0 else 0.0 }
  function StepZ(): Lattice { (x, y, z) => if z >= 1 then 1.0 else 0.0 }

  lemma StepsAreProducts()
    ensures Separable(StepX(), Step(), One(), One())
    ensures Separable(StepY(), One(), Step(), One())
    ensures Separable(StepZ(), One(), One(), Step())
  {
  }

  lemma SmoothSteps(interp: Interp, t: real, u: real, w: real)
    requires 0.0 <= t <= 1.0 && 0.0 <= u <= 1.0 && 0.0 <= w <= 1.0
    ensures SingleValue(StepX(), interp, t, u, w) == Smooth(interp, t)
    ensures SingleValue(StepY(), interp, u, t, w) == Smooth(interp, t)
    ensures SingleValue(StepZ(), interp, u, w, t) == Smooth(interp, t)
  {
    hide SingleValue, ValueAxis, Smooth, Separable, Step, One, StepX, StepY, StepZ;
    StepAxis(interp, t);
    StepAxis(interp, u);
    StepAxis(interp, w);
    StepsAreProducts();
    SingleValueOfProduct(StepX(), Step(), One(), One(), interp, t, u, w);
    SingleValueOfProduct(StepY(), One(), Step(), One(), interp, u, t, w);
    SingleValueOfProduct(StepZ(), One(), One(), Step(), interp, u, w, t);
  }

  /** On the lattice that steps from 0 to 1 along one axis, value noise in the first cell is the polynomial of
      the interpolation along that axis, and only of it. */
  lemma SingleValueOfStep(interp: Interp, t: real, u: real, w: real)
    requires 0.0 <= t <= 1.0 && 0.0 <= u <= 1.0 && 0.0 <= w <= 1.0
    ensures var s := match interp
                     case Linear => t
                     case Hermite => 3.0 * t * t - 2.0 * t * t * t
                     case Quintic => 6.0 * t * t * t * t * t - 15.0 * t * t * t * t + 10.0 * t * t * t;
      && SingleValue(StepX(), interp, t, u, w) == s
      && SingleValue(StepY(), interp, u, t, w) == s
      && SingleValue(StepZ(), interp, u, w, t) == s
  {
    hide SingleValue, Smooth, StepX, StepY, StepZ;
    SmoothIs(t);
    SmoothSteps(interp, t, u, w);
  }

  // ----- the octave loop -----

  /** A lattice that is a plane. */
  ghost predicate IsPlane(v: Lattice, k: real, a: real, b: real, c: real) {
    forall x, y, z :: v(x, y, z) == k + Times(a, x as real) + Times(b, y as real) + Times(c, z as real)
  }

  lemma LerpStep(e: real, h: real, t: real)
    ensures Lerp(e, e + h, t) == e + Times(h, t)
  {
  }

  lemma TimesSum(a: real, x: real, t: real)
    ensures Times(a, x) + Times(a, t) == Times(a, x + t)
  {
  }

  /** Linear interpolation reproduces a plane everywhere. */
  lemma SingleValueOfPlane(v: Lattice, k: real, a: real, b: real, c: real, x: real, y: real, z: real)
    requires IsPlane(v, k, a, b, c)
    ensures SingleValue(v, Linear, x, y, z) == k + Times(a, x) + Times(b, y) + Times(c, z)
  {
    hide Lerp, Times, FastFloor;
    var x0, y0, z0 := FastFloor(x), FastFloor(y), FastFloor(z);
    var xs, ys, zs := x - x0 as real, y - y0 as real, z - z0 as real;
    OneOn(a, x0);
    OneOn(b, y0);
    OneOn(c, z0);
    var e := v(x0, y0, z0);
    assert v(x0 + 1, y0, z0) == e + a && v(x0, y0 + 1, z0) == e + b && v(x0, y0, z0 + 1) == e + c;
    assert v(x0 + 1, y0 + 1, z0) == e + b + a && v(x0 + 1, y0, z0 + 1) == e + c + a;
    assert v(x0, y0 + 1, z0 + 1) == e + c + b && v(x0 + 1, y0 + 1, z0 + 1) == e + c + b + a;
    LerpStep(e, a, xs);
    LerpStep(e + b, a, xs);
    LerpStep(e + c, a, xs);
    LerpStep(e + c + b, a, xs);
    var ax := Times(a, xs);
    assert e + b + ax == e + ax + b && e + c + b + ax == e + c + ax + b;
    LerpStep(e + ax, b, ys);
    LerpStep(e + c + ax, b, ys);
    var bt := Times(b, ys);
    assert e + c + ax + bt == e + ax + bt + c;
    LerpStep(e + ax + bt, c, zs);
    TimesSum(a, x0 as real, xs);
    TimesSum(b, y0 as real, ys);
    TimesSum(c, z0 as real, zs);
  }

  lemma OneOn(a: real, i: int)
    ensures Times(a, (i + 1) as real) == Times(a, i as real) + a
  {
  }

  lemma {:induction false} PowerTimes(g: real, l: real, i: nat)
    ensures Times(Power(g, i), Power(l, i)) == Power(Times(g, l), i)
  {
    if i == 0 {
      TimesOne(1.0);
    } else {
      PowerTimes(g, l, i - 1);
      Rearranged(Power(g, i - 1), g, Power(l, i - 1), l);
    }
  }

  lemma Rearranged(a: real, b: real, c: real, d: real)
    ensures Times(Times(a, b), Times(c, d)) == Times(Times(a, c), Times(b, d))
  {
  }

  /** Lattice `o` of the family is the plane with slopes a, b and c through k(o). */
  ghost predicate IsPlanes(v: int -> Lattice, k: int -> real, a: real, b: real, c: real) {
    forall o :: IsPlane(v(o), k(o), a, b, c)
  }

  lemma PlaneOf(v: int -> Lattice, k: int -> real, a: real, b: real, c: real, o: int)
    requires IsPlanes(v, k, a, b, c)
    ensures IsPlane(v(o), k(o), a, b, c)
  {
  }

  /** The value of the plane through 0 at a point. */
  function Rise(a: real, b: real, c: real, p: Point): real { Times(a, p.x) + Times(b, p.y) + Times(c, p.z) }

  lemma ScaledRise(a: real, b: real, c: real, p: Point, s: real)
    ensures Times(a, Times(p.x, s)) + Times(b, Times(p.y, s)) + Times(c, Times(p.z, s)) == Times(Rise(a, b, c, p), s)
  {
  }

  lemma PlaneOctave(v: int -> Lattice, k: int -> real, a: real, b: real, c: real, perm: seq<int>, lacunarity: real,
                    p: Point, i: nat)
    requires IsPlanes(v, k, a, b, c) && i < |perm|
    ensures Octave(v, perm, Linear, lacunarity, p, i) == k(perm[i]) + Times(Rise(a, b, c, p), Power(lacunarity, i))
  {
    hide SingleValue, IsPlanes, IsPlane, Times, Power, Rise;
    var s := Power(lacunarity, i);
    PlaneOf(v, k, a, b, c, perm[i]);
    SingleValueOfPlane(v(perm[i]), k(perm[i]), a, b, c, Times(p.x, s), Times(p.y, s), Times(p.z, s));
    ScaledRise(a, b, c, p, s);
  }

  /** What the table picks, weighted by the amplitudes. */
  function Picked(k: int -> real, perm: seq<int>, gain: real, n: nat): real
    requires n <= |perm|
  {
    if n == 0 then 0.0 else Picked(k, perm, gain, n - 1) + Times(k(perm[n - 1]), Power(gain, n - 1))
  }

  lemma Distributed(k: real, e: real, l: real, g: real)
    ensures Times(k + Times(e, l), g) == Times(k, g) + Times(e, Times(g, l))
  {
  }

  lemma TimesZero(e: real)
    ensures Times(e, 0.0) == 0.0
  {
  }

  lemma {:induction false} PlaneOctaves(v: int -> Lattice, k: int -> real, a: real, b: real, c: real, perm: seq<int>,
                                        lacunarity: real, gain: real, p: Point, m: nat, n: nat)
    requires IsPlanes(v, k, a, b, c) && n <= m <= |perm|
    ensures Octaves(OctaveValues(v, perm, Linear, lacunarity, p, m), gain, n)
         == Picked(k, perm, gain, n) + Times(Rise(a, b, c, p), Amplitudes(Times(gain, lacunarity), n))
  {
    hide Times, Power, Rise, IsPlanes, Octave;
    var e := Rise(a, b, c, p);
    if n == 0 {
      TimesZero(e);
    } else {
      PlaneOctaves(v, k, a, b, c, perm, lacunarity, gain, p, m, n - 1);
      PlaneOctave(v, k, a, b, c, perm, lacunarity, p, n - 1);
      var g, l := Power(gain, n - 1), Power(lacunarity, n - 1);
      Distributed(k(perm[n - 1]), e, l, g);
      PowerTimes(gain, lacunarity, n - 1);
      TimesSum(e, Amplitudes(Times(gain, lacunarity), n - 1), Times(g, l));
    }
  }

  /** The octave loop with linear interpolation on planes: the heights that the table picks are weighted by the
      powers of the gain, the slopes by the powers of gain times lacunarity. */
  lemma FbmOfPlanes(v: int -> Lattice, k: int -> real, a: real, b: real, c: real, perm: seq<int>, octaves: int,
                    lacunarity: real, gain: real, bounding: real, p: Point)
    requires IsPlanes(v, k, a, b, c) && Count(octaves) <= |perm|
    ensures var n := Count(octaves);
      Fbm(v, perm, Linear, octaves, lacunarity, gain, bounding, p) ==
        (Picked(k, perm, gain, n) + (a * p.x + b * p.y + c * p.z) * Amplitudes(gain * lacunarity, n)) * bounding
  {
    hide IsPlanes, Octaves, Amplitudes, Picked, OctaveValues;
    PlaneOctaves(v, k, a, b, c, perm, lacunarity, gain, p, Count(octaves), Count(octaves));
  }

  /** Amplitudes are geometric. */
  lemma AmplitudeValues()
    ensures Amplitudes(0.5, 1) == 1.0 && Amplitudes(0.5, 2) == 1.5 && Amplitudes(0.5, 3) == 1.75
    ensures Amplitudes(-2.0, 3) == 3.0
  {
    assert Power(0.5, 0) == 1.0 && Power(0.5, 1) == 0.5 && Power(0.5, 2) == 0.25;
    assert Power(-2.0, 0) == 1.0 && Power(-2.0, 1) == -2.0 && Power(-2.0, 2) == 4.0;
    assert Amplitudes(0.5, 0) == 0.0 && Amplitudes(-2.0, 0) == 0.0;
    assert Amplitudes(-2.0, 1) == 1.0 && Amplitudes(-2.0, 2) == -1.0;
  }

  lemma {:induction false} Geometric(gain: real, k: nat)
    ensures (1.0 - gain) * Amplitudes(gain, k) == 1.0 - Power(gain, k)
  {
    if k > 0 {
      Geometric(gain, k - 1);
      assert (1.0 - gain) * (Amplitudes(gain, k - 1) + Power(gain, k - 1))
          == (1.0 - gain) * Amplitudes(gain, k - 1) + Power(gain, k - 1) - gain * Power(gain, k - 1);
    }
  }
}
