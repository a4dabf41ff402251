/** calibrate.c and the calibration part of touch.c: the factors that map touch screen points
    to display points, in integer arithmetic.

    The points are unsigned 16-bit and the factors 64-bit; `FactorsFit` and `SumFits` show that
    no computation leaves the 64-bit range, so the factors are plain integers here.
 */
module TouchMatrix {
  import opened Machine
  import opened Rounding

  datatype Point = Point(x: int, y: int)

  /** A = an/divider, and so on. */
  datatype Matrix = Matrix(an: int, bn: int, cn: int, dn: int, en: int, fn: int, divider: int)

  /** Three corresponding points. */
  datatype Triple = Triple(p0: Point, p1: Point, p2: Point)

  function Divider(s: Triple): int {
    (s.p0.x - s.p2.x) * (s.p1.y - s.p2.y) - (s.p1.x - s.p2.x) * (s.p0.y - s.p2.y)
  }

  // The factors of one display coordinate, whose values at the three points are d0, d1 and d2.

  function FactorX(s: Triple, d0: int, d1: int, d2: int): int {
    (d0 - d2) * (s.p1.y - s.p2.y) - (d1 - d2) * (s.p0.y - s.p2.y)
  }

  function FactorY(s: Triple, d0: int, d1: int, d2: int): int {
    (s.p0.x - s.p2.x) * (d1 - d2) - (d0 - d2) * (s.p1.x - s.p2.x)
  }

  function Offset(s: Triple, d0: int, d1: int, d2: int): int {
    (s.p2.x * d1 - s.p1.x * d2) * s.p0.y +
    (s.p0.x * d2 - s.p2.x * d0) * s.p1.y +
    (s.p1.x * d0 - s.p0.x * d1) * s.p2.y
  }

  /** `setCalibrationMatrix`: when the screen points are on one line only the divider is stored. */
  function SetMatrix(m: Matrix, d: Triple, s: Triple): Matrix {
    if Divider(s) == 0 then m.(divider := 0)
    else Matrix(FactorX(s, d.p0.x, d.p1.x, d.p2.x), FactorY(s, d.p0.x, d.p1.x, d.p2.x),
                Offset(s, d.p0.x, d.p1.x, d.p2.x),
                FactorX(s, d.p0.y, d.p1.y, d.p2.y), FactorY(s, d.p0.y, d.p1.y, d.p2.y),
                Offset(s, d.p0.y, d.p1.y, d.p2.y), Divider(s))
  }

  /** `getDisplayPoint`; nothing is stored when the divider is zero. */
  function DisplayPoint(m: Matrix, p: Point): Option<Point> {
    if m.divider == 0 then None
    else Some(Point(TruncDiv(m.an * p.x + m.bn * p.y + m.cn, m.divider),
                    TruncDiv(m.dn * p.x + m.en * p.y + m.fn, m.divider)))
  }

  // ----- the factors interpolate

  // The coefficients of x, of y and of 1 in the weight of a corner, the other two being b and c.

  function WeightX(b: Point, c: Point): int {
    b.y - c.y
  }

  function WeightY(b: Point, c: Point): int {
    c.x - b.x
  }

  function WeightOne(b: Point, c: Point): int {
    b.x * c.y - c.x * b.y
  }

  /** Twice the signed area of the triangle p, b, c: the weight at p of the corner opposite b, c. */
  function Weight(b: Point, c: Point, p: Point): int {
    WeightX(b, c) * p.x + WeightY(b, c) * p.y + WeightOne(b, c)
  }

  /** The sum over the corners of a value times a coefficient. */
  function Dot(d0: int, d1: int, d2: int, w0: int, w1: int, w2: int): int {
    d0 * w0 + d1 * w1 + d2 * w2
  }

  lemma {:induction false} FactorXIsDot(s: Triple, d0: int, d1: int, d2: int)
    ensures FactorX(s, d0, d1, d2) == Dot(d0, d1, d2, WeightX(s.p1, s.p2), WeightX(s.p2, s.p0), WeightX(s.p0, s.p1))
  {
    var u, v := s.p1.y - s.p2.y, s.p0.y - s.p2.y;
    assert (d0 - d2) * u == d0 * u - d2 * u;
    assert (d1 - d2) * v == d1 * v - d2 * v;
    assert d1 * -v == -(d1 * v) && d2 * (v - u) == d2 * v - d2 * u;
  }

  lemma {:induction false} FactorYIsDot(s: Triple, d0: int, d1: int, d2: int)
    ensures FactorY(s, d0, d1, d2) == Dot(d0, d1, d2, WeightY(s.p1, s.p2), WeightY(s.p2, s.p0), WeightY(s.p0, s.p1))
  {
    var u, v := s.p1.x - s.p2.x, s.p0.x - s.p2.x;
    assert (d0 - d2) * u == d0 * u - d2 * u;
    assert v * (d1 - d2) == d1 * v - d2 * v;
    assert d0 * -u == -(d0 * u) && d2 * (u - v) == d2 * u - d2 * v;
  }

  lemma {:induction false} Difference(a: int, d: int, b: int, e: int, y: int)
    ensures (a * d - b * e) * y == d * (a * y) - e * (b * y)
  {}

  lemma {:induction false} Minus(d: int, u: int, v: int)
    ensures d * (u - v) == d * u - d * v
  {}

  lemma {:induction false} OffsetIsDot(s: Triple, d0: int, d1: int, d2: int)
    ensures Offset(s, d0, d1, d2) ==
            Dot(d0, d1, d2, WeightOne(s.p1, s.p2), WeightOne(s.p2, s.p0), WeightOne(s.p0, s.p1))
  {
    Difference(s.p2.x, d1, s.p1.x, d2, s.p0.y);
    Difference(s.p0.x, d2, s.p2.x, d0, s.p1.y);
    Difference(s.p1.x, d0, s.p0.x, d1, s.p2.y);
    Minus(d0, s.p1.x * s.p2.y, s.p2.x * s.p1.y);
    Minus(d1, s.p2.x * s.p0.y, s.p0.x * s.p2.y);
    Minus(d2, s.p0.x * s.p1.y, s.p1.x * s.p0.y);
  }

  lemma {:induction false} Row(d: int, a: int, b: int, c: int, x: int, y: int)
    ensures d * (a * x + b * y + c) == d * a * x + d * b * y + d * c
  {}

  lemma {:induction false} Column(u: int, v: int, w: int, x: int)
    ensures (u + v + w) * x == u * x + v * x + w * x
  {}

  /** Values weighted at a point, gathered by coefficient. */
  lemma {:induction false} DotWeights(s: Triple, d0: int, d1: int, d2: int, p: Point)
    ensures Dot(d0, d1, d2, Weight(s.p1, s.p2, p), Weight(s.p2, s.p0, p), Weight(s.p0, s.p1, p)) ==
            Dot(d0, d1, d2, WeightX(s.p1, s.p2), WeightX(s.p2, s.p0), WeightX(s.p0, s.p1)) * p.x +
            Dot(d0, d1, d2, WeightY(s.p1, s.p2), WeightY(s.p2, s.p0), WeightY(s.p0, s.p1)) * p.y +
            Dot(d0, d1, d2, WeightOne(s.p1, s.p2), WeightOne(s.p2, s.p0), WeightOne(s.p0, s.p1))
  {
    hide WeightX, WeightY, WeightOne;
    Row(d0, WeightX(s.p1, s.p2), WeightY(s.p1, s.p2), WeightOne(s.p1, s.p2), p.x, p.y);
    Row(d1, WeightX(s.p2, s.p0), WeightY(s.p2, s.p0), WeightOne(s.p2, s.p0), p.x, p.y);
    Row(d2, WeightX(s.p0, s.p1), WeightY(s.p0, s.p1), WeightOne(s.p0, s.p1), p.x, p.y);
    Column(d0 * WeightX(s.p1, s.p2), d1 * WeightX(s.p2, s.p0), d2 * WeightX(s.p0, s.p1), p.x);
    Column(d0 * WeightY(s.p1, s.p2), d1 * WeightY(s.p2, s.p0), d2 * WeightY(s.p0, s.p1), p.y);
  }

  /** A display coordinate is the weighted sum of its three values. */
  lemma {:induction false} Weighted(s: Triple, d0: int, d1: int, d2: int, p: Point)
    ensures FactorX(s, d0, d1, d2) * p.x + FactorY(s, d0, d1, d2) * p.y + Offset(s, d0, d1, d2) ==
            Dot(d0, d1, d2, Weight(s.p1, s.p2, p), Weight(s.p2, s.p0, p), Weight(s.p0, s.p1, p))
  {
    hide *;
    FactorXIsDot(s, d0, d1, d2);
    FactorYIsDot(s, d0, d1, d2);
    OffsetIsDot(s, d0, d1, d2);
    DotWeights(s, d0, d1, d2, p);
  }

  /** Interpolating the coordinates themselves, or 1, gives them back times the divider. */
  lemma {:induction false} SelfFactors(s: Triple)
    ensures FactorX(s, s.p0.x, s.p1.x, s.p2.x) == Divider(s) && FactorY(s, s.p0.x, s.p1.x, s.p2.x) == 0
    ensures FactorX(s, s.p0.y, s.p1.y, s.p2.y) == 0 && FactorY(s, s.p0.y, s.p1.y, s.p2.y) == Divider(s)
    ensures FactorX(s, 1, 1, 1) == 0 && FactorY(s, 1, 1, 1) == 0
  {}

  lemma {:induction false} SelfOffsets(s: Triple)
    ensures Offset(s, s.p0.x, s.p1.x, s.p2.x) == 0
    ensures Offset(s, s.p0.y, s.p1.y, s.p2.y) == 0
    ensures Offset(s, 1, 1, 1) == Divider(s)
  {
    OffsetOfX(s.p0.x, s.p1.x, s.p2.x);
    OffsetOfY(s);
    OffsetOfOne(s);
  }

  lemma {:induction false} OffsetOfX(x0: int, x1: int, x2: int)
    ensures x2 * x1 - x1 * x2 == 0 && x0 * x2 - x2 * x0 == 0 && x1 * x0 - x0 * x1 == 0
  {}

  lemma {:induction false} OffsetOfY(s: Triple)
    ensures Offset(s, s.p0.y, s.p1.y, s.p2.y) == 0
  {
    var y0, y1, y2 := s.p0.y, s.p1.y, s.p2.y;
    Difference(s.p2.x, y1, s.p1.x, y2, y0);
    Difference(s.p0.x, y2, s.p2.x, y0, y1);
    Difference(s.p1.x, y0, s.p0.x, y1, y2);
    Swap(y1, s.p2.x, y0);
    Swap(y2, s.p1.x, y0);
    Swap(y2, s.p0.x, y1);
  }

  lemma {:induction false} Swap(a: int, b: int, c: int)
    ensures a * (b * c) == c * (b * a)
  {}

  lemma {:induction false} OffsetOfOne(s: Triple)
    ensures Offset(s, 1, 1, 1) == Divider(s)
  {
    var x0, x1, x2, y0, y1, y2 := s.p0.x, s.p1.x, s.p2.x, s.p0.y, s.p1.y, s.p2.y;
    assert (x0 - x2) * (y1 - y2) == x0 * y1 - x0 * y2 - x2 * y1 + x2 * y2;
    assert (x1 - x2) * (y0 - y2) == x1 * y0 - x1 * y2 - x2 * y0 + x2 * y2;
    assert (x2 - x1) * y0 == x2 * y0 - x1 * y0;
    assert (x0 - x2) * y1 == x0 * y1 - x2 * y1;
    assert (x1 - x0) * y2 == x1 * y2 - x0 * y2;
  }

  /** The three weights are barycentric coordinates of the point. */
  lemma {:induction false} Barycentric(s: Triple, p: Point)
    ensures var a, b, c := Weight(s.p1, s.p2, p), Weight(s.p2, s.p0, p), Weight(s.p0, s.p1, p);
            && a + b + c == Divider(s)
            && s.p0.x * a + s.p1.x * b + s.p2.x * c == Divider(s) * p.x
            && s.p0.y * a + s.p1.y * b + s.p2.y * c == Divider(s) * p.y
  {
    hide FactorX, FactorY, Offset, Divider, Weight;
    SelfFactors(s);
    SelfOffsets(s);
    Weighted(s, 1, 1, 1, p);
    Weighted(s, s.p0.x, s.p1.x, s.p2.x, p);
    Weighted(s, s.p0.y, s.p1.y, s.p2.y, p);
  }

  /** An affine map with rational coefficients: its value at p is Numerator(p) / q. */
  datatype Affine = Affine(a: int, b: int, c: int, q: int) {
    function Numerator(p: Point): int {
      a * p.x + b * p.y + c
    }

    predicate Takes(p: Point, v: int) {
      q != 0 && q * v == Numerator(p)
    }
  }

  lemma {:induction false} Spread(q: int, d: int, u: int, w: int)
    requires q * d == u
    ensures q * (d * w) == u * w
  {}

  /** Three points determine an affine map: the factors agree with any map that has the given
      values there. */
  lemma {:induction false} FactorsAreAffine(s: Triple, d0: int, d1: int, d2: int, f: Affine, p: Point)
    requires f.Takes(s.p0, d0) && f.Takes(s.p1, d1) && f.Takes(s.p2, d2)
    ensures f.q * (FactorX(s, d0, d1, d2) * p.x + FactorY(s, d0, d1, d2) * p.y + Offset(s, d0, d1, d2)) ==
            Divider(s) * f.Numerator(p)
  {
    Weighted(s, d0, d1, d2, p);
    Barycentric(s, p);
    var w0, w1, w2 := Weight(s.p1, s.p2, p), Weight(s.p2, s.p0, p), Weight(s.p0, s.p1, p);
    Spread(f.q, d0, f.a * s.p0.x + f.b * s.p0.y + f.c, w0);
    Spread(f.q, d1, f.a * s.p1.x + f.b * s.p1.y + f.c, w1);
    Spread(f.q, d2, f.a * s.p2.x + f.b * s.p2.y + f.c, w2);
    hide FactorX, FactorY, Offset, Weight, Divider;
    Gather(f, s, w0, w1, w2);
    var sx := s.p0.x * w0 + s.p1.x * w1 + s.p2.x * w2;
    var sy := s.p0.y * w0 + s.p1.y * w1 + s.p2.y * w2;
    Collect(f, Divider(s), p, sx, sy, w0 + w1 + w2);
    Distribute(f.q, d0 * w0, d1 * w1, d2 * w2);
  }

  lemma {:induction false} Gather(f: Affine, s: Triple, w0: int, w1: int, w2: int)
    ensures (f.a * s.p0.x + f.b * s.p0.y + f.c) * w0 + (f.a * s.p1.x + f.b * s.p1.y + f.c) * w1 +
            (f.a * s.p2.x + f.b * s.p2.y + f.c) * w2 ==
            f.a * (s.p0.x * w0 + s.p1.x * w1 + s.p2.x * w2) +
            f.b * (s.p0.y * w0 + s.p1.y * w1 + s.p2.y * w2) + f.c * (w0 + w1 + w2)
  {}

  lemma {:induction false} Collect(f: Affine, d: int, p: Point, sx: int, sy: int, sum: int)
    requires sx == d * p.x && sy == d * p.y && sum == d
    ensures f.a * sx + f.b * sy + f.c * sum == d * (f.a * p.x + f.b * p.y + f.c)
  {}

  lemma {:induction false} Distribute(q: int, x: int, y: int, z: int)
    ensures q * (x + y + z) == q * x + q * y + q * z
  {}

  lemma {:induction false} CoordinateRecovered(s: Triple, d0: int, d1: int, d2: int, f: Affine, p: Point)
    requires f.Takes(s.p0, d0) && f.Takes(s.p1, d1) && f.Takes(s.p2, d2)
    ensures var n := FactorX(s, d0, d1, d2) * p.x + FactorY(s, d0, d1, d2) * p.y + Offset(s, d0, d1, d2);
            Divider(s) != 0 ==> TruncDiv(n, Divider(s)) == TruncDiv(f.Numerator(p), f.q)
  {
    FactorsAreAffine(s, d0, d1, d2, f, p);
    hide FactorX, FactorY, Offset, Divider, TruncDiv, Affine.Numerator;
    var n := FactorX(s, d0, d1, d2) * p.x + FactorY(s, d0, d1, d2) * p.y + Offset(s, d0, d1, d2);
    if Divider(s) != 0 {
      TruncOfEqualRatios(n, Divider(s), f.Numerator(p), f.q);
    }
  }

  /** The pair of maps takes the three screen points to the three display points. */
  predicate Relates(fx: Affine, fy: Affine, s: Triple, d: Triple) {
    && fx.Takes(s.p0, d.p0.x) && fx.Takes(s.p1, d.p1.x) && fx.Takes(s.p2, d.p2.x)
    && fy.Takes(s.p0, d.p0.y) && fy.Takes(s.p1, d.p1.y) && fy.Takes(s.p2, d.p2.y)
  }

  /** Calibration recovers the distortion: if the screen was related to the display by any
      translation, scaling, rotation or shear, then after calibrating with three points that are
      not on one line every touch is reported at its true display point, truncated toward zero. */
  lemma {:induction false} CalibrationRecovers(m: Matrix, d: Triple, s: Triple, fx: Affine, fy: Affine, p: Point)
    requires Divider(s) != 0 && Relates(fx, fy, s, d)
    ensures DisplayPoint(SetMatrix(m, d, s), p) ==
            Some(Point(TruncDiv(fx.Numerator(p), fx.q), TruncDiv(fy.Numerator(p), fy.q)))
  {
    hide FactorX, FactorY, Offset, Divider, TruncDiv, Affine.Numerator;
    CoordinateRecovered(s, d.p0.x, d.p1.x, d.p2.x, fx, p);
    CoordinateRecovered(s, d.p0.y, d.p1.y, d.p2.y, fy, p);
  }

  /** So a touch whose true display point is integral is reported exactly there. */
  lemma {:induction false} IntegralTouchIsExact(m: Matrix, d: Triple, s: Triple, fx: Affine, fy: Affine,
                                                p: Point, v: Point)
    requires Divider(s) != 0 && Relates(fx, fy, s, d) && fx.Takes(p, v.x) && fy.Takes(p, v.y)
    ensures DisplayPoint(SetMatrix(m, d, s), p) == Some(v)
  {
    hide SetMatrix, DisplayPoint, Divider, TruncDiv, Affine.Numerator;
    CalibrationRecovers(m, d, s, fx, fy, p);
    TruncExact(fx.q, v.x, fx.Numerator(p));
    TruncExact(fy.q, v.y, fy.Numerator(p));
  }

  /** And every other touch less than one pixel from it in each coordinate; the pixel given is
      the closest one exactly when at most half a pixel was cut off. */
  lemma {:induction false} DisplayedPixel(m: Matrix, d: Triple, s: Triple, fx: Affine, fy: Affine, p: Point)
    requires Divider(s) != 0 && Relates(fx, fy, s, d)
    ensures var nx, ny, r := fx.Numerator(p), fy.Numerator(p), DisplayPoint(SetMatrix(m, d, s), p);
            && r.Some?
            && Miss(nx, fx.q, r.value.x) < Abs(fx.q) && Miss(ny, fy.q, r.value.y) < Abs(fy.q)
            && (Closest(nx, fx.q, r.value.x) <==> 2 * (Abs(nx) % Abs(fx.q)) <= Abs(fx.q))
            && (Closest(ny, fy.q, r.value.y) <==> 2 * (Abs(ny) % Abs(fy.q)) <= Abs(fy.q))
  {
    hide SetMatrix, DisplayPoint, Divider, TruncDiv, Affine.Numerator, Miss, Closest;
    CalibrationRecovers(m, d, s, fx, fy, p);
    TruncWithinOne(fx.Numerator(p), fx.q);
    TruncWithinOne(fy.Numerator(p), fy.q);
    TruncClosestExactly(fx.Numerator(p), fx.q);
    TruncClosestExactly(fy.Numerator(p), fy.q);
  }

  // A display two thirds the size of the screen.

  const BIG := Triple(Point(0, 0), Point(3, 0), Point(0, 3))
  const SMALL := Triple(Point(0, 0), Point(2, 0), Point(0, 2))
  const SHRINK_X := Affine(2, 0, 0, 3)
  const SHRINK_Y := Affine(0, 2, 0, 3)

  lemma {:induction false} Shrinks()
    ensures Divider(BIG) == 9 && Relates(SHRINK_X, SHRINK_Y, BIG, SMALL)
    ensures SHRINK_X.Numerator(Point(1, 0)) == 2 && SHRINK_Y.Numerator(Point(1, 0)) == 0
  {
    hide Affine.Numerator;
    ShrunkAt(Point(0, 0));
    ShrunkAt(Point(3, 0));
    ShrunkAt(Point(0, 3));
    ShrunkAt(Point(1, 0));
  }

  lemma {:induction false} ShrunkAt(p: Point)
    ensures SHRINK_X.Numerator(p) == 2 * p.x && SHRINK_Y.Numerator(p) == 2 * p.y
  {}

  /** A touch for which the closest pixel is missed: at two thirds of a pixel, 0 is reported. */
  lemma {:induction false} ClosestPixelMissed(m: Matrix)
    ensures Relates(SHRINK_X, SHRINK_Y, BIG, SMALL) && SHRINK_X.Numerator(Point(1, 0)) == 2 && SHRINK_X.q == 3
    ensures DisplayPoint(SetMatrix(m, SMALL, BIG), Point(1, 0)) == Some(Point(0, 0))
    ensures !Closest(2, 3, 0)
  {
    hide Relates, Affine.Numerator, Divider, SetMatrix, DisplayPoint, TruncDiv, Closest;
    Shrinks();
    CalibrationRecovers(m, SMALL, BIG, SHRINK_X, SHRINK_Y, Point(1, 0));
    TwoThirds();
    ZeroNotClosest();
  }

  lemma {:induction false} TwoThirds()
    ensures TruncDiv(2, 3) == 0 && TruncDiv(0, 3) == 0
  {}

  lemma {:induction false} ZeroNotClosest()
    ensures !Closest(2, 3, 0)
  {
    hide Closest, Miss;
    TwoThirds();
    TruncClosestExactly(2, 3);
  }

  /** A corner has no weight at the other two, and all of it at itself. */
  lemma {:induction false} Corners(s: Triple)
    ensures Weight(s.p1, s.p2, s.p1) == Weight(s.p1, s.p2, s.p2) == 0
    ensures Weight(s.p2, s.p0, s.p2) == Weight(s.p2, s.p0, s.p0) == 0
    ensures Weight(s.p0, s.p1, s.p0) == Weight(s.p0, s.p1, s.p1) == 0
    ensures Weight(s.p1, s.p2, s.p0) == Weight(s.p2, s.p0, s.p1) == Weight(s.p0, s.p1, s.p2) == Divider(s)
  {
    OwnEdge(s.p1, s.p2);
    OwnEdge(s.p2, s.p0);
    OwnEdge(s.p0, s.p1);
    hide Weight, Divider;
    Barycentric(s, s.p0);
    Barycentric(s, s.p1);
    Barycentric(s, s.p2);
  }

  lemma {:induction false} OwnEdge(b: Point, c: Point)
    ensures Weight(b, c, b) == 0 && Weight(b, c, c) == 0
  {
    assert (b.y - c.y) * b.x == b.x * b.y - b.x * c.y;
    assert (c.x - b.x) * b.y == c.x * b.y - b.x * b.y;
    assert (b.y - c.y) * c.x == c.x * b.y - c.x * c.y;
    assert (c.x - b.x) * c.y == c.x * c.y - b.x * c.y;
  }

  lemma {:induction false} CornerRecovered(s: Triple, d0: int, d1: int, d2: int)
    requires Divider(s) != 0
    ensures var ax, ay, c := FactorX(s, d0, d1, d2), FactorY(s, d0, d1, d2), Offset(s, d0, d1, d2);
            && TruncDiv(ax * s.p0.x + ay * s.p0.y + c, Divider(s)) == d0
            && TruncDiv(ax * s.p1.x + ay * s.p1.y + c, Divider(s)) == d1
            && TruncDiv(ax * s.p2.x + ay * s.p2.y + c, Divider(s)) == d2
  {
    hide FactorX, FactorY, Offset, Divider, TruncDiv, Weight;
    Corners(s);
    Weighted(s, d0, d1, d2, s.p0);
    Weighted(s, d0, d1, d2, s.p1);
    Weighted(s, d0, d1, d2, s.p2);
    var ax, ay, c := FactorX(s, d0, d1, d2), FactorY(s, d0, d1, d2), Offset(s, d0, d1, d2);
    TruncExact(Divider(s), d0, ax * s.p0.x + ay * s.p0.y + c);
    TruncExact(Divider(s), d1, ax * s.p1.x + ay * s.p1.y + c);
    TruncExact(Divider(s), d2, ax * s.p2.x + ay * s.p2.y + c);
  }

  /** The three calibration touches themselves are always reported at their reference points,
      exactly when they are not on one line. */
  lemma {:induction false} CalibrationInterpolates(m: Matrix, d: Triple, s: Triple)
    ensures var r := SetMatrix(m, d, s);
            (&& DisplayPoint(r, s.p0) == Some(d.p0)
             && DisplayPoint(r, s.p1) == Some(d.p1)
             && DisplayPoint(r, s.p2) == Some(d.p2)) <==> Divider(s) != 0
  {
    hide FactorX, FactorY, Offset, Divider, TruncDiv;
    if Divider(s) != 0 {
      CornerRecovered(s, d.p0.x, d.p1.x, d.p2.x);
      CornerRecovered(s, d.p0.y, d.p1.y, d.p2.y);
    }
  }

  // ----- 64 bits are enough

  predicate Unsigned16(p: Point) {
    0 <= p.x < 0x1_0000 && 0 <= p.y < 0x1_0000
  }

  predicate Within(x: int, bound: int) {
    -bound <= x <= bound
  }

  lemma {:induction false} ProductMonotone(a: nat, b: nat, c: nat, d: nat)
    requires a <= b && c <= d
    ensures a * c <= b * d
  {
    assert (b - a) * c >= 0 && b * (d - c) >= 0;
  }

  lemma {:induction false} ProductWithin(x: int, y: int, b: nat, c: nat)
    requires Within(x, b) && Within(y, c)
    ensures Within(x * y, b * c)
  {
    var ax, ay := if x < 0 then -x else x, if y < 0 then -y else y;
    ProductMonotone(ax, b, ay, c);
    assert x * y == ax * ay || x * y == -(ax * ay);
    assert ax * ay >= 0;
  }

  lemma {:induction false} FactorsFit(s: Triple, d0: int, d1: int, d2: int)
    requires Unsigned16(s.p0) && Unsigned16(s.p1) && Unsigned16(s.p2)
    requires 0 <= d0 < 0x1_0000 && 0 <= d1 < 0x1_0000 && 0 <= d2 < 0x1_0000
    ensures Within(FactorX(s, d0, d1, d2), 0x2_0000_0000) && Within(FactorY(s, d0, d1, d2), 0x2_0000_0000)
    ensures Within(Offset(s, d0, d1, d2), 0x6_0000_0000_0000) && Within(Divider(s), 0x2_0000_0000)
  {
    var b := 0x1_0000;
    ProductWithin(d0 - d2, s.p1.y - s.p2.y, b, b);
    ProductWithin(d1 - d2, s.p0.y - s.p2.y, b, b);
    ProductWithin(s.p0.x - s.p2.x, d1 - d2, b, b);
    ProductWithin(d0 - d2, s.p1.x - s.p2.x, b, b);
    ProductWithin(s.p0.x - s.p2.x, s.p1.y - s.p2.y, b, b);
    ProductWithin(s.p1.x - s.p2.x, s.p0.y - s.p2.y, b, b);
    OffsetTermFits(s.p2.x, d1, s.p1.x, d2, s.p0.y);
    OffsetTermFits(s.p0.x, d2, s.p2.x, d0, s.p1.y);
    OffsetTermFits(s.p1.x, d0, s.p0.x, d1, s.p2.y);
  }

  lemma {:induction false} OffsetTermFits(u: int, v: int, w: int, x: int, y: int)
    requires 0 <= u < 0x1_0000 && 0 <= v < 0x1_0000 && 0 <= w < 0x1_0000 && 0 <= x < 0x1_0000 && 0 <= y < 0x1_0000
    ensures Within(u * v - w * x, 0x2_0000_0000) && Within((u * v - w * x) * y, 0x2_0000_0000_0000)
  {
    ProductWithin(u, v, 0x1_0000, 0x1_0000);
    ProductWithin(w, x, 0x1_0000, 0x1_0000);
    ProductWithin(u * v - w * x, y, 0x2_0000_0000, 0x1_0000);
  }

  /** The sum that is divided stays far inside 64 bits for every 16-bit touch, so the remark that
      only 10-bit digitizers are safe does not apply to these 64-bit factors. */
  lemma {:induction false} SumFits(s: Triple, d0: int, d1: int, d2: int, p: Point)
    requires Unsigned16(s.p0) && Unsigned16(s.p1) && Unsigned16(s.p2) && Unsigned16(p)
    requires 0 <= d0 < 0x1_0000 && 0 <= d1 < 0x1_0000 && 0 <= d2 < 0x1_0000
    ensures var n := FactorX(s, d0, d1, d2) * p.x + FactorY(s, d0, d1, d2) * p.y + Offset(s, d0, d1, d2);
            Within(n, 0x10_0000_0000_0000)
  {
    hide FactorX, FactorY, Offset, Divider;
    FactorsFit(s, d0, d1, d2);
    ProductWithin(FactorX(s, d0, d1, d2), p.x, 0x2_0000_0000, 0x1_0000);
    ProductWithin(FactorY(s, d0, d1, d2), p.y, 0x2_0000_0000, 0x1_0000);
  }

  // ----- recalibration

  /** The factors take a screen point exactly, without any rounding, to a display point. */
  predicate MapsExactly(m: Matrix, p: Point, v: Point) {
    && m.an * p.x + m.bn * p.y + m.cn == m.divider * v.x
    && m.dn * p.x + m.en * p.y + m.fn == m.divider * v.y
  }

  lemma {:induction false} Cramer(u0: int, u1: int, a0: int, a1: int, b0: int, b1: int)
    requires u0 * a0 + u1 * a1 == 0 && u0 * b0 + u1 * b1 == 0
    ensures u0 * (a0 * b1 - a1 * b0) == 0 && u1 * (a0 * b1 - a1 * b0) == 0
  {
    assert (u0 * a0 + u1 * a1) * b1 == u0 * (a0 * b1) + u1 * (a1 * b1);
    assert (u0 * b0 + u1 * b1) * a1 == u0 * (a1 * b0) + u1 * (a1 * b1);
    assert (u0 * a0 + u1 * a1) * b0 == u0 * (a0 * b0) + u1 * (a1 * b0);
    assert (u0 * b0 + u1 * b1) * a0 == u0 * (a0 * b0) + u1 * (a0 * b1);
    Minus(u0, a0 * b1, a1 * b0);
    Minus(u1, a0 * b1, a1 * b0);
  }

  lemma {:induction false} Centered(u0: int, u1: int, u2: int, d0: int, d1: int, d2: int)
    requires u0 + u1 + u2 == 0
    ensures Dot(d0, d1, d2, u0, u1, u2) == u0 * (d0 - d2) + u1 * (d1 - d2)
  {
    assert d2 * (u0 + u1 + u2) == d2 * u0 + d2 * u1 + d2 * u2;
    Minus(u0, d0, d2);
    Minus(u1, d1, d2);
  }

  /** Weights that sum to nothing and move nothing are all zero, if the corners are not on one
      line. */
  lemma {:induction false} NoMotion(d: Triple, u0: int, u1: int, u2: int)
    requires Divider(d) != 0 && u0 + u1 + u2 == 0
    requires Dot(d.p0.x, d.p1.x, d.p2.x, u0, u1, u2) == 0 && Dot(d.p0.y, d.p1.y, d.p2.y, u0, u1, u2) == 0
    ensures u0 == 0 && u1 == 0 && u2 == 0
  {
    hide Dot;
    Centered(u0, u1, u2, d.p0.x, d.p1.x, d.p2.x);
    Centered(u0, u1, u2, d.p0.y, d.p1.y, d.p2.y);
    Cramer(u0, u1, d.p0.x - d.p2.x, d.p1.x - d.p2.x, d.p0.y - d.p2.y, d.p1.y - d.p2.y);
    ProductSign(u0, Divider(d));
    ProductSign(u1, Divider(d));
  }

  /** The point at which the corners have given weights. */
  lemma {:induction false} WeightsDetermine(s: Triple, p: Point, e: Point)
    requires Divider(s) != 0
    requires Weight(s.p1, s.p2, p) == Weight(s.p1, s.p2, e)
    requires Weight(s.p2, s.p0, p) == Weight(s.p2, s.p0, e)
    requires Weight(s.p0, s.p1, p) == Weight(s.p0, s.p1, e)
    ensures p == e
  {
    hide Weight, Divider;
    Barycentric(s, p);
    Barycentric(s, e);
    var d := Divider(s);
    Cancel(d, p.x, e.x);
    Cancel(d, p.y, e.y);
  }

  lemma {:induction false} Cancel(d: int, x: int, y: int)
    requires d != 0 && d * x == d * y
    ensures x == y
  {
    Minus(d, x, y);
    ProductSign(d, x - y);
  }

  lemma {:induction false} DotDifference(d0: int, d1: int, d2: int, v0: int, v1: int, v2: int,
                                         w0: int, w1: int, w2: int)
    ensures Dot(d0, d1, d2, v0 - w0, v1 - w1, v2 - w2) == Dot(d0, d1, d2, v0, v1, v2) - Dot(d0, d1, d2, w0, w1, w2)
  {
    Minus(d0, v0, w0);
    Minus(d1, v1, w1);
    Minus(d2, v2, w2);
  }

  /** No two screen points map exactly to the same display point. */
  lemma {:induction false} ExactIsInjective(m: Matrix, d: Triple, s: Triple, p: Point, e: Point, v: Point)
    requires Divider(s) != 0 && Divider(d) != 0
    requires MapsExactly(SetMatrix(m, d, s), p, v) && MapsExactly(SetMatrix(m, d, s), e, v)
    ensures p == e
  {
    Weighted(s, d.p0.x, d.p1.x, d.p2.x, p);
    Weighted(s, d.p0.y, d.p1.y, d.p2.y, p);
    Weighted(s, d.p0.x, d.p1.x, d.p2.x, e);
    Weighted(s, d.p0.y, d.p1.y, d.p2.y, e);
    hide Weight, Divider, FactorX, FactorY, Offset, Dot;
    var v0, v1, v2 := Weight(s.p1, s.p2, p), Weight(s.p2, s.p0, p), Weight(s.p0, s.p1, p);
    var w0, w1, w2 := Weight(s.p1, s.p2, e), Weight(s.p2, s.p0, e), Weight(s.p0, s.p1, e);
    Barycentric(s, p);
    Barycentric(s, e);
    DotDifference(d.p0.x, d.p1.x, d.p2.x, v0, v1, v2, w0, w1, w2);
    DotDifference(d.p0.y, d.p1.y, d.p2.y, v0, v1, v2, w0, w1, w2);
    NoMotion(d, v0 - w0, v1 - w1, v2 - w2);
    WeightsDetermine(s, p, e);
  }

  lemma {:induction false} CornersAreExact(m: Matrix, d: Triple, s: Triple)
    requires Divider(s) != 0
    ensures var r := SetMatrix(m, d, s);
            MapsExactly(r, s.p0, d.p0) && MapsExactly(r, s.p1, d.p1) && MapsExactly(r, s.p2, d.p2)
  {
    hide FactorX, FactorY, Offset, Divider, Weight;
    Corners(s);
    Weighted(s, d.p0.x, d.p1.x, d.p2.x, s.p0);
    Weighted(s, d.p0.x, d.p1.x, d.p2.x, s.p1);
    Weighted(s, d.p0.x, d.p1.x, d.p2.x, s.p2);
    Weighted(s, d.p0.y, d.p1.y, d.p2.y, s.p0);
    Weighted(s, d.p0.y, d.p1.y, d.p2.y, s.p1);
    Weighted(s, d.p0.y, d.p1.y, d.p2.y, s.p2);
  }

  /** Calibrating with captured points `s` makes the factors take other points `r` exactly to the
      references if and only if `r` is what was captured. */
  lemma {:induction false} ExactOnlyForCaptured(m: Matrix, d: Triple, s: Triple, r: Triple)
    requires Divider(s) != 0 && Divider(d) != 0
    ensures var n := SetMatrix(m, d, s);
            (MapsExactly(n, r.p0, d.p0) && MapsExactly(n, r.p1, d.p1) && MapsExactly(n, r.p2, d.p2)) <==> r == s
  {
    hide SetMatrix, MapsExactly, Divider;
    var n := SetMatrix(m, d, s);
    CornersAreExact(m, d, s);
    if MapsExactly(n, r.p0, d.p0) && MapsExactly(n, r.p1, d.p1) && MapsExactly(n, r.p2, d.p2) {
      ExactIsInjective(m, d, s, r.p0, s.p0, d.p0);
      ExactIsInjective(m, d, s, r.p1, s.p1, d.p1);
      ExactIsInjective(m, d, s, r.p2, s.p2, d.p2);
    }
  }

  // ----- the driver's state

  datatype Driver = Driver(matrix: Matrix, calibrated: bool)

  /** The state `touch_calibrate` leaves: calibrated even if no matrix could be computed. */
  function Calibrated(d: Driver, refs: Triple, scr: Triple): Driver {
    Driver(SetMatrix(d.matrix, refs, scr), true)
  }

  function Truncated(p: Point): Point {
    Point(ToInt(p.x), ToInt(p.y))
  }

  /** The coordinates `touch_xyz` reports for a raw reading: the reading itself until the driver
      is calibrated, the display point afterwards. The failure of `getDisplayPoint` is ignored,
      and the uninitialised local variable is reported; `stack` is what it happens to hold. */
  function Report(d: Driver, raw: Point, stack: Point): Point {
    if !d.calibrated then raw
    else
      match DisplayPoint(d.matrix, raw)
      case Some(v) => Truncated(v)
      case None => Truncated(stack)
  }

  /** After a calibration that failed, every report is whatever the stack held. */
  lemma {:induction false} FailedCalibrationReportsStack(d: Driver, refs: Triple, scr: Triple, raw: Point, stack: Point)
    requires Divider(scr) == 0
    ensures Report(Calibrated(d, refs, scr), raw, stack) == Truncated(stack)
  {}

  predicate FitsInt(v: int) {
    INT_MIN <= v < 0x8000_0000
  }

  /** What `touch_xyz` reports after a calibration that succeeded: the true point truncated toward
      zero, exactly when both coordinates fit the 32 bits it stores them in. */
  lemma {:induction false} CalibratedReport(d: Driver, refs: Triple, s: Triple, fx: Affine, fy: Affine,
                                            p: Point, stack: Point)
    requires Divider(s) != 0 && Relates(fx, fy, s, refs)
    ensures var v := Point(TruncDiv(fx.Numerator(p), fx.q), TruncDiv(fy.Numerator(p), fy.q));
            var r := Report(Calibrated(d, refs, s), p, stack);
            r == Truncated(v) && (r == v <==> FitsInt(v.x) && FitsInt(v.y))
  {
    hide SetMatrix, DisplayPoint, Divider, TruncDiv, Affine.Numerator, ToInt;
    CalibrationRecovers(d.matrix, refs, s, fx, fy, p);
    ToIntExact(TruncDiv(fx.Numerator(p), fx.q));
    ToIntExact(TruncDiv(fy.Numerator(p), fy.q));
  }

  /** So each coordinate is reported less than one pixel from the true point exactly when it fits,
      and at a closest pixel exactly when besides at most half a pixel is cut off. */
  lemma {:induction false} ReportedPixel(d: Driver, refs: Triple, s: Triple, fx: Affine, fy: Affine,
                                         p: Point, stack: Point)
    requires Divider(s) != 0 && Relates(fx, fy, s, refs)
    ensures var nx, ny, r := fx.Numerator(p), fy.Numerator(p), Report(Calibrated(d, refs, s), p, stack);
            var fitsX, fitsY := FitsInt(TruncDiv(nx, fx.q)), FitsInt(TruncDiv(ny, fy.q));
            && (Miss(nx, fx.q, r.x) < Abs(fx.q) <==> fitsX) && (Miss(ny, fy.q, r.y) < Abs(fy.q) <==> fitsY)
            && (Closest(nx, fx.q, r.x) <==> fitsX && 2 * (Abs(nx) % Abs(fx.q)) <= Abs(fx.q))
            && (Closest(ny, fy.q, r.y) <==> fitsY && 2 * (Abs(ny) % Abs(fy.q)) <= Abs(fy.q))
  {
    hide SetMatrix, DisplayPoint, Divider, TruncDiv, Affine.Numerator, ToInt, Miss, Closest;
    CalibratedReport(d, refs, s, fx, fy, p, stack);
    StoredMiss(fx.Numerator(p), fx.q);
    StoredMiss(fy.Numerator(p), fy.q);
  }

  /** The factors move a displacement by a fraction of a pixel and not backwards, apart from a
      multiple of 2^32 pixels that the 32-bit coordinates lose. */
  ghost predicate Drifts(m: Matrix, u: Point) {
    WrappedFraction(m.an * u.x + m.bn * u.y, m.divider) && WrappedFraction(m.dn * u.x + m.en * u.y, m.divider)
  }

  function Displacement(p: Point, e: Point): Point {
    Point(p.x - e.x, p.y - e.y)
  }

  lemma {:induction false} LinearPart(a: int, b: int, c: int, p: Point, e: Point)
    ensures a * p.x + b * p.y + c == a * e.x + b * e.y + c + (a * (p.x - e.x) + b * (p.y - e.y))
  {
    Minus(a, p.x, e.x);
    Minus(b, p.y, e.y);
  }

  /** If the factors take `e` exactly to `v`, they report `p` at `v` exactly when it drifts. */
  lemma {:induction false} ReportedWhenDrifting(d: Driver, p: Point, e: Point, v: Point, stack: Point)
    requires d.calibrated && d.matrix.divider != 0 && MapsExactly(d.matrix, e, v)
    requires 0 < v.x < 0x8000_0000 && 0 < v.y < 0x8000_0000
    ensures Report(d, p, stack) == v <==> Drifts(d.matrix, Displacement(p, e))
  {
    hide TruncDiv, ToInt, WrappedFraction;
    var m := d.matrix;
    LinearPart(m.an, m.bn, m.cn, p, e);
    LinearPart(m.dn, m.en, m.fn, p, e);
    TruncStored(m.an * p.x + m.bn * p.y + m.cn, m.divider, v.x);
    TruncStored(m.dn * p.x + m.en * p.y + m.fn, m.divider, v.y);
  }

  class Touch {
    var matrix: Matrix
    var calibrated: bool

    ghost function State(): Driver
      reads this
    {
      Driver(matrix, calibrated)
    }

    constructor ()
      ensures !calibrated && matrix == Matrix(0, 0, 0, 0, 0, 0, 0)
    {
      matrix, calibrated := Matrix(0, 0, 0, 0, 0, 0, 0), false;
    }

    /** False for NOT_OK. */
    method SetCalibrationMatrix(disp: Triple, scr: Triple) returns (ok: bool)
      modifies this`matrix
      ensures matrix == SetMatrix(old(matrix), disp, scr)
      ensures ok <==> Divider(scr) != 0
    {
      var divider := Divider(scr);
      matrix := matrix.(divider := divider);
      ok := divider != 0;
      if ok {
        matrix := matrix.(an := FactorX(scr, disp.p0.x, disp.p1.x, disp.p2.x));
        matrix := matrix.(bn := FactorY(scr, disp.p0.x, disp.p1.x, disp.p2.x));
        matrix := matrix.(cn := Offset(scr, disp.p0.x, disp.p1.x, disp.p2.x));
        matrix := matrix.(dn := FactorX(scr, disp.p0.y, disp.p1.y, disp.p2.y));
        matrix := matrix.(en := FactorY(scr, disp.p0.y, disp.p1.y, disp.p2.y));
        matrix := matrix.(fn := Offset(scr, disp.p0.y, disp.p1.y, disp.p2.y));
      }
    }

    /** False for NOT_OK, in which case the point is left as it is. */
    method GetDisplayPoint(display: Point, screen: Point) returns (ok: bool, point: Point)
      ensures ok <==> matrix.divider != 0
      ensures point == if ok then DisplayPoint(matrix, screen).value else display
    {
      ok, point := matrix.divider != 0, display;
      if ok {
        point := Point(TruncDiv(matrix.an * screen.x + matrix.bn * screen.y + matrix.cn, matrix.divider),
                       TruncDiv(matrix.dn * screen.x + matrix.en * screen.y + matrix.fn, matrix.divider));
      }
    }

    /** The coordinates of `touch_xyz`, the raw reading and the stack contents being given. */
    method TouchXyz(raw: Point, stack: Point) returns (p: Point)
      ensures p == Report(State(), raw, stack)
    {
      if calibrated {
        var ok, displayPoint := GetDisplayPoint(stack, raw);
        p := Point(ToInt(displayPoint.x), ToInt(displayPoint.y));
      } else {
        p := raw;
      }
    }

    method TouchCalibrate(refs: Triple, scr: Triple)
      modifies this
      ensures State() == Calibrated(old(State()), refs, scr)
    {
      var ok := SetCalibrationMatrix(refs, scr);
      calibrated := true;
    }
  }
}
