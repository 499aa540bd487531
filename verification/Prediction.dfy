/** From a fitted rectangle to an integer prediction: slope, rounded intercept, truncation. */
module Prediction {
  import opened Geometry
  import opened Hull
  import opened LinearModel

  const MAX_KEY: int := 0xFFFF_FFFF_FFFF_FFFF
  const INT32_MAX: int := 0x7FFF_FFFF

  /** Division of C, towards zero. */
  function TruncDiv(a: int, b: int): int
    requires b != 0
  {
    if (a >= 0) == (b > 0) || a == 0 then Abs(a) / Abs(b) else -(Abs(a) / Abs(b))
  }

  function Abs(a: int): nat { if a < 0 then -a else a }

  /** One model: the slope is the exact fraction dy / dx. */
  datatype Segment = Segment(key: int, dy: int, dx: int, intercept: int)

  ghost predicate GoodSlope(s: Segment) { s.dx > 0 && s.dy >= 0 }

  predicate OnePoint(cs: CanonicalSegment)
    requires |cs.rectangle| == 4
  {
    cs.rectangle[0] == cs.rectangle[2] && cs.rectangle[1] == cs.rectangle[3]
  }

  /** Half of the divisor, on the side of the quotient. */
  function RoundingTerm(n: int, d: int): int {
    TruncDiv((if (n < 0) != (d < 0) then -1 else 1) * d, 2)
  }

  /** Intercept at origin of the line through r1 and r3, rounded half away from zero. */
  function RoundedIntercept(r1: Point, r3: Point, origin: int): int
    requires r1.x != r3.x
  {
    var slope := Minus(r3, r1);
    var intercept_n := slope.dy * (origin - r1.x);
    var intercept_d := slope.dx;
    TruncDiv(intercept_n + RoundingTerm(intercept_n, intercept_d), intercept_d) + r1.y
  }

  /** The model stored for a canonical segment, or the overflow error of the 32-bit intercept. */
  function FromCanonical(cs: CanonicalSegment): Result<Segment>
    requires |cs.rectangle| == 4 && (OnePoint(cs) || cs.rectangle[1].x < cs.rectangle[3].x)
  {
    var s := if OnePoint(cs) then
               Segment(cs.first, 0, 1, TruncDiv(cs.rectangle[0].y + cs.rectangle[1].y, 2))
             else
               var slope := Minus(cs.rectangle[3], cs.rectangle[1]);
               Segment(cs.first, slope.dy, slope.dx, RoundedIntercept(cs.rectangle[1], cs.rectangle[3], cs.first));
    if s.intercept > INT32_MAX then Err("Change the type of Segment::intercept to int64") else Ok(s)
  }

  /** The prediction before it is cut off at zero. */
  function Raw(s: Segment, k: int): int
    requires s.dx > 0
  {
    s.dy * (k - s.key) / s.dx + s.intercept
  }

  function Predict(s: Segment, k: int): nat
    requires s.dx > 0
  {
    if Raw(s, k) > 0 then Raw(s, k) else 0
  }

  // ---------------------------------------------------------------------------
  // Rounding
  // ---------------------------------------------------------------------------

  lemma ProductGrows(d: int, x: int, y: int)
    requires d >= 0 && x <= y
    ensures d * x <= d * y
  {
  }

  lemma DivBounds(a: int, d: int)
    requires d > 0
    ensures d * (a / d) <= a < d * (a / d) + d
  {
  }

  lemma RoundingTermIsHalf(n: int, d: int)
    requires d > 0
    ensures RoundingTerm(n, d) == if n < 0 then -(d / 2) else d / 2
  {
    assert (if n < 0 then -1 else 1) * d == if n < 0 then -d else d;
  }

  lemma TruncOfNegative(a: int, d: int)
    requires a > 0 && d > 0
    ensures TruncDiv(-a, d) == -(a / d) && d * TruncDiv(-a, d) == -(d * (a / d))
  {
    NegatedProduct(d, a / d);
  }

  lemma NegatedProduct(d: int, q: int)
    ensures d * (-q) == -(d * q)
  {
  }

  lemma SmallQuotient(h: int, d: int)
    requires 0 <= h < d
    ensures TruncDiv(h, d) == 0 && d * TruncDiv(h, d) == 0
  {
    DivBounds(h, d);
    if h / d >= 1 { ProductGrows(d, 1, h / d); }
    if h / d <= -1 { ProductGrows(d, h / d, -1); }
  }

  lemma RoundingError(n: int, d: int)
    requires d > 0
    ensures 2 * n - d <= 2 * (d * TruncDiv(n + RoundingTerm(n, d), d)) <= 2 * n + d
  {
    RoundingTermIsHalf(n, d);
    var h := d / 2;
    assert n > 0 ==> TruncDiv(n + h, d) == (n + h) / d;
    hide RoundingTerm, TruncDiv;
    if n < 0 {
      TruncOfNegative(h - n, d);
      DivBounds(h - n, d);
    } else if n == 0 {
      SmallQuotient(h, d);
    } else {
      DivBounds(n + h, d);
    }
  }

  /** The stored intercept, in integers: a rounded quotient above the first end's rank. */
  lemma RoundedQuotient(r1: Point, r3: Point, origin: int) returns (q: int)
    requires r1.x < r3.x && origin <= r1.x && r1.y <= r3.y
    ensures RoundedIntercept(r1, r3, origin) == q + r1.y
    ensures var n, dx := (r3.y - r1.y) * (origin - r1.x), r3.x - r1.x; 2 * n - dx <= 2 * (dx * q) <= 2 * n + dx
  {
    var dy, dx, w := r3.y - r1.y, r3.x - r1.x, origin - r1.x;
    ProductGrows(dy, w, 0);
    RoundingError(dy * w, dx);
    q := TruncDiv(dy * w + RoundingTerm(dy * w, dx), dx);
  }

  /** The stored intercept is within one half of the line's value at the first key. */
  lemma InterceptError(r1: Point, r3: Point, origin: int)
    requires r1.x < r3.x && origin <= r1.x && r1.y <= r3.y
    ensures var v := Through(r1, r3).At(origin);
      v - 0.5 <= RoundedIntercept(r1, r3, origin) as real <= v + 0.5
  {
    var dy, dx, w := r3.y - r1.y, r3.x - r1.x, origin - r1.x;
    var q := RoundedQuotient(r1, r3, origin);
    hide *;
    ScaledLine(dy, dx, w);
    ProductToReal(dx, q);
    NearestInteger(Rise(dy, dx, w), dy * w, dx, q, dx * q);
    AtOffset(r1, r3, origin);
  }

  /** What a line of slope dy / dx gains over w. */
  ghost function Rise(dy: int, dx: int, w: int): real
    requires dx > 0
  {
    dy as real / dx as real * w as real
  }

  lemma AtOffset(a: Point, b: Point, x: int)
    requires a.x < b.x
    ensures Through(a, b).At(x) == a.y as real + Rise(b.y - a.y, b.x - a.x, x - a.x)
  {
    var m := (b.y - a.y) as real / (b.x - a.x) as real;
    assert m * x as real - m * a.x as real == m * (x - a.x) as real;
  }

  lemma NearestInteger(v: real, n: int, d: int, q: int, p: int)
    requires d > 0 && v * d as real == n as real
    requires p as real == d as real * q as real && 2 * n - d <= 2 * p <= 2 * n + d
    ensures v - 0.5 <= q as real <= v + 0.5
  {
    ScaledBack(v, q as real, d as real, n as real, p as real, 0.5, 0.5 * d as real);
  }

  /** dy / dx * w, scaled back by dx. */
  lemma ScaledLine(dy: int, dx: int, w: int)
    requires dx > 0
    ensures Rise(dy, dx, w) * dx as real == (dy * w) as real
  {
    var m, D, W := dy as real / dx as real, dx as real, w as real;
    assert m * D == dy as real;
    assert (m * W) * D == (m * D) * W;
    ProductToReal(dy, w);
  }

  lemma Spread(d: real, a: real, b: real)
    ensures d * (a - b) == d * a - d * b
  {
  }

  lemma Commute(a: real, b: real)
    ensures a * b == b * a
  {
  }

  lemma Expand(d: real, a: real, b: real, c: real)
    ensures d * (a - b - c) == d * a - d * b - d * c
  {
    Spread(d, a - b, c);
    Spread(d, a, b);
  }

  /** p and z are d times q and v; if they are within d * c, then q and v are within c. */
  lemma ScaledBack(v: real, q: real, d: real, z: real, p: real, c: real, h: real)
    requires d > 0.0 && z == v * d && p == d * q && h == d * c
    requires z - h <= p <= z + h
    ensures v - c <= q <= v + c
  {
    Commute(v, d);
    Expand(d, q, v, c);
    Expand(d, v, q, c);
    var above, below := d * (q - v - c), d * (v - q - c);
    assert above <= 0.0 && below <= 0.0;
    SignOfProduct(d, q - v - c);
    SignOfProduct(d, v - q - c);
  }

  /** Truncating the product loses less than one. */
  lemma TruncationError(dy: int, dx: int, w: int)
    requires dx > 0 && dy >= 0 && w >= 0
    ensures Rise(dy, dx, w) - 1.0 < (dy * w / dx) as real <= Rise(dy, dx, w)
  {
    DivBounds(dy * w, dx);
    ScaledLine(dy, dx, w);
    ProductToReal(dx, dy * w / dx);
    hide Rise;
    FloorInteger(Rise(dy, dx, w), dy * w, dx, dy * w / dx, dx * (dy * w / dx));
  }

  lemma FloorInteger(v: real, n: int, d: int, q: int, p: int)
    requires d > 0 && v * d as real == n as real
    requires p as real == d as real * q as real && p <= n < p + d
    ensures v - 1.0 < q as real <= v
  {
    FloorBound(v, q as real, d as real, n as real, p as real);
  }

  lemma FloorBound(v: real, q: real, d: real, z: real, p: real)
    requires d > 0.0 && z == v * d && p == d * q && p <= z < p + d
    ensures v - 1.0 < q <= v
  {
    Commute(v, d);
    Spread(d, q, v);
    Expand(d, v, q, 1.0);
    var over, gap := d * (q - v), d * (v - q - 1.0);
    assert over <= 0.0 && gap < 0.0;
    SignOfProduct(d, q - v);
    SignOfProduct(d, v - q - 1.0);
  }

  /** A prediction is the value of the stored line, rounded down. */
  lemma RawIsFloor(s: Segment, k: int)
    requires GoodSlope(s) && s.key <= k
    ensures Raw(s, k) as real <= s.intercept as real + Rise(s.dy, s.dx, k - s.key) < Raw(s, k) as real + 1.0
  {
    TruncationError(s.dy, s.dx, k - s.key);
    hide Rise;
    assert Raw(s, k) as real == (s.dy * (k - s.key) / s.dx) as real + s.intercept as real;
  }

  /** Slopes are not negative, so predictions grow with the key. */
  lemma RawIsMonotone(s: Segment, k: int, k': int)
    requires GoodSlope(s) && s.key <= k <= k'
    ensures Raw(s, k) <= Raw(s, k')
  {
    var a, b := s.dy * (k - s.key), s.dy * (k' - s.key);
    assert a <= b by { assert b - a == s.dy * (k' - k); }
    DivMonotone(a, b, s.dx);
  }

  lemma DivMonotone(a: int, b: int, d: int)
    requires d > 0 && a <= b
    ensures a / d <= b / d
  {
    DivBounds(a, d);
    DivBounds(b, d);
    if b / d < a / d {
      ProductGrows(d, b / d + 1, a / d);
    }
  }

  // ---------------------------------------------------------------------------
  // The model of a fitted segment
  // ---------------------------------------------------------------------------

  ghost predicate RanksIncrease(pts: seq<Point>) {
    forall i, j :: 0 <= i < j < |pts| ==> pts[i].y < pts[j].y
  }

  /** The steepest line turns on two different points, so the slope of a longer segment is positive. */
  lemma SteepestEnds(r: seq<Point>, pts: seq<Point>, epsilon: nat)
    requires Ordered(pts) && RanksIncrease(pts) && epsilon <= MAX_Y
    requires Rectangle(r, BandsOf(pts, epsilon))
    ensures r[1].y < r[3].y && |pts| > 0 && pts[0].x <= r[1].x
  {
    var bands := BandsOf(pts, epsilon);
    var i :| 0 <= i < |bands| && r[1] == End(true, bands[i]);
    var j :| 0 <= j < |bands| && r[3] == End(false, bands[j]);
    assert i < j by { OrderFromX(pts, i, j); }
    assert pts[i].y < pts[j].y;
  }

  lemma OrderFromX(pts: seq<Point>, i: int, j: int)
    requires Ordered(pts) && 0 <= i < |pts| && 0 <= j < |pts| && pts[i].x < pts[j].x
    ensures i < j
  {
  }

  lemma RiseBetween(r1: Point, r3: Point, origin: int, x: int)
    requires r1.x < r3.x
    ensures Through(r1, r3).At(x) == Through(r1, r3).At(origin) + Rise(r3.y - r1.y, r3.x - r1.x, x - origin)
    ensures x == origin ==> Rise(r3.y - r1.y, r3.x - r1.x, x - origin) == 0.0
  {
    var m := (r3.y - r1.y) as real / (r3.x - r1.x) as real;
    Spread(m, x as real, origin as real);
    assert (x - origin) as real == x as real - origin as real;
  }

  /** One evaluation of the model of r1 and r3 against the line's value there. */
  lemma RawNear(r1: Point, r3: Point, origin: int, x: int, y: int, e: nat)
    requires r1.x < r3.x && r1.y <= r3.y && origin <= r1.x && origin <= x
    requires (y - e) as real <= Through(r1, r3).At(x) <= (y + e) as real
    ensures y - e - 1 <= (r3.y - r1.y) * (x - origin) / (r3.x - r1.x) + RoundedIntercept(r1, r3, origin) <= y + e
    ensures x == origin ==> y - e <= RoundedIntercept(r1, r3, origin)
  {
    hide RoundedIntercept;
    var dy, dx, w := r3.y - r1.y, r3.x - r1.x, x - origin;
    InterceptError(r1, r3, origin);
    TruncationError(dy, dx, w);
    RiseBetween(r1, r3, origin, x);
    hide Rise, Through;
    FloorInside(Through(r1, r3).At(origin), Rise(dy, dx, w), RoundedIntercept(r1, r3, origin), dy * w / dx, y, e);
  }

  /** The model of a longer segment. */
  lemma LongSegmentModel(cs: CanonicalSegment, pts: seq<Point>, epsilon: nat) returns (s: Segment, r1: Point, r3: Point)
    requires Ordered(pts) && RanksIncrease(pts) && epsilon <= MAX_Y && |pts| > 1
    requires SegmentOf(cs, pts, epsilon)
    ensures |cs.rectangle| == 4 && cs.rectangle[1].x < cs.rectangle[3].x && !OnePoint(cs)
    ensures FromCanonical(cs).Ok? ==> FromCanonical(cs).value == s
    ensures FromCanonical(cs).Ok? <==> s.intercept <= INT32_MAX
    ensures r1.x < r3.x && r1.y < r3.y && pts[0].x <= r1.x
    ensures s == Segment(pts[0].x, r3.y - r1.y, r3.x - r1.x, RoundedIntercept(r1, r3, pts[0].x))
    ensures Crosses(BandsOf(pts, epsilon), Through(r1, r3))
    ensures forall k: Line :: Crosses(BandsOf(pts, epsilon), k) ==> k.m <= Through(r1, r3).m
  {
    var r := cs.rectangle;
    SteepestEnds(r, pts, epsilon);
    forall k: Line | Crosses(BandsOf(pts, epsilon), k) ensures k.m <= Through(r[1], r[3]).m {
      ExtremeLines(r, BandsOf(pts, epsilon), k, if r[2].x < r[3].x then r[3].x else r[2].x);
    }
    r1, r3 := r[1], r[3];
    hide RoundedIntercept;
    s := Segment(cs.first, r3.y - r1.y, r3.x - r1.x, RoundedIntercept(r1, r3, cs.first));
  }

  /** Its predictions, point by point. */
  lemma LongSegment(pts: seq<Point>, epsilon: nat, s: Segment, r1: Point, r3: Point)
    requires Ordered(pts) && |pts| > 1 && r1.x < r3.x && r1.y < r3.y && pts[0].x <= r1.x && epsilon <= MAX_Y
    requires s == Segment(pts[0].x, r3.y - r1.y, r3.x - r1.x, RoundedIntercept(r1, r3, pts[0].x))
    requires Crosses(BandsOf(pts, epsilon), Through(r1, r3))
    ensures pts[0].y - epsilon <= s.intercept <= pts[0].y + epsilon && s.intercept >= 0
    ensures forall t :: 0 <= t < |pts| ==> pts[t].y - epsilon - 1 <= Raw(s, pts[t].x) <= pts[t].y + epsilon
  {
    CrossingValue(pts, epsilon, Through(r1, r3), 0);
    InterceptError(r1, r3, pts[0].x);
    hide RoundedIntercept, Through, BandsOf, Crosses, Rise;
    forall t | 0 <= t < |pts|
      ensures pts[t].y - epsilon - 1 <= Raw(s, pts[t].x) <= pts[t].y + epsilon
      ensures t == 0 ==> pts[0].y - epsilon <= s.intercept <= pts[0].y + epsilon
    {
      CrossingValue(pts, epsilon, Through(r1, r3), t);
      RawNear(r1, r3, pts[0].x, pts[t].x, pts[t].y, epsilon);
    }
  }

  /** What a stored model promises: on the t-th point it covers, the prediction before the
      cut-off is at most epsilon above the rank and at most epsilon + 1 below it. */
  lemma PredictionError(cs: CanonicalSegment, pts: seq<Point>, epsilon: nat)
    requires Ordered(pts) && RanksIncrease(pts) && epsilon <= MAX_Y
    requires SegmentOf(cs, pts, epsilon)
    ensures |cs.rectangle| == 4 && (OnePoint(cs) <==> |pts| == 1)
    ensures !OnePoint(cs) ==> cs.rectangle[1].x < cs.rectangle[3].x
    ensures FromCanonical(cs).Ok? ==> var s := FromCanonical(cs).value;
      && GoodSlope(s) && s.key == pts[0].x && (s.dy == 0 <==> |pts| == 1)
      && pts[0].y - epsilon <= s.intercept <= pts[0].y + epsilon && s.intercept >= 0
      && forall t :: 0 <= t < |pts| ==> pts[t].y - epsilon - 1 <= Raw(s, pts[t].x) <= pts[t].y + epsilon
    ensures FromCanonical(cs).Err? ==> pts[0].y + epsilon > INT32_MAX
  {
    if |pts| == 1 {
      OnePointIntercept(pts[0], epsilon);
    } else {
      hide SegmentOf, Rectangle, FromCanonical, RanksIncrease;
      var s, r1, r3 := LongSegmentModel(cs, pts, epsilon);
      LongSegment(pts, epsilon, s, r1, r3);
    }
  }

  /** The model of a group stores the steepest line that crosses all bands: its slope exactly, and its value at
      the first key to the nearest integer. */
  ghost predicate StoresLine(s: Segment, bands: seq<Band>, l: Line)
    requires s.dx > 0
  {
    && Crosses(bands, l) && (forall k: Line :: Crosses(bands, k) ==> k.m <= l.m)
    && l.m == s.dy as real / s.dx as real
    && l.At(s.key) - 0.5 <= s.intercept as real <= l.At(s.key) + 0.5
  }

  /** The model of one point predicts the middle of the point's band, for every key: its own rank, unless the
      band is cut off at zero or at the largest rank. */
  ghost predicate StoresPoint(s: Segment, p: Point, epsilon: nat)
    requires s.dx > 0
  {
    var b := BandOf(p, epsilon);
    forall k :: (epsilon <= p.y <= MAX_Y - epsilon ==> Raw(s, k) == p.y) && 0 <= b.lo + b.hi - 2 * Raw(s, k) <= 1
  }

  ghost predicate Stores(s: Segment, pts: seq<Point>, epsilon: nat)
    requires s.dx > 0 && |pts| > 0
  {
    if |pts| == 1 then StoresPoint(s, pts[0], epsilon) else exists l :: StoresLine(s, BandsOf(pts, epsilon), l)
  }

  lemma StoredPoint(cs: CanonicalSegment, p: Point, epsilon: nat)
    requires InRange(p) && epsilon <= MAX_Y && SegmentOf(cs, [p], epsilon)
    ensures |cs.rectangle| == 4 && OnePoint(cs)
    ensures FromCanonical(cs).Ok? ==> FromCanonical(cs).value.dx > 0 && StoresPoint(FromCanonical(cs).value, p, epsilon)
  {
    var s := Segment(cs.first, 0, 1, TruncDiv(cs.rectangle[0].y + cs.rectangle[1].y, 2));
    forall k ensures Raw(s, k) == s.intercept { assert 0 * (k - s.key) / 1 == 0; }
  }

  /** Which of the feasible lines is stored. */
  lemma StoredLine(cs: CanonicalSegment, pts: seq<Point>, epsilon: nat)
    requires Ordered(pts) && RanksIncrease(pts) && epsilon <= MAX_Y
    requires SegmentOf(cs, pts, epsilon)
    ensures |cs.rectangle| == 4 && (OnePoint(cs) || cs.rectangle[1].x < cs.rectangle[3].x)
    ensures FromCanonical(cs).Ok? ==> FromCanonical(cs).value.dx > 0 && Stores(FromCanonical(cs).value, pts, epsilon)
  {
    if |pts| == 1 {
      assert pts == [pts[0]];
      StoredPoint(cs, pts[0], epsilon);
    } else {
      hide SegmentOf, FromCanonical, RanksIncrease, RoundedIntercept, Crosses, StoresLine, Through;
      var s, r1, r3 := LongSegmentModel(cs, pts, epsilon);
      StoredThrough(s, r1, r3, BandsOf(pts, epsilon));
    }
  }

  lemma StoredThrough(s: Segment, r1: Point, r3: Point, bands: seq<Band>)
    requires r1.x < r3.x && r1.y < r3.y && s.key <= r1.x
    requires s == Segment(s.key, r3.y - r1.y, r3.x - r1.x, RoundedIntercept(r1, r3, s.key))
    requires Crosses(bands, Through(r1, r3)) && forall k: Line :: Crosses(bands, k) ==> k.m <= Through(r1, r3).m
    ensures StoresLine(s, bands, Through(r1, r3))
  {
    hide RoundedIntercept, Crosses;
    InterceptError(r1, r3, s.key);
  }

  lemma OnePointIntercept(p: Point, epsilon: nat)
    requires InRange(p) && epsilon <= MAX_Y
    ensures var b := BandOf(p, epsilon);
      p.y - epsilon <= TruncDiv(b.hi + b.lo, 2) <= p.y + epsilon && TruncDiv(b.hi + b.lo, 2) >= 0
  {
  }

  lemma CrossingValue(pts: seq<Point>, epsilon: nat, l: Line, t: int)
    requires Crosses(BandsOf(pts, epsilon), l) && 0 <= t < |pts| && InRange(pts[t])
    ensures (pts[t].y - epsilon) as real <= l.At(pts[t].x) <= (pts[t].y + epsilon) as real && l.At(pts[t].x) >= 0.0
  {
    assert Fits(BandsOf(pts, epsilon)[t], l);
  }

  lemma FloorInside(v: real, w: real, q: int, f: int, y: int, e: int)
    requires v - 0.5 <= q as real <= v + 0.5 && w - 1.0 < f as real <= w
    requires (y - e) as real <= v + w <= (y + e) as real
    ensures y - e - 1 <= f + q <= y + e
    ensures w == 0.0 ==> y - e <= q
  {
  }
}
