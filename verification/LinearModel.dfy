/** The online fitter: one point at a time, with the hull kept in place. */
module LinearModel {
  import opened Geometry
  import opened Hull

  /** Ranks are 64-bit unsigned in the index. */
  const MAX_Y: int := 0xFFFF_FFFF_FFFF_FFFF

  /** The band around a point, saturated at both ends of the rank type. */
  function BandOf(p: Point, epsilon: nat): Band {
    Band(p.x,
         if p.y <= epsilon then 0 else p.y - epsilon,
         if p.y >= MAX_Y - epsilon then MAX_Y else p.y + epsilon)
  }

  function BandsOf(pts: seq<Point>, epsilon: nat): (bands: seq<Band>)
    ensures |bands| == |pts|
    ensures forall j :: 0 <= j < |pts| ==> bands[j] == BandOf(pts[j], epsilon)
  {
    seq(|pts|, j requires 0 <= j < |pts| => BandOf(pts[j], epsilon))
  }

  ghost predicate InRange(p: Point) { 0 <= p.y <= MAX_Y }

  /** Points that one model may hold: ranks in range, abscissas increasing. */
  ghost predicate Ordered(pts: seq<Point>) {
    && (forall j :: 0 <= j < |pts| ==> InRange(pts[j]))
    && (forall i, j :: 0 <= i < j < |pts| ==> pts[i].x < pts[j].x)
  }

  /** Some line passes within epsilon of every point. */
  ghost predicate Fittable(pts: seq<Point>, epsilon: nat) {
    Feasible(BandsOf(pts, epsilon))
  }

  lemma BandsExtend(pts: seq<Point>, p: Point, epsilon: nat)
    ensures BandsOf(pts + [p], epsilon) == BandsOf(pts, epsilon) + [BandOf(p, epsilon)]
  {
  }

  lemma BandsFacts(pts: seq<Point>, epsilon: nat)
    requires Ordered(pts) && epsilon <= MAX_Y
    ensures WellFormed(BandsOf(pts, epsilon)) && Uniform(BandsOf(pts, epsilon), epsilon == 0)
  {
  }

  datatype Result<+T> = Ok(value: T) | Err(error: string)

  /** The four points handed out for a finished segment, and the first abscissa it covers. */
  datatype CanonicalSegment = CanonicalSegment(rectangle: seq<Point>, first: int)

  /** The segment of one point repeats its two band ends. */
  ghost predicate SegmentOf(cs: CanonicalSegment, pts: seq<Point>, epsilon: nat) {
    && |pts| > 0 && cs.first == pts[0].x && |cs.rectangle| == 4
    && if |pts| == 1 then
         var hi, lo := End(false, BandOf(pts[0], epsilon)), End(true, BandOf(pts[0], epsilon));
         cs.rectangle == [hi, lo, hi, lo]
       else
         Rectangle(cs.rectangle, BandsOf(pts, epsilon))
  }

  class OptimalPiecewiseLinearModel {
    const epsilon: nat
    var lower: seq<Point>
    var upper: seq<Point>
    var first_x: int
    var last_x: int
    var lower_start: nat
    var upper_start: nat
    var points_in_hull: nat
    var rectangle: array<Point>

    /** The points of the current segment, or of the last one once a point was rejected. */
    ghost var pts: seq<Point>

    ghost predicate Valid()
      reads this, rectangle
    {
      && epsilon <= MAX_Y
      && rectangle.Length == 4
      && Ordered(pts)
      && (points_in_hull > 0 ==> points_in_hull == |pts| && last_x == pts[|pts| - 1].x)
      && (points_in_hull == 0 ==> |pts| != 1)
      && (|pts| > 0 ==> first_x == pts[0].x)
      && (|pts| == 1 ==>
            var b := BandOf(pts[0], epsilon);
            && rectangle[0] == End(false, b) && rectangle[1] == End(true, b)
            && upper == [End(false, b)] && lower == [End(true, b)]
            && lower_start == upper_start == 0)
      && (|pts| >= 2 ==>
            State(rectangle[..], lower, lower_start, upper, upper_start, BandsOf(pts, epsilon), epsilon == 0))
    }

    constructor (epsilon: nat)
      requires epsilon <= MAX_Y
      ensures Valid() && fresh(rectangle)
      ensures this.epsilon == epsilon && points_in_hull == 0 && pts == []
    {
      this.epsilon := epsilon;
      lower, upper := [], [];
      first_x, last_x := 0, 0;
      lower_start, upper_start, points_in_hull := 0, 0, 0;
      rectangle := new Point[4](_ => Point(0, 0));
      pts := [];
    }

    method AddPoint(x: int, y: int) returns (r: Result<bool>)
      requires Valid() && InRange(Point(x, y))
      modifies this, rectangle
      ensures Valid() && rectangle == old(rectangle)
      ensures r.Err? <==> old(points_in_hull > 0 && x <= last_x)
      ensures r.Err? ==> pts == old(pts) && points_in_hull == old(points_in_hull)
      ensures r.Ok? && old(points_in_hull) == 0 ==> r.value && pts == [Point(x, y)]
      ensures r.Ok? && old(points_in_hull) > 0 ==> (r.value <==> Fittable(old(pts) + [Point(x, y)], epsilon))
      ensures r.Ok? && old(points_in_hull) > 0 && r.value ==> pts == old(pts) + [Point(x, y)]
      ensures r.Ok? ==> last_x == x
      ensures r.Ok? && r.value ==> points_in_hull == |pts|
      ensures r.Ok? && !r.value ==> pts == old(pts) && points_in_hull == 0 && |pts| >= 2
    {
      if points_in_hull > 0 && x <= last_x {
        return Err("Points must be increasing by x.");
      }
      var p1 := Point(x, if y >= MAX_Y - epsilon then MAX_Y else y + epsilon);
      var p2 := Point(x, if y <= epsilon then 0 else y - epsilon);
      if points_in_hull == 0 {
        StartSegment(p1, p2, y);
        return Ok(true);
      }
      var inside := Extend(p1, p2, y);
      return Ok(inside);
    }

    method StartSegment(p1: Point, p2: Point, ghost y: int)
      requires Valid() && points_in_hull == 0 && InRange(Point(p1.x, y))
      requires p1 == End(false, BandOf(Point(p1.x, y), epsilon)) && p2 == End(true, BandOf(Point(p1.x, y), epsilon))
      modifies this, rectangle
      ensures Valid() && rectangle == old(rectangle) && pts == [Point(p1.x, y)] && last_x == p1.x && points_in_hull == 1
    {
      hide State, Feasible, WellFormed, Uniform;
      last_x := p1.x;
      first_x := p1.x;
      rectangle[0] := p1;
      rectangle[1] := p2;
      upper := [p1];
      lower := [p2];
      upper_start, lower_start := 0, 0;
      points_in_hull := points_in_hull + 1;
      pts := [Point(p1.x, y)];
    }

    /** The band of a further point: kept if some line still crosses them all. */
    method Extend(p1: Point, p2: Point, ghost y: int) returns (inside: bool)
      requires Valid() && points_in_hull > 0 && p1.x > last_x && InRange(Point(p1.x, y))
      requires p1 == End(false, BandOf(Point(p1.x, y), epsilon)) && p2 == End(true, BandOf(Point(p1.x, y), epsilon))
      modifies this, rectangle
      ensures Valid() && rectangle == old(rectangle) && last_x == p1.x
      ensures inside <==> Fittable(old(pts) + [Point(p1.x, y)], epsilon)
      ensures inside ==> pts == old(pts) + [Point(p1.x, y)] && points_in_hull == |pts|
      ensures !inside ==> pts == old(pts) && points_in_hull == 0 && |pts| >= 2
    {
      hide State, Feasible, WellFormed, Uniform;
      last_x := p1.x;
      ghost var p, b := Point(p1.x, y), BandOf(Point(p1.x, y), epsilon);
      ghost var bands := BandsOf(pts, epsilon);
      BandsExtend(pts, p, epsilon);
      BandsFacts(pts + [p], epsilon);
      assert |pts| == 1 ==> bands + [b] == [bands[0], b];
      hide BandOf, End, Ordered;
      inside := true;
      if points_in_hull == 1 {
        AddSecond(p1, p2, bands[0], b);
      } else {
        inside := AddToHull(p1, p2, bands, b);
      }
      if !inside {
        points_in_hull := 0;
        return;
      }
      points_in_hull := points_in_hull + 1;
      pts := pts + [p];
    }

    /** The second point fixes the rectangle; any two bands are crossed by a line. */
    method AddSecond(p1: Point, p2: Point, ghost a: Band, ghost b: Band)
      requires rectangle.Length == 4 && rectangle[0] == End(false, a) && rectangle[1] == End(true, a)
      requires upper == [End(false, a)] && lower == [End(true, a)] && lower_start == upper_start == 0
      requires p1 == End(false, b) && p2 == End(true, b)
      requires WellFormed([a, b]) && Uniform([a, b], epsilon == 0)
      modifies this`lower, this`upper, rectangle
      ensures State(rectangle[..], lower, lower_start, upper, upper_start, [a, b], epsilon == 0)
      ensures Feasible([a, b])
    {
      rectangle[2] := p2;
      rectangle[3] := p1;
      upper := upper + [p1];
      lower := lower + [p2];
      TwoPoints(a, b, epsilon == 0);
      assert rectangle[..] == [End(false, a), End(true, a), p2, p1];
      assert lower == [End(true, a), p2] && upper == [End(false, a), p1];
    }

    /** The case of two points or more: reject the new band or turn the extreme lines onto it. */
    method AddToHull(p1: Point, p2: Point, ghost bands: seq<Band>, ghost b: Band) returns (inside: bool)
      requires rectangle.Length == 4
      requires State(rectangle[..], lower, lower_start, upper, upper_start, bands, epsilon == 0)
      requires NewBand(bands, b) && p1 == End(false, b) && p2 == End(true, b)
      requires Uniform(bands + [b], epsilon == 0)
      modifies this`lower, this`lower_start, this`upper, this`upper_start, rectangle
      ensures inside <==> Feasible(bands + [b])
      ensures inside ==> State(rectangle[..], lower, lower_start, upper, upper_start, bands + [b], epsilon == 0)
      ensures !inside ==> rectangle[..] == old(rectangle[..]) && lower == old(lower) && lower_start == old(lower_start)
      ensures !inside ==> upper == old(upper) && upper_start == old(upper_start)
    {
      hide Shadows, AllUnder, EndsUnder, Turns, IncreasingX, Crosses, IsEnd, Through;
      ghost var flat := epsilon == 0;
      var slope1 := Minus(rectangle[2], rectangle[0]);
      var slope2 := Minus(rectangle[3], rectangle[1]);
      ghost var line1 := Through(rectangle[0], rectangle[2]);
      ghost var line2 := Through(rectangle[1], rectangle[3]);
      EndsBefore(bands, b);
      assert (bands + [b])[|bands|] == b;
      SlopeTests(rectangle[..], bands, b);
      var outside_line1 := Minus(p1, rectangle[2]).Less(slope1);
      var outside_line2 := Minus(p2, rectangle[3]).Greater(slope2);
      if outside_line1 || outside_line2 {
        Outside(rectangle[..], bands, b);
        return false;
      }

      if Minus(p1, rectangle[1]).Less(slope2) {
        LowerSteepest(p1, bands, b);
      } else {
        ChainExtend(false, upper, upper_start, bands, b);
        CrossesExtend(bands, b, line2);
        EndsExtend(bands, b);
      }
      assert Half(rectangle[..], lower, lower_start, upper, upper_start, bands, b);

      if Minus(p2, rectangle[0]).Greater(slope1) {
        RaiseFlattest(p2, bands, b);
      } else {
        ChainExtend(true, lower, lower_start, bands, b);
        CrossesExtend(bands, b, line1);
        EndsExtend(bands, b);
      }
      assert Crosses(bands + [b], Through(rectangle[0], rectangle[2]));
      return true;
    }

    /** The upper end p1 cuts off the steepest line: it now turns on p1. */
    method LowerSteepest(p1: Point, ghost bands: seq<Band>, ghost b: Band)
      requires rectangle.Length == 4
      requires State(rectangle[..], lower, lower_start, upper, upper_start, bands, false)
      requires NewBand(bands, b) && p1 == End(false, b)
      requires Under(false, p1, Through(rectangle[0], rectangle[2]))
      requires StrictlyUnder(true, p1, Through(rectangle[1], rectangle[3]))
      modifies this`lower_start, this`upper, rectangle
      ensures rectangle[0] == old(rectangle[0]) && rectangle[2] == old(rectangle[2])
      ensures Half(rectangle[..], lower, lower_start, upper, upper_start, bands, b)
    {
      hide Shadows, AllUnder, EndsUnder, Turns, IncreasingX, Crosses, IsEnd, Through;
      ghost var line1, line2 := Through(rectangle[0], rectangle[2]), Through(rectangle[1], rectangle[3]);
      ThroughHits(rectangle[0], rectangle[2]);
      ThroughHits(rectangle[1], rectangle[3]);
      EndsBefore(bands, b);
      ChainOrder(true, lower, lower_start, bands);
      // Find extreme slope
      var min_i := Tangent(true, lower, lower_start, p1);
      TangentCrosses(true, bands, lower, lower_start, line2, line1, min_i, p1);
      rectangle[1] := lower[min_i];
      rectangle[3] := p1;
      ChainSuffix(true, lower, lower_start, min_i, bands);
      lower_start := min_i;
      // Hull update
      upper := PushHull(false, upper, upper_start, p1, bands, b, line2);
      ThroughHits(rectangle[1], p1);
      CrossesExtend(bands, b, Through(rectangle[1], p1));
      EndsExtend(bands, b);
    }

    /** The lower end p2 cuts off the flattest line: it now turns on p2. */
    method RaiseFlattest(p2: Point, ghost bands: seq<Band>, ghost b: Band)
      requires rectangle.Length == 4
      requires Half(rectangle[..], lower, lower_start, upper, upper_start, bands, b)
      requires NewBand(bands, b) && p2 == End(true, b) && b.lo < b.hi
      requires StrictlyUnder(false, p2, Through(rectangle[0], rectangle[2]))
      modifies this`upper_start, this`lower, rectangle
      ensures Rectangle(rectangle[..], bands + [b])
      ensures Chain(true, lower, lower_start, bands + [b])
      ensures lower[lower_start] == rectangle[1] && lower[|lower| - 1] == rectangle[2]
      ensures Chain(false, upper, upper_start, bands + [b])
      ensures upper[upper_start] == rectangle[0] && upper[|upper| - 1] == rectangle[3]
    {
      hide Shadows, AllUnder, EndsUnder, Turns, IncreasingX, Crosses, IsEnd, Through;
      ghost var line1, line2 := Through(rectangle[0], rectangle[2]), Through(rectangle[1], rectangle[3]);
      ThroughHits(rectangle[0], rectangle[2]);
      ThroughHits(rectangle[1], rectangle[3]);
      CrossesExtend(bands, b, line2);
      EndsBefore(bands, b);
      Shrink(upper, upper_start, bands, b);
      ChainOrder(false, upper, upper_start, bands + [b]);
      // Find extreme slope
      var max_i := Tangent(false, upper, upper_start, p2);
      TangentCrosses(false, bands, upper, upper_start, line1, line2, max_i, p2);
      rectangle[0] := upper[max_i];
      rectangle[2] := p2;
      ChainSuffix(false, upper, upper_start, max_i, bands + [b]);
      upper_start := max_i;
      // Hull update
      lower := PushHull(true, lower, lower_start, p2, bands, b, line1);
      ThroughHits(rectangle[0], p2);
      CrossesExtend(bands, b, Through(rectangle[0], p2));
      EndsExtend(bands, b);
    }

    method GetSegment() returns (cs: CanonicalSegment)
      requires Valid() && |pts| > 0
      ensures SegmentOf(cs, pts, epsilon)
    {
      if points_in_hull == 1 {
        return CanonicalSegment([rectangle[0], rectangle[1], rectangle[0], rectangle[1]], first_x);
      }
      return CanonicalSegment(rectangle[..], first_x);
    }

    method Reset()
      requires Valid()
      modifies this
      ensures Valid() && points_in_hull == 0 && pts == [] && rectangle == old(rectangle)
    {
      points_in_hull := 0;
      lower, upper := [], [];
      pts := [];
    }
  }

  ghost predicate NewBand(bands: seq<Band>, b: Band) {
    WellFormed(bands + [b])
  }

  lemma EndsBefore(bands: seq<Band>, b: Band)
    requires NewBand(bands, b)
    ensures forall j :: 0 <= j < |bands| ==> bands[j].x < b.x
    ensures forall up, p :: IsEnd(up, p, bands) ==> p.x < b.x
    ensures b.lo <= b.hi
  {
    var all := bands + [b];
    assert all[|bands|] == b;
    forall j | 0 <= j < |bands| ensures bands[j].x < b.x { assert all[j] == bands[j]; }
  }

  /** Between the two updates: the steepest line and the upper chain know the new band,
      the flattest line and the lower chain do not yet. */
  ghost predicate Half(r: seq<Point>, lower: seq<Point>, ls: int, upper: seq<Point>, us: int,
                       bands: seq<Band>, b: Band) {
    && |r| == 4
    && IsEnd(false, r[0], bands) && IsEnd(true, r[2], bands) && r[0].x < r[2].x
    && IsEnd(true, r[1], bands) && IsEnd(false, r[3], bands + [b]) && r[1].x < r[3].x <= b.x
    && Crosses(bands, Through(r[0], r[2]))
    && Crosses(bands + [b], Through(r[1], r[3]))
    && Chain(true, lower, ls, bands) && lower[ls] == r[1] && lower[|lower| - 1] == r[2]
    && Chain(false, upper, us, bands + [b]) && upper[us] == r[0] && upper[|upper| - 1] == r[3]
    && (r[3].x == b.x ==> r[3] == End(false, b))
  }

  /** What a chain knows about the bands before the newest one. */
  lemma Shrink(c: seq<Point>, s: int, bands: seq<Band>, b: Band)
    requires Chain(false, c, s, bands + [b])
    ensures Shadows(false, c, s, bands)
    ensures forall i :: s <= i < |c| && c[i].x < b.x ==> IsEnd(false, c[i], bands)
  {
    var all := bands + [b];
    forall m, l: Line | s <= m < |c| && AllUnder(false, c, m, l)
      ensures EndsUnder(false, bands, c[m].x, c[|c| - 1].x, l)
    {
      assert EndsUnder(false, all, c[m].x, c[|c| - 1].x, l);
      forall j | 0 <= j < |bands| ensures bands[j] == all[j] {}
    }
    forall i | s <= i < |c| && c[i].x < b.x ensures IsEnd(false, c[i], bands) {
      var j :| 0 <= j < |all| && c[i] == End(false, all[j]);
      assert bands[j] == all[j];
    }
  }

  lemma EndsExtend(bands: seq<Band>, b: Band)
    ensures forall up, p :: IsEnd(up, p, bands) ==> IsEnd(up, p, bands + [b])
    ensures forall up :: IsEnd(up, End(up, b), bands + [b])
  {
    forall up, p ensures IsEnd(up, p, bands) ==> IsEnd(up, p, bands + [b]) {
      IsEndExtend(up, p, bands, b);
    }
    forall up ensures IsEnd(up, End(up, b), bands + [b]) {
      IsEndExtend(up, End(up, b), bands, b);
    }
  }

  lemma SlopeTests(r: seq<Point>, bands: seq<Band>, b: Band)
    requires Rectangle(r, bands)
    requires forall j :: 0 <= j < |bands| ==> bands[j].x < b.x
    ensures Minus(End(false, b), r[2]).Less(Minus(r[2], r[0])) <==>
      StrictlyUnder(true, End(false, b), Through(r[0], r[2]))
    ensures Minus(End(true, b), r[3]).Greater(Minus(r[3], r[1])) <==>
      StrictlyUnder(false, End(true, b), Through(r[1], r[3]))
    ensures Minus(End(false, b), r[1]).Less(Minus(r[3], r[1])) <==>
      StrictlyUnder(true, End(false, b), Through(r[1], r[3]))
    ensures Minus(End(true, b), r[0]).Greater(Minus(r[2], r[0])) <==>
      StrictlyUnder(false, End(true, b), Through(r[0], r[2]))
    ensures r[2].x < b.x && r[3].x < b.x
  {
    var p1, p2 := End(false, b), End(true, b);
    CrossSide(r[0], r[2], p1);
    CrossSide(r[0], r[2], p2);
    CrossSide(r[1], r[3], p1);
    CrossSide(r[1], r[3], p2);
    SlopeIsCross(r[0], r[2], p1);
    SlopeIsCross(r[1], r[3], p1);
    SlopeIsCross(r[0], r[2], p2);
    SlopeIsCross(r[1], r[3], p2);
  }

  /** Comparing slopes from either end of a segment is the sign of one cross product. */
  lemma SlopeIsCross(a: Point, b: Point, p: Point)
    ensures Minus(p, b).Less(Minus(b, a)) <==> Cross(a, b, p) < 0
    ensures Minus(p, a).Less(Minus(b, a)) <==> Cross(a, b, p) < 0
    ensures Minus(p, b).Greater(Minus(b, a)) <==> Cross(a, b, p) > 0
    ensures Minus(p, a).Greater(Minus(b, a)) <==> Cross(a, b, p) > 0
    ensures Minus(p, b).Greater(Minus(a, b)) <==> Cross(a, b, p) < 0
    ensures Minus(p, b).Less(Minus(a, b)) <==> Cross(a, b, p) > 0
  {
  }

  lemma TwoPoints(a: Band, b: Band, flat: bool)
    requires WellFormed([a, b]) && Uniform([a, b], flat)
    ensures State([End(false, a), End(true, a), End(true, b), End(false, b)],
                  [End(true, a), End(true, b)], 0, [End(false, a), End(false, b)], 0, [a, b], flat)
    ensures Feasible([a, b])
  {
    var bands := [a, b];
    assert bands[0] == a && bands[1] == b;
    var r := [End(false, a), End(true, a), End(true, b), End(false, b)];
    assert forall up :: IsEnd(up, End(up, bands[0]), bands) && IsEnd(up, End(up, bands[1]), bands);
    ThroughHits(r[0], r[2]);
    ThroughHits(r[1], r[3]);
    forall up: bool ensures Shadows(up, [End(up, a), End(up, b)], 0, bands) {
      var c := [End(up, a), End(up, b)];
      forall m, l: Line | 0 <= m < |c| && AllUnder(up, c, m, l)
        ensures EndsUnder(up, bands, c[m].x, c[1].x, l)
      {
        assert Under(up, c[1], l);
        if m == 0 { assert Under(up, c[0], l); }
      }
    }
    assert Crosses(bands, Through(r[0], r[2]));
  }

  /** A point beyond an extreme line leaves no line at all. */
  lemma Outside(r: seq<Point>, bands: seq<Band>, b: Band)
    requires Rectangle(r, bands)
    requires r[2].x < b.x && r[3].x < b.x
    requires StrictlyUnder(true, End(false, b), Through(r[0], r[2])) ||
      StrictlyUnder(false, End(true, b), Through(r[1], r[3]))
    ensures !Feasible(bands + [b])
  {
    forall l: Line | Crosses(bands + [b], l) ensures false {
      CrossesExtend(bands, b, l);
      ExtremeLines(r, bands, l, b.x);
    }
  }

  /** The walk along a chain to the first worsening, which is the tangent point. */
  method Tangent(up: bool, c: seq<Point>, start: nat, p: Point) returns (best: nat)
    requires start < |c| && IncreasingX(c, start) && Turns(up, c, start)
    requires c[start].x < p.x
    requires forall i :: start <= i < |c| ==>
      c[i].x < p.x || (i == |c| - 1 && c[i].x == p.x && if up then c[i].y < p.y else c[i].y > p.y)
    ensures start <= best < |c| && c[best].x < p.x
    ensures AllUnder(up, c, start, Through(c[best], p))
  {
    var extreme := Minus(c[start], p);
    best := start;
    ThroughHits(c[start], p);
    var i := start + 1;
    while i < |c|
      invariant start < i <= |c| && best == i - 1 && c[best].x < p.x
      invariant extreme == Minus(c[best], p)
      invariant forall j :: start <= j < i ==> Under(up, c[j], Through(c[best], p))
    {
      var val := Minus(c[i], p);
      ghost var l := Through(c[best], p);
      ThroughHits(c[best], p);
      SlopeIsCross(c[best], p, c[i]);
      CrossSide(c[best], p, c[i]);
      if if up then val.Greater(extreme) else val.Less(extreme) {
        forall j | i <= j < |c| ensures Under(up, c[j], l) {
          TailUnder(up, c, start, i, j, l);
        }
        break;
      }
      assert c[i].x < p.x;
      ghost var k := Through(c[i], p);
      ThroughHits(c[i], p);
      forall j | start <= j < i ensures Under(up, c[j], k) {
        SamePoint(up, l, k, c[i].x, p.x, c[j].x);
      }
      extreme := val;
      best := i;
      i := i + 1;
    }
  }

  /** Pops the points that the new one makes redundant, then pushes it. */
  method PushHull(up: bool, c: seq<Point>, start: nat, p: Point, ghost bands: seq<Band>, ghost b: Band,
                  ghost near: Line)
    returns (d: seq<Point>)
    requires Chain(up, c, start, bands) && p == End(up, b)
    requires forall j :: 0 <= j < |bands| ==> bands[j].x < b.x
    requires Crosses(bands, near) && near.At(c[|c| - 1].x) == c[|c| - 1].y as real
    requires StrictlyUnder(!up, p, near)
    ensures |d| > start && d[|d| - 1] == p && d[start] == c[start] && |d| >= start + 2
    ensures Chain(up, d, start, bands + [b])
  {
    hide Shadows, AllUnder, EndsUnder, Crosses, Turns, IncreasingX;
    var end := |c|;
    NoPopYet(up, c, start, p);
    ChainBefore(up, c, start, bands, b);
    while end >= start + 2 &&
          if up then Cross(c[end - 2], c[end - 1], p) >= 0 else Cross(c[end - 2], c[end - 1], p) <= 0
      invariant start < end <= |c|
      invariant PopsSafe(up, c, start, end, p)
      decreases end
    {
      PopStep(up, c, start, end, p);
      end := end - 1;
    }
    d := c[..end] + [p];
    NewTurns(up, c, start, end, p);
    PushKeepsChain(up, c, start, end, bands, b, near);
  }

  /** A line that clears what is left of the chain and p clears all of the chain. */
  ghost predicate PopsSafe(up: bool, c: seq<Point>, start: int, end: int, p: Point)
    requires 0 <= start < end <= |c|
  {
    forall m, l: Line :: start <= m < end && AllUnder(up, c[..end] + [p], m, l) ==> AllUnder(up, c, m, l)
  }

  lemma NoPopYet(up: bool, c: seq<Point>, start: int, p: Point)
    requires 0 <= start < |c|
    ensures PopsSafe(up, c, start, |c|, p)
  {
    var f := c[..|c|] + [p];
    forall m, l: Line | start <= m < |c| && AllUnder(up, f, m, l) ensures AllUnder(up, c, m, l) {
      forall i | m <= i < |c| ensures Under(up, c[i], l) { assert f[i] == c[i]; }
    }
  }

  lemma PopStep(up: bool, c: seq<Point>, start: int, end: int, p: Point)
    requires 0 <= start && start + 2 <= end <= |c|
    requires PopsSafe(up, c, start, end, p)
    requires c[end - 2].x < c[end - 1].x < p.x
    requires if up then Cross(c[end - 2], c[end - 1], p) >= 0 else Cross(c[end - 2], c[end - 1], p) <= 0
    ensures PopsSafe(up, c, start, end - 1, p)
  {
    var e, f := c[..end - 1] + [p], c[..end] + [p];
    forall m, l: Line | start <= m < end - 1 && AllUnder(up, e, m, l) ensures AllUnder(up, c, m, l) {
      assert Under(up, e[end - 2], l) && Under(up, e[end - 1], l);
      PopIsSafe(up, c[end - 2], c[end - 1], p, l);
      forall i | m <= i < |f| ensures Under(up, f[i], l) {
        if i < end - 1 { assert f[i] == e[i]; }
      }
      assert AllUnder(up, f, m, l);
    }
  }

  lemma ChainBefore(up: bool, c: seq<Point>, s: int, bands: seq<Band>, b: Band)
    requires Chain(up, c, s, bands)
    requires forall j :: 0 <= j < |bands| ==> bands[j].x < b.x
    ensures forall i :: s <= i < |c| ==> c[i].x < b.x
    ensures forall i :: s < i < |c| ==> c[i - 1].x < c[i].x
  {
    forall i | s <= i < |c| ensures c[i].x < b.x { assert IsEnd(up, c[i], bands); }
  }

  lemma NewTurns(up: bool, c: seq<Point>, s: int, n: int, p: Point)
    requires 0 <= s < n <= |c| && Turns(up, c, s)
    requires n >= s + 2 ==> if up then Cross(c[n - 2], c[n - 1], p) < 0 else Cross(c[n - 2], c[n - 1], p) > 0
    ensures Turns(up, c[..n] + [p], s)
  {
  }

  lemma ChainOrder(up: bool, c: seq<Point>, s: int, bands: seq<Band>)
    requires Chain(up, c, s, bands)
    ensures forall i :: s <= i < |c| - 1 ==> c[i].x < c[|c| - 1].x
  {
  }
}
