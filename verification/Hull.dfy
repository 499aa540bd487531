/** What the incremental hull keeps true: the two extreme lines cross every band seen so far,
    and the two chains that survive still decide which later lines do. */
module Hull {
  import opened Geometry

  /** The vertical interval at x that a line has to cross. */
  datatype Band = Band(x: int, lo: int, hi: int)

  /** The lower end of the band with `up`, the upper end otherwise. */
  function End(up: bool, b: Band): Point {
    Point(b.x, if up then b.lo else b.hi)
  }

  ghost predicate Fits(b: Band, l: Line) {
    Under(true, End(true, b), l) && Under(false, End(false, b), l)
  }

  ghost predicate Crosses(bands: seq<Band>, l: Line) {
    forall j :: 0 <= j < |bands| ==> Fits(bands[j], l)
  }

  ghost predicate Feasible(bands: seq<Band>) {
    exists l: Line :: Crosses(bands, l)
  }

  ghost predicate WellFormed(bands: seq<Band>) {
    && (forall j :: 0 <= j < |bands| ==> bands[j].lo <= bands[j].hi)
    && (forall i, j :: 0 <= i < j < |bands| ==> bands[i].x < bands[j].x)
  }

  ghost predicate IsEnd(up: bool, p: Point, bands: seq<Band>) {
    exists j :: 0 <= j < |bands| && p == End(up, bands[j])
  }

  ghost predicate AllUnder(up: bool, c: seq<Point>, s: int, l: Line) {
    forall i :: 0 <= s <= i < |c| ==> Under(up, c[i], l)
  }

  ghost predicate EndsUnder(up: bool, bands: seq<Band>, x0: int, x1: int, l: Line) {
    forall j :: 0 <= j < |bands| && x0 <= bands[j].x <= x1 ==> Under(up, End(up, bands[j]), l)
  }

  /** Every strict turn of the chain, from s on, is towards the bands. */
  ghost predicate Turns(up: bool, c: seq<Point>, s: int) {
    forall i :: 0 <= s <= i < |c| - 2 ==>
      if up then Cross(c[i], c[i + 1], c[i + 2]) < 0 else Cross(c[i], c[i + 1], c[i + 2]) > 0
  }

  ghost predicate IncreasingX(c: seq<Point>, s: int) {
    forall i, j :: 0 <= s <= i < j < |c| ==> c[i].x < c[j].x
  }

  /** A line that clears the chain from any of its points on clears every band end in that range. */
  ghost predicate Shadows(up: bool, c: seq<Point>, s: int, bands: seq<Band>) {
    forall m, l: Line :: 0 <= s <= m < |c| && AllUnder(up, c, m, l) ==>
      EndsUnder(up, bands, c[m].x, c[|c| - 1].x, l)
  }

  ghost predicate Chain(up: bool, c: seq<Point>, s: int, bands: seq<Band>) {
    && 0 <= s < |c|
    && (forall i :: s <= i < |c| ==> IsEnd(up, c[i], bands))
    && IncreasingX(c, s)
    && Turns(up, c, s)
    && Shadows(up, c, s, bands)
  }

  /** r0 and r2 span the flattest line that crosses the bands, r1 and r3 the steepest one. */
  ghost predicate Rectangle(r: seq<Point>, bands: seq<Band>) {
    && |r| == 4
    && IsEnd(false, r[0], bands) && IsEnd(true, r[2], bands) && r[0].x < r[2].x
    && IsEnd(true, r[1], bands) && IsEnd(false, r[3], bands) && r[1].x < r[3].x
    && Crosses(bands, Through(r[0], r[2]))
    && Crosses(bands, Through(r[1], r[3]))
  }

  /** `flat` says that all bands are single points, which happens exactly for epsilon 0. */
  ghost predicate Uniform(bands: seq<Band>, flat: bool) {
    forall j :: 0 <= j < |bands| ==> (bands[j].lo == bands[j].hi <==> flat)
  }

  ghost predicate State(r: seq<Point>, lower: seq<Point>, ls: int, upper: seq<Point>, us: int,
                        bands: seq<Band>, flat: bool) {
    && |bands| >= 2 && WellFormed(bands) && Uniform(bands, flat)
    && Rectangle(r, bands)
    && Chain(true, lower, ls, bands) && lower[ls] == r[1] && lower[|lower| - 1] == r[2]
    && Chain(false, upper, us, bands) && upper[us] == r[0] && upper[|upper| - 1] == r[3]
    && (flat ==> r[0] == r[1] && r[2] == r[3])
  }

  // ---------------------------------------------------------------------------
  // The extreme lines
  // ---------------------------------------------------------------------------

  /** The rectangle is what its name says: any line that crosses the bands has a slope between
      the two extreme ones, and to the right of the rectangle it runs between the two lines. */
  lemma ExtremeLines(r: seq<Point>, bands: seq<Band>, l: Line, x: int)
    requires Rectangle(r, bands) && Crosses(bands, l)
    requires r[2].x <= x && r[3].x <= x
    ensures Through(r[0], r[2]).m <= l.m <= Through(r[1], r[3]).m
    ensures Through(r[0], r[2]).At(x) <= l.At(x) <= Through(r[1], r[3]).At(x)
  {
    ThroughHits(r[0], r[2]);
    ThroughHits(r[1], r[3]);
    OrderedOutside(true, Through(r[0], r[2]), l, r[0].x, r[2].x, x);
    OrderedOutside(false, Through(r[1], r[3]), l, r[1].x, r[3].x, x);
  }

  lemma CrossesExtend(bands: seq<Band>, b: Band, l: Line)
    ensures Crosses(bands + [b], l) <==> Crosses(bands, l) && Fits(b, l)
  {
    var all := bands + [b];
    if Crosses(all, l) {
      assert Fits(all[|bands|], l);
      forall j | 0 <= j < |bands| ensures Fits(bands[j], l) { assert all[j] == bands[j]; }
    }
  }

  lemma IsEndExtend(up: bool, p: Point, bands: seq<Band>, b: Band)
    ensures IsEnd(up, p, bands) ==> IsEnd(up, p, bands + [b])
    ensures IsEnd(up, End(up, b), bands + [b])
  {
    if IsEnd(up, p, bands) {
      var j :| 0 <= j < |bands| && p == End(up, bands[j]);
      assert (bands + [b])[j] == bands[j];
    }
    assert (bands + [b])[|bands|] == b;
  }

  // ---------------------------------------------------------------------------
  // The tangent from a new point to a chain
  // ---------------------------------------------------------------------------

  /** Two lines through p keep their order everywhere to the left of p. */
  lemma SamePoint(up: bool, k: Line, l: Line, x0: int, xp: int, x: int)
    requires x <= x0 < xp
    requires k.At(xp) == l.At(xp)
    requires Beyond(up, k, l, x0)
    ensures Beyond(up, k, l, x)
  {
    OrderedOutside(!up, k, l, x0, xp, x);
  }

  /** The distance between two lines changes with the difference of their slopes. */
  lemma GapGrows(l: Line, t: Line, x0: int, x1: int)
    ensures l.At(x1) - t.At(x1) == l.At(x0) - t.At(x0) + (l.m - t.m) * (x1 - x0) as real
  {
    var d := l.m - t.m;
    assert d * x1 as real - d * x0 as real == d * (x1 - x0) as real;
  }

  /** A strict turn takes the chain further away from a line it was moving away from. */
  lemma TurnGoesDeeper(up: bool, a: Point, b: Point, c: Point, l: Line)
    requires a.x < b.x < c.x && (if up then Cross(a, b, c) < 0 else Cross(a, b, c) > 0)
    requires Depth(up, b, l) > Depth(up, a, l)
    ensures Depth(up, c, l) > Depth(up, b, l)
  {
    var t := Through(a, b);
    ThroughHits(a, b);
    CrossSide(a, b, c);
    var d := l.m - t.m;
    GapGrows(l, t, a.x, b.x);
    GapGrows(l, t, b.x, c.x);
    hide Through, Cross;
    SignOfProduct((b.x - a.x) as real, d);
    SignOfProduct((c.x - b.x) as real, d);
  }

  /** Once the walk meets a point strictly under its line, strict turns keep all later ones under it. */
  lemma {:induction false} TailUnder(up: bool, c: seq<Point>, s: int, i: int, j: int, l: Line)
    requires 0 <= s < i <= j < |c|
    requires IncreasingX(c, s) && Turns(up, c, s)
    requires Under(!up, c[i - 1], l) && StrictlyUnder(up, c[i], l)
    ensures StrictlyUnder(up, c[j], l)
    ensures Depth(up, c[j], l) > Depth(up, c[j - 1], l)
    decreases j
  {
    hide Line.At, Cross;
    if j > i {
      TailUnder(up, c, s, i, j - 1, l);
      TurnGoesDeeper(up, c[j - 2], c[j - 1], c[j], l);
    }
  }

  ghost function Depth(up: bool, p: Point, l: Line): real {
    if up then l.At(p.x) - p.y as real else p.y as real - l.At(p.x)
  }

  /** The line from the tangent point to the new point crosses all the earlier bands.
      `near` is the extreme line the chain starts on, which the new point has broken; `far` is
      the other one, which still passes on the right side of the new point. */
  lemma TangentCrosses(up: bool, bands: seq<Band>, c: seq<Point>, s: int, near: Line, far: Line, m: int, p: Point)
    requires forall j :: 0 <= j < |bands| ==> bands[j].x < p.x
    requires Crosses(bands, near) && Crosses(bands, far)
    requires 0 <= s <= m < |c| && c[|c| - 1].x <= p.x && c[s].x < p.x && c[m].x < p.x
    requires Shadows(up, c, s, bands)
    requires near.At(c[s].x) == c[s].y as real && far.At(c[|c| - 1].x) == c[|c| - 1].y as real
    requires IsEnd(up, c[m], bands) && AllUnder(up, c, s, Through(c[m], p))
    requires StrictlyUnder(up, p, near) && Under(!up, p, far)
    ensures Crosses(bands, Through(c[m], p))
  {
    var l := Through(c[m], p);
    ThroughHits(c[m], p);
    var last := c[|c| - 1];
    assert Under(up, c[s], l) && Under(up, last, l);
    assert EndsUnder(up, bands, c[s].x, last.x, l);
    forall j | 0 <= j < |bands| ensures Fits(bands[j], l) {
      var x := bands[j].x;
      var e, o := End(up, bands[j]), End(!up, bands[j]);
      assert Fits(bands[j], near) && Fits(bands[j], far);
      assert Under(up, e, l) by {
        if x < c[s].x {
          OrderedOutside(!up, near, l, c[s].x, p.x, x);
        } else if x > last.x {
          OrderedBetween(up, far, l, last.x, p.x, x);
        }
      }
      assert Under(up, c[m], near) && Under(up, c[m], far) by {
        var q :| 0 <= q < |bands| && c[m] == End(up, bands[q]);
        assert Fits(bands[q], near) && Fits(bands[q], far);
      }
      assert Under(!up, o, l) by {
        if x >= c[m].x {
          OrderedBetween(up, l, near, c[m].x, p.x, x);
        } else {
          OrderedOutside(!up, l, far, c[m].x, p.x, x);
        }
      }
    }
  }

  // ---------------------------------------------------------------------------
  // Dropping and adding chain points
  // ---------------------------------------------------------------------------

  /** A point on or under the segment between its neighbours adds nothing to the chain. */
  lemma PopIsSafe(up: bool, a: Point, q: Point, p: Point, l: Line)
    requires a.x < q.x < p.x
    requires if up then Cross(a, q, p) >= 0 else Cross(a, q, p) <= 0
    requires Under(up, a, l) && Under(up, p, l)
    ensures Under(up, q, l)
  {
    var t := Through(a, q);
    ThroughHits(a, q);
    CrossSide(a, q, p);
    OrderedBetween(up, t, l, a.x, p.x, q.x);
  }

  /** A suffix of a chain is a chain, and a later band past its end leaves it one. */
  lemma ChainSuffix(up: bool, c: seq<Point>, s: int, m: int, bands: seq<Band>)
    requires Chain(up, c, s, bands) && s <= m < |c|
    ensures Chain(up, c, m, bands)
  {
  }

  lemma ChainExtend(up: bool, c: seq<Point>, s: int, bands: seq<Band>, b: Band)
    requires Chain(up, c, s, bands) && c[|c| - 1].x < b.x
    ensures Chain(up, c, s, bands + [b])
  {
    forall i | s <= i < |c| ensures IsEnd(up, c[i], bands + [b]) { IsEndExtend(up, c[i], bands, b); }
    forall m, l: Line | s <= m < |c| && AllUnder(up, c, m, l)
      ensures EndsUnder(up, bands + [b], c[m].x, c[|c| - 1].x, l)
    {
      assert EndsUnder(up, bands, c[m].x, c[|c| - 1].x, l);
    }
  }

  /** Pushing the new end after popping: `near` ran through the old last point and strictly
      beyond the new one, so the ends that were never added lie under the new edge. */
  lemma PushKeepsChain(up: bool, c: seq<Point>, s: int, n: int, bands: seq<Band>, b: Band, near: Line)
    requires Chain(up, c, s, bands) && s < n <= |c|
    requires forall j :: 0 <= j < |bands| ==> bands[j].x < b.x
    requires Crosses(bands, near) && near.At(c[|c| - 1].x) == c[|c| - 1].y as real
    requires StrictlyUnder(!up, End(up, b), near)
    requires Turns(up, c[..n] + [End(up, b)], s)
    requires forall m, l: Line :: s <= m < n && AllUnder(up, c[..n] + [End(up, b)], m, l) ==> AllUnder(up, c, m, l)
    ensures Chain(up, c[..n] + [End(up, b)], s, bands + [b])
  {
    var p := End(up, b);
    var d := c[..n] + [p];
    forall i | s <= i < |d| ensures IsEnd(up, d[i], bands + [b]) {
      IsEndExtend(up, d[i], bands, b);
      if i < n { assert d[i] == c[i]; }
    }
    assert forall i :: s <= i < n ==> d[i].x < p.x by {
      forall i | s <= i < n ensures d[i].x < p.x {
        assert IsEnd(up, c[i], bands);
      }
    }
    forall m, l: Line | s <= m < |d| && AllUnder(up, d, m, l)
      ensures EndsUnder(up, bands + [b], d[m].x, d[|d| - 1].x, l)
    {
      PushShadow(up, c, s, n, bands, b, near, m, l);
    }
  }

  lemma PushShadow(up: bool, c: seq<Point>, s: int, n: int, bands: seq<Band>, b: Band, near: Line, m: int, l: Line)
    requires Chain(up, c, s, bands) && s < n <= |c|
    requires forall j :: 0 <= j < |bands| ==> bands[j].x < b.x
    requires Crosses(bands, near) && near.At(c[|c| - 1].x) == c[|c| - 1].y as real
    requires StrictlyUnder(!up, End(up, b), near)
    requires s <= m <= n && AllUnder(up, c[..n] + [End(up, b)], m, l)
    requires forall m, l: Line :: s <= m < n && AllUnder(up, c[..n] + [End(up, b)], m, l) ==> AllUnder(up, c, m, l)
    ensures EndsUnder(up, bands + [b], (c[..n] + [End(up, b)])[m].x, b.x, l)
  {
    var p := End(up, b);
    var d := c[..n] + [p];
    var all := bands + [b];
    var last := c[|c| - 1];
    assert Under(up, p, l) by { assert d[n] == p; }
    forall j | 0 <= j < |all| && d[m].x <= all[j].x <= b.x ensures Under(up, End(up, all[j]), l) {
      if j < |bands| {
        assert all[j] == bands[j];
        assert m < n;
        assert d[m] == c[m];
        assert AllUnder(up, c, m, l);
        if all[j].x > last.x {
          assert Under(up, last, l);
          assert last.x < b.x by { assert IsEnd(up, last, bands); }
          OrderedBetween(up, near, l, last.x, b.x, all[j].x);
          assert Fits(bands[j], near);
        } else {
          assert EndsUnder(up, bands, c[m].x, last.x, l);
        }
      }
    }
  }
}
