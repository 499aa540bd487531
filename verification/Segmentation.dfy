/** Greedy segmentation of a point sequence, sequential and chunked. */
module Segmentation {
  import opened Geometry
  import opened Hull
  import opened LinearModel

  ghost predicate SortedX(s: seq<Point>) {
    forall i, j :: 0 <= i < j < |s| ==> s[i].x <= s[j].x
  }

  ghost predicate AllInRange(s: seq<Point>) {
    forall i :: 0 <= i < |s| ==> InRange(s[i])
  }

  /** The first point of every run of equal abscissas. */
  ghost function Distinct(s: seq<Point>): (d: seq<Point>)
    ensures |d| <= |s| && (|s| > 0 ==> |d| > 0 && d[0] == s[0] && d[|d| - 1].x == s[|s| - 1].x)
  {
    if |s| <= 1 then s
    else
      var d := Distinct(s[..|s| - 1]);
      if s[|s| - 1].x == s[|s| - 2].x then d else d + [s[|s| - 1]]
  }

  lemma {:induction false} DistinctIsOrdered(s: seq<Point>)
    requires SortedX(s) && AllInRange(s)
    ensures Ordered(Distinct(s))
  {
    if |s| > 1 {
      DistinctIsOrdered(s[..|s| - 1]);
    }
  }

  lemma SortedStep(s: seq<Point>, i: int)
    requires 1 <= i < |s| && SortedX(s[..i])
    ensures SortedX(s[..i + 1]) <==> s[i - 1].x <= s[i].x
    ensures s[i].x < s[i - 1].x ==> !SortedX(s)
  {
    var t := s[..i + 1];
    assert t[i] == s[i] && t[i - 1] == s[i - 1];
    assert s[i - 1].x <= s[i].x ==> forall j :: 0 <= j < i ==> s[..i][j].x <= s[..i][i - 1].x;
  }

  lemma DistinctStep(s: seq<Point>, i: int)
    requires 1 <= i < |s|
    ensures Distinct(s[..i + 1]) == if s[i].x == s[i - 1].x then Distinct(s[..i]) else Distinct(s[..i]) + [s[i]]
  {
    var t := s[..i + 1];
    assert t[..|t| - 1] == s[..i];
  }

  // ---------------------------------------------------------------------------
  // Partitions into consecutive groups
  // ---------------------------------------------------------------------------

  /** cuts[k] .. cuts[k+1] is the k-th group; groups are consecutive and not empty. */
  ghost predicate Cuts(cuts: seq<int>, lo: int, hi: int) {
    && |cuts| >= 1 && cuts[0] == lo && cuts[|cuts| - 1] == hi
    && forall i, j :: 0 <= i < j < |cuts| ==> cuts[i] < cuts[j]
  }

  ghost predicate FittablePiece(d: seq<Point>, epsilon: nat, a: int, b: int) {
    0 <= a <= b <= |d| && Fittable(d[a..b], epsilon)
  }

  ghost predicate AllFit(d: seq<Point>, epsilon: nat, cuts: seq<int>) {
    forall k :: 0 <= k < |cuts| - 1 ==> FittablePiece(d, epsilon, cuts[k], cuts[k + 1])
  }

  /** No group can take the first point of the next one. */
  ghost predicate Greedy(d: seq<Point>, epsilon: nat, cuts: seq<int>) {
    forall k :: 0 <= k < |cuts| - 2 ==> !FittablePiece(d, epsilon, cuts[k], cuts[k + 1] + 1)
  }

  ghost predicate Covers(out: seq<CanonicalSegment>, d: seq<Point>, epsilon: nat, cuts: seq<int>) {
    && |out| == |cuts| - 1
    && forall k :: 0 <= k < |out| ==> SegmentPiece(out[k], d, epsilon, cuts[k], cuts[k + 1])
  }

  ghost predicate SegmentPiece(cs: CanonicalSegment, d: seq<Point>, epsilon: nat, a: int, b: int) {
    0 <= a < b <= |d| && SegmentOf(cs, d[a..b], epsilon)
  }

  lemma FittableSubrange(d: seq<Point>, epsilon: nat, a: int, b: int, a': int, b': int)
    requires FittablePiece(d, epsilon, a, b) && a <= a' <= b' <= b
    ensures FittablePiece(d, epsilon, a', b')
  {
    var big, small := BandsOf(d[a..b], epsilon), BandsOf(d[a'..b'], epsilon);
    var l: Line :| Crosses(big, l);
    forall j | 0 <= j < |small| ensures Fits(small[j], l) {
      assert small[j] == big[j + (a' - a)];
    }
    assert Crosses(small, l);
  }

  /** After k groups the greedy cut is never behind the cut of another fitting partition. */
  lemma {:induction false} GreedyStaysAhead(d: seq<Point>, epsilon: nat, lo: int, hi: int, cuts: seq<int>,
                                            other: seq<int>, k: nat)
    requires 0 <= lo <= hi <= |d| && Cuts(cuts, lo, hi) && Greedy(d, epsilon, cuts)
    requires Cuts(other, lo, hi) && AllFit(d, epsilon, other)
    requires k < |cuts| && k < |other|
    ensures other[k] <= cuts[k]
  {
    if k > 0 {
      GreedyStaysAhead(d, epsilon, lo, hi, cuts, other, k - 1);
      if other[k] > cuts[k] {
        assert k < |cuts| - 1;
        assert FittablePiece(d, epsilon, other[k - 1], other[k]);
        FittableSubrange(d, epsilon, other[k - 1], other[k], cuts[k - 1], cuts[k] + 1);
        assert false;
      }
    }
  }

  /** Greedy is optimal: no partition into fitting groups has fewer of them. */
  lemma GreedyIsMinimal(d: seq<Point>, epsilon: nat, lo: int, hi: int, cuts: seq<int>, other: seq<int>)
    requires 0 <= lo <= hi <= |d| && Cuts(cuts, lo, hi) && Greedy(d, epsilon, cuts)
    requires Cuts(other, lo, hi) && AllFit(d, epsilon, other)
    ensures |cuts| <= |other|
  {
    if |other| < |cuts| {
      GreedyStaysAhead(d, epsilon, lo, hi, cuts, other, |other| - 1);
    }
  }

  /** Every fitting partition of the points has at least count - extra groups. */
  ghost predicate Fewest(count: int, d: seq<Point>, epsilon: nat, extra: int) {
    forall g :: Cuts(g, 0, |d|) && AllFit(d, epsilon, g) ==> count <= |g| - 1 + extra
  }

  lemma GreedyIsFewest(d: seq<Point>, epsilon: nat, cuts: seq<int>, out: seq<CanonicalSegment>)
    requires Cuts(cuts, 0, |d|) && Greedy(d, epsilon, cuts) && Covers(out, d, epsilon, cuts)
    ensures Fewest(|out|, d, epsilon, 0)
  {
    forall g | Cuts(g, 0, |d|) && AllFit(d, epsilon, g) ensures |cuts| - 1 <= |g| - 1 {
      GreedyIsMinimal(d, epsilon, 0, |d|, cuts, g);
    }
  }

  /** Ranks that grow by one: the points are the entries of an array. */
  ghost predicate ConsecutiveRanks(d: seq<Point>) {
    forall i, j :: 0 <= i < j < |d| ==> d[j].y - d[i].y == j - i
  }

  /** 2 * epsilon + 1 entries always fit a horizontal line. */
  lemma HorizontalFits(d: seq<Point>, epsilon: nat, a: int, b: int)
    requires Ordered(d) && ConsecutiveRanks(d) && epsilon <= MAX_Y
    requires 0 <= a < b <= |d| && b - a <= 2 * epsilon + 1
    ensures FittablePiece(d, epsilon, a, b)
  {
    var y := if d[a].y + epsilon <= MAX_Y then d[a].y + epsilon else MAX_Y;
    var l := Line(0.0, y as real);
    var bands := BandsOf(d[a..b], epsilon);
    forall j | 0 <= j < |bands| ensures Fits(bands[j], l) {
      assert d[a..b][j] == d[a + j];
    }
    assert Crosses(bands, l);
  }

  /** So every group that greedy closed has at least 2 * epsilon + 1 entries. */
  lemma FullGroups(d: seq<Point>, epsilon: nat, cuts: seq<int>, k: nat)
    requires Ordered(d) && ConsecutiveRanks(d) && epsilon <= MAX_Y
    requires Cuts(cuts, 0, |d|) && Greedy(d, epsilon, cuts) && k < |cuts| - 2
    ensures cuts[k + 1] - cuts[k] >= 2 * epsilon + 1
  {
    assert cuts[k + 1] < cuts[|cuts| - 1];
    if cuts[k + 1] + 1 - cuts[k] <= 2 * epsilon + 1 {
      HorizontalFits(d, epsilon, cuts[k], cuts[k + 1] + 1);
    }
  }

  lemma {:induction false} GroupsSpan(d: seq<Point>, epsilon: nat, cuts: seq<int>, k: nat)
    requires Ordered(d) && ConsecutiveRanks(d) && epsilon <= MAX_Y
    requires Cuts(cuts, 0, |d|) && Greedy(d, epsilon, cuts) && k < |cuts| - 1
    ensures cuts[k] >= k * (2 * epsilon + 1)
  {
    if k > 0 {
      GroupsSpan(d, epsilon, cuts, k - 1);
      FullGroups(d, epsilon, cuts, k - 1);
    }
  }

  // ---------------------------------------------------------------------------
  // make_segmentation
  // ---------------------------------------------------------------------------

  method MakeSegmentation(input: seq<Point>, epsilon: nat)
    returns (r: Result<seq<CanonicalSegment>>, ghost cuts: seq<int>)
    requires AllInRange(input) && epsilon <= MAX_Y
    ensures r.Err? <==> !SortedX(input)
    ensures r.Ok? ==> var d := Distinct(input);
      && Cuts(cuts, 0, |d|) && AllFit(d, epsilon, cuts) && Greedy(d, epsilon, cuts)
      && Covers(r.value, d, epsilon, cuts) && Fewest(|r.value|, d, epsilon, 0)
  {
    cuts := [0];
    if |input| == 0 {
      return Ok([]), cuts;
    }
    hide Fittable, Pending, SegmentOf, Cuts, AllFit, Greedy, Covers, SortedX, Distinct, Fewest;
    hide OptimalPiecewiseLinearModel.Valid;
    var out: seq<CanonicalSegment> := [];
    var p := input[0];
    var opt := new OptimalPiecewiseLinearModel(epsilon);
    var added := opt.AddPoint(p.x, p.y);
    assert input[..1] == [p];
    SinglePoint(p, epsilon);
    FirstGroup(p, epsilon);

    for i := 1 to |input|
      invariant opt.Valid() && fresh(opt) && fresh(opt.rectangle) && opt.epsilon == epsilon
      invariant opt.points_in_hull > 0 && |opt.pts| > 0
      invariant SortedX(input[..i]) && p.x == input[i - 1].x == opt.last_x
      invariant Pending(Distinct(input[..i]), epsilon, cuts, out, opt.pts)
    {
      var next_p := input[i];
      DistinctStep(input, i);
      ghost var d, before := Distinct(input[..i]), opt.pts;
      SortedStep(input, i);
      if next_p.x == p.x {
        continue;
      }
      p := next_p;
      added := opt.AddPoint(p.x, p.y);
      if added.Err? {
        return Err(added.error), cuts;
      }
      if !added.value {
        var cs := opt.GetSegment();
        CloseGroup(d, epsilon, cuts, out, before, p, cs);
        out := out + [cs];
        cuts := cuts + [|d|];
        added := opt.AddPoint(p.x, p.y);
      } else {
        GrowGroup(d, epsilon, cuts, out, before, p);
      }
    }
    assert input[..|input|] == input;
    var cs := opt.GetSegment();
    LastGroup(Distinct(input), epsilon, cuts, out, opt.pts, cs);
    GreedyIsFewest(Distinct(input), epsilon, cuts + [|Distinct(input)|], out + [cs]);
    return Ok(out + [cs]), cuts + [|Distinct(input)|];
  }

  lemma SinglePoint(p: Point, epsilon: nat)
    requires InRange(p) && epsilon <= MAX_Y
    ensures Fittable([p], epsilon)
  {
    var bands := BandsOf([p], epsilon);
    var l := Line(0.0, bands[0].lo as real);
    assert Crosses(bands, l);
  }

  /** The loop state: all groups but the last are closed, and the last one is the model's points. */
  ghost predicate Pending(d: seq<Point>, epsilon: nat, cuts: seq<int>, out: seq<CanonicalSegment>, pts: seq<Point>) {
    && |cuts| >= 1 && 0 <= cuts[|cuts| - 1] < |d|
    && Cuts(cuts, 0, cuts[|cuts| - 1])
    && d[cuts[|cuts| - 1]..] == pts
    && AllFit(d, epsilon, cuts) && Fittable(pts, epsilon)
    && Greedy(d, epsilon, cuts + [|d|])
    && Covers(out, d, epsilon, cuts)
  }

  /** Closed groups do not see the points that come later. */
  lemma PendingPrefix(d: seq<Point>, epsilon: nat, cuts: seq<int>, out: seq<CanonicalSegment>, pts: seq<Point>,
                      p: Point)
    requires Pending(d, epsilon, cuts, out, pts)
    ensures var e := d + [p]; AllFit(e, epsilon, cuts) && Covers(out, e, epsilon, cuts)
    ensures forall k :: 0 <= k < |cuts| - 1 ==> !FittablePiece(d + [p], epsilon, cuts[k], cuts[k + 1] + 1)
  {
    hide Fittable, SegmentOf;
    var e := d + [p];
    var all := cuts + [|d|];
    forall k | 0 <= k < |cuts| - 1
      ensures FittablePiece(e, epsilon, cuts[k], cuts[k + 1]) && !FittablePiece(e, epsilon, cuts[k], cuts[k + 1] + 1)
    {
      assert 0 <= cuts[k] < cuts[k + 1] <= cuts[|cuts| - 1];
      assert FittablePiece(d, epsilon, cuts[k], cuts[k + 1]);
      assert e[cuts[k]..cuts[k + 1]] == d[cuts[k]..cuts[k + 1]];
      assert all[k] == cuts[k] && all[k + 1] == cuts[k + 1];
      assert !FittablePiece(d, epsilon, all[k], all[k + 1] + 1);
      assert e[cuts[k]..cuts[k + 1] + 1] == d[cuts[k]..cuts[k + 1] + 1];
    }
    forall k | 0 <= k < |out| ensures SegmentPiece(out[k], e, epsilon, cuts[k], cuts[k + 1]) {
      assert SegmentPiece(out[k], d, epsilon, cuts[k], cuts[k + 1]);
      assert e[cuts[k]..cuts[k + 1]] == d[cuts[k]..cuts[k + 1]];
    }
  }

  lemma FirstGroup(p: Point, epsilon: nat)
    requires Fittable([p], epsilon)
    ensures Pending(Distinct([p]), epsilon, [0], [], [p]) && SortedX([p])
  {
  }

  lemma GrowGroup(d: seq<Point>, epsilon: nat, cuts: seq<int>, out: seq<CanonicalSegment>, pts: seq<Point>, p: Point)
    requires Pending(d, epsilon, cuts, out, pts) && Fittable(pts + [p], epsilon)
    ensures Pending(d + [p], epsilon, cuts, out, pts + [p])
  {
    hide Fittable, SegmentOf;
    PendingPrefix(d, epsilon, cuts, out, pts, p);
    assert (d + [p])[cuts[|cuts| - 1]..] == pts + [p];
  }

  lemma CloseGroup(d: seq<Point>, epsilon: nat, cuts: seq<int>, out: seq<CanonicalSegment>, pts: seq<Point>,
                   p: Point, cs: CanonicalSegment)
    requires Pending(d, epsilon, cuts, out, pts) && !Fittable(pts + [p], epsilon)
    requires SegmentOf(cs, pts, epsilon) && InRange(p) && epsilon <= MAX_Y
    ensures Pending(d + [p], epsilon, cuts + [|d|], out + [cs], [p])
  {
    hide Fittable, SegmentOf;
    PendingPrefix(d, epsilon, cuts, out, pts, p);
    SinglePoint(p, epsilon);
    var e := d + [p];
    var last := cuts[|cuts| - 1];
    assert e[last..|d|] == pts;
    assert e[last..|d| + 1] == pts + [p];
    assert e[|d|..] == [p];
    var cuts' := cuts + [|d|];
    forall k | 0 <= k < |out + [cs]| ensures SegmentPiece((out + [cs])[k], e, epsilon, cuts'[k], cuts'[k + 1]) {
      if k < |out| { assert SegmentPiece(out[k], e, epsilon, cuts[k], cuts[k + 1]); }
    }
    assert AllFit(e, epsilon, cuts') by {
      forall k | 0 <= k < |cuts'| - 1 ensures FittablePiece(e, epsilon, cuts'[k], cuts'[k + 1]) {
        if k < |cuts| - 1 { assert FittablePiece(e, epsilon, cuts[k], cuts[k + 1]); }
      }
    }
    var all := cuts' + [|e|];
    forall k | 0 <= k < |all| - 2 ensures !FittablePiece(e, epsilon, all[k], all[k + 1] + 1) {
      if k < |cuts| - 1 { assert !FittablePiece(e, epsilon, cuts[k], cuts[k + 1] + 1); }
    }
  }

  lemma LastGroup(d: seq<Point>, epsilon: nat, cuts: seq<int>, out: seq<CanonicalSegment>, pts: seq<Point>,
                  cs: CanonicalSegment)
    requires Pending(d, epsilon, cuts, out, pts) && SegmentOf(cs, pts, epsilon)
    ensures var all := cuts + [|d|];
      Cuts(all, 0, |d|) && AllFit(d, epsilon, all) && Greedy(d, epsilon, all) && Covers(out + [cs], d, epsilon, all)
  {
    hide Fittable, SegmentOf;
    var all := cuts + [|d|];
    assert d[cuts[|cuts| - 1]..|d|] == pts;
    forall k | 0 <= k < |all| - 1 ensures FittablePiece(d, epsilon, all[k], all[k + 1]) {
      if k < |cuts| - 1 { assert FittablePiece(d, epsilon, cuts[k], cuts[k + 1]); }
    }
    forall k | 0 <= k < |out + [cs]| ensures SegmentPiece((out + [cs])[k], d, epsilon, all[k], all[k + 1]) {
      if k < |out| { assert SegmentPiece(out[k], d, epsilon, cuts[k], cuts[k + 1]); }
    }
  }
}
