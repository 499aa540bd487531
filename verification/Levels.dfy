/** One level of the index over the sorted keys of the level below. */
module Levels {
  import opened Geometry
  import opened Hull
  import opened LinearModel
  import opened Segmentation
  import opened SegmentationPar
  import opened Prediction

  /** Increasing keys, where only the last two of three or more may be equal: each upper level
      can end with the extra key twice. */
  ghost predicate TailSorted(keys: seq<int>) {
    && (forall i, j :: 0 <= i < j < |keys| ==> keys[i] <= keys[j])
    && (forall i, j :: 0 <= i < j < |keys| && !(|keys| > 2 && i == |keys| - 2) ==> keys[i] < keys[j])
  }

  /** The last index whose key is at most k; of two equal keys, the first. */
  ghost predicate IsFloor(keys: seq<int>, f: int, k: int) {
    && 0 <= f < |keys| && keys[f] <= k
    && (f > 0 ==> keys[f - 1] < keys[f])
    && (f + 1 < |keys| ==> k < keys[f + 1] || keys[f + 1] == keys[f])
  }

  /** Either of two equal last keys will do. */
  ghost predicate Responsible(keys: seq<int>, j: int, k: int) {
    && 0 <= j < |keys| && keys[j] <= k
    && (j + 1 < |keys| ==> k < keys[j + 1] || keys[j + 1] == keys[j])
  }

  function Sentinel(n: nat): Segment { Segment(MAX_KEY, 0, 1, n) }

  /** The keys of a level, without the sentinel. */
  function Entries(level: seq<Segment>): (keys: seq<int>)
    requires |level| >= 1
    ensures |keys| == |level| - 1
    ensures forall j :: 0 <= j < |keys| ==> keys[j] == level[j].key
  {
    seq(|level| - 1, j requires 0 <= j < |level| - 1 => level[j].key)
  }

  /** The prediction for the level below, never past the start of the next segment. */
  function Pos(level: seq<Segment>, j: int, k: int): int
    requires 0 <= j < |level| - 1 && level[j].dx > 0
  {
    var p := Predict(level[j], k);
    if p < level[j + 1].intercept then p else level[j + 1].intercept
  }

  /** One tighter on an indexed key, unless it is a repeated last key. */
  ghost predicate InWindow(pos: int, keys: seq<int>, f: int, k: int, epsilon: int)
    requires 0 <= f < |keys|
  {
    && f - epsilon - 1 <= pos <= f + 1 + epsilon
    && (keys[f] == k && DistinctCount(keys) == |keys| ==> pos <= f + epsilon)
  }

  /** The same before the cut-offs at zero and at the next segment; `top` is the last entry. */
  ghost predicate RawInWindow(raw: int, top: bool, keys: seq<int>, f: int, epsilon: int) {
    && f - epsilon - 1 <= raw
    && (top && DistinctCount(keys) == |keys| && f + 1 < |keys| ==> raw <= f + 1 + epsilon)
  }

  ghost predicate LevelShape(level: seq<Segment>, keys: seq<int>) {
    && |level| >= 2 && |keys| >= 1
    && level[0].key == keys[0] && level[|level| - 1] == Sentinel(|keys|)
    && (forall j :: 0 <= j < |level| ==> GoodSlope(level[j]) && level[j].intercept >= 0)
    && (forall j :: 0 <= j < |level| - 1 ==> level[j].key < MAX_KEY)
    && TailSorted(Entries(level))
  }

  /** Every responsible entry predicts the floor of every key within the window. */
  ghost predicate Windows(level: seq<Segment>, keys: seq<int>, epsilon: int)
    requires LevelShape(level, keys)
  {
    forall j, k, f :: Responsible(Entries(level), j, k) && IsFloor(keys, f, k) ==>
      && InWindow(Pos(level, j, k), keys, f, k, epsilon)
      && RawInWindow(Raw(level[j], k), j + 2 == |level|, keys, f, epsilon)
  }

  ghost predicate LevelOver(level: seq<Segment>, keys: seq<int>, epsilon: nat) {
    LevelShape(level, keys) && Windows(level, keys, epsilon) && Fitted(level, keys, epsilon)
  }

  /** The level's models were fitted to consecutive stretches of the distinct keys. */
  ghost predicate Fitted(level: seq<Segment>, keys: seq<int>, epsilon: nat) {
    exists cuts, models, past :: |models| > 0 && FittedTo(level, keys, epsilon, cuts, models, past)
  }

  ghost predicate FittedTo(level: seq<Segment>, keys: seq<int>, epsilon: nat,
                           cuts: seq<int>, models: seq<Segment>, past: int)
    requires |models| > 0
  {
    && level == WithTail(models, |keys|, past)
    && Cuts(cuts, 0, DistinctCount(keys)) && ModelsOf(models, keys, cuts, epsilon)
  }

  lemma WindowAt(level: seq<Segment>, keys: seq<int>, epsilon: nat, j: int, k: int, f: int)
    requires LevelOver(level, keys, epsilon) && Responsible(Entries(level), j, k) && IsFloor(keys, f, k)
    ensures 0 <= j < |level| - 1 && level[j].dx > 0 && 0 <= f < |keys|
    ensures InWindow(Pos(level, j, k), keys, f, k, epsilon)
    ensures RawInWindow(Raw(level[j], k), j + 2 == |level|, keys, f, epsilon)
  {
  }

  // ---------------------------------------------------------------------------
  // The points of a level
  // ---------------------------------------------------------------------------

  function PointsOf(keys: seq<int>): (pts: seq<Point>)
    ensures |pts| == |keys|
    ensures forall i :: 0 <= i < |keys| ==> pts[i] == Point(keys[i], i)
  {
    seq(|keys|, i requires 0 <= i < |keys| => Point(keys[i], i))
  }

  /** How many distinct keys there are. */
  ghost function DistinctCount(keys: seq<int>): int {
    if |keys| > 2 && keys[|keys| - 2] == keys[|keys| - 1] then |keys| - 1 else |keys|
  }

  lemma {:induction false} StrictDistinct(pts: seq<Point>)
    requires forall i, j :: 0 <= i < j < |pts| ==> pts[i].x < pts[j].x
    ensures Distinct(pts) == pts
  {
    if |pts| > 1 {
      StrictDistinct(pts[..|pts| - 1]);
    }
  }

  lemma PointsAreSorted(keys: seq<int>)
    requires TailSorted(keys) && |keys| <= INT32_MAX
    ensures SortedX(PointsOf(keys)) && AllInRange(PointsOf(keys))
  {
  }

  lemma DistinctKeys(keys: seq<int>)
    requires TailSorted(keys)
    ensures Distinct(PointsOf(keys)) == PointsOf(keys)[..DistinctCount(keys)]
  {
    var pts, n := PointsOf(keys), |keys|;
    if DistinctCount(keys) == n {
      assert pts[..n] == pts;
      StrictDistinct(pts);
    } else {
      var init := pts[..n - 1];
      forall i, j | 0 <= i < j < |init| ensures init[i].x < init[j].x {
        assert keys[i] < keys[j];
      }
      StrictDistinct(init);
      DistinctOfRepeat(pts);
    }
  }

  lemma DistinctOfRepeat(pts: seq<Point>)
    requires |pts| > 1 && pts[|pts| - 1].x == pts[|pts| - 2].x
    ensures Distinct(pts) == Distinct(pts[..|pts| - 1])
  {
  }

  lemma PrefixIsOrdered(keys: seq<int>)
    requires TailSorted(keys) && |keys| <= INT32_MAX
    ensures var d := PointsOf(keys)[..DistinctCount(keys)]; Ordered(d) && ConsecutiveRanks(d)
  {
    var d := PointsOf(keys)[..DistinctCount(keys)];
    forall i, j | 0 <= i < j < |d| ensures d[i].x < d[j].x {
      assert keys[i] < keys[j];
    }
  }

  // ---------------------------------------------------------------------------
  // The models of a level
  // ---------------------------------------------------------------------------

  /** s stores the steepest of all lines that are close enough to keys[a..b]. */
  ghost predicate FittedBest(s: Segment, keys: seq<int>, a: int, b: int, epsilon: nat)
    requires 0 <= a < b <= |keys| && s.dx > 0
  {
    Stores(s, PointsOf(keys)[a..b], epsilon)
  }

  /** s was fitted to keys[a..b] and keeps the error bound there. */
  ghost predicate ModelOf(s: Segment, keys: seq<int>, a: int, b: int, epsilon: nat) {
    && 0 <= a < b <= |keys| && GoodSlope(s) && s.key == keys[a] && (s.dy == 0 <==> b - a == 1)
    && a - epsilon <= s.intercept <= a + epsilon && s.intercept >= 0
    && FittedBest(s, keys, a, b, epsilon)
    && forall t :: a <= t < b ==> t - epsilon - 1 <= Raw(s, keys[t]) <= t + epsilon
  }

  ghost predicate ModelsOf(models: seq<Segment>, keys: seq<int>, cuts: seq<int>, epsilon: nat) {
    && |models| == |cuts| - 1
    && forall j :: 0 <= j < |models| ==> ModelOf(models[j], keys, cuts[j], cuts[j + 1], epsilon)
  }

  lemma SegmentIsModel(cs: CanonicalSegment, keys: seq<int>, a: int, b: int, epsilon: nat)
    requires TailSorted(keys) && |keys| <= INT32_MAX && epsilon <= MAX_Y
    requires SegmentPiece(cs, PointsOf(keys)[..DistinctCount(keys)], epsilon, a, b)
    ensures |cs.rectangle| == 4 && (OnePoint(cs) || cs.rectangle[1].x < cs.rectangle[3].x)
    ensures FromCanonical(cs).Ok? ==> ModelOf(FromCanonical(cs).value, keys, a, b, epsilon)
    ensures FromCanonical(cs).Err? ==> |keys| + epsilon > INT32_MAX
  {
    hide SegmentOf, FromCanonical, Raw, OnePoint, Stores;
    var d := PointsOf(keys)[..DistinctCount(keys)];
    PrefixIsOrdered(keys);
    var pts := d[a..b];
    forall t | 0 <= t < |pts| ensures pts[t] == Point(keys[a + t], a + t) {
      assert pts[t] == d[a + t];
    }
    assert pts == PointsOf(keys)[a..b];
    hide PointsOf;
    PredictionError(cs, pts, epsilon);
    StoredLine(cs, pts, epsilon);
    if FromCanonical(cs).Ok? {
      var s := FromCanonical(cs).value;
      forall t | a <= t < b ensures t - epsilon - 1 <= Raw(s, keys[t]) <= t + epsilon {
        assert pts[t - a] == Point(keys[t], t);
      }
    }
  }

  /** The entries of a level: its models, then the extra entry for keys past the end when the
      last model is flat, then the sentinel. */
  function WithTail(models: seq<Segment>, n: nat, past: int): seq<Segment>
    requires |models| > 0
  {
    (if n > 1 && models[|models| - 1].dy == 0 then models + [Segment(past, 0, 1, n)] else models) + [Sentinel(n)]
  }

  /** The models' keys are the first keys of their stretches. */
  lemma ModelKeys(keys: seq<int>, epsilon: nat, cuts: seq<int>, models: seq<Segment>)
    requires TailSorted(keys) && |keys| >= 1
    requires Cuts(cuts, 0, DistinctCount(keys)) && ModelsOf(models, keys, cuts, epsilon)
    ensures |models| > 0 && models[0].key == keys[0]
    ensures forall j :: 0 <= j < |models| ==>
      GoodSlope(models[j]) && models[j].intercept >= 0 && models[j].key <= keys[|keys| - 1]
    ensures forall i, j :: 0 <= i < j < |models| ==> models[i].key < models[j].key
    ensures |keys| > 1 && |models| == 1 ==> models[0].dy != 0
  {
    hide Raw, FittedBest;
    assert |cuts| > 1;
    forall j | 0 <= j < |models|
      ensures GoodSlope(models[j]) && models[j].intercept >= 0 && models[j].key == keys[cuts[j]] <= keys[|keys| - 1]
    {
      assert ModelOf(models[j], keys, cuts[j], cuts[j + 1], epsilon);
    }
    forall i, j | 0 <= i < j < |models| ensures models[i].key < models[j].key {
      assert cuts[i] < cuts[j] < DistinctCount(keys);
      assert models[i].key == keys[cuts[i]] && models[j].key == keys[cuts[j]];
    }
    assert ModelOf(models[0], keys, cuts[0], cuts[1], epsilon);
  }

  lemma LevelIsShaped(keys: seq<int>, epsilon: nat, cuts: seq<int>, models: seq<Segment>, past: int)
    requires TailSorted(keys) && |keys| >= 1 && keys[|keys| - 1] <= past < MAX_KEY
    requires Cuts(cuts, 0, DistinctCount(keys)) && ModelsOf(models, keys, cuts, epsilon)
    ensures |models| > 0
    ensures LevelShape(WithTail(models, |keys|, past), keys)
    ensures forall j :: 0 <= j < |WithTail(models, |keys|, past)| - 1 ==> WithTail(models, |keys|, past)[j].key <= past
    ensures keys[|keys| - 1] < past ==> forall i, j :: 0 <= i < j < |WithTail(models, |keys|, past)| - 1 ==>
              WithTail(models, |keys|, past)[i].key < WithTail(models, |keys|, past)[j].key
  {
    ModelKeys(keys, epsilon, cuts, models);
    hide Cuts, ModelsOf;
  }

  /** The search window of a fitted model. */
  lemma ModelWindow(keys: seq<int>, epsilon: nat, cuts: seq<int>, models: seq<Segment>, past: int, j: int, k: int,
                    f: int)
    requires TailSorted(keys) && |keys| >= 1 && epsilon >= 1 && keys[|keys| - 1] <= past
    requires Cuts(cuts, 0, DistinctCount(keys)) && ModelsOf(models, keys, cuts, epsilon) && 0 <= j < |models|
    requires LevelShape(WithTail(models, |keys|, past), keys)
    requires Responsible(Entries(WithTail(models, |keys|, past)), j, k) && IsFloor(keys, f, k)
    ensures InWindow(Pos(WithTail(models, |keys|, past), j, k), keys, f, k, epsilon)
    ensures var level := WithTail(models, |keys|, past);
      RawInWindow(Raw(level[j], k), j + 2 == |level|, keys, f, epsilon)
  {
    hide FittedBest;
    var level := WithTail(models, |keys|, past);
    var n, m := |keys|, |models|;
    var e := Entries(level);
    var a, b := cuts[j], cuts[j + 1];
    var s := models[j];
    assert level[j] == s && ModelOf(s, keys, a, b, epsilon);
    assert a <= f by { FloorAbove(keys, a, k, f); }
    if j + 1 < m {
      assert level[j + 1] == models[j + 1] && ModelOf(models[j + 1], keys, b, cuts[j + 2], epsilon);
      assert e[j + 1] == keys[b] && e[j] == keys[a];
      assert b < DistinctCount(keys);
      assert keys[a] < keys[b];
      assert f < b;
    } else {
      assert b == DistinctCount(keys);
      assert level[j + 1].intercept == n;
    }
    hide ModelsOf, LevelShape, Cuts, WithTail;
    RawIsMonotone(s, keys[f], k);
    if f + 1 < b {
      RawIsMonotone(s, k, keys[f + 1]);
    }
  }

  /** The search window: where a responsible entry sends a key, its floor is not far. */
  lemma WindowHolds(keys: seq<int>, epsilon: nat, cuts: seq<int>, models: seq<Segment>, past: int, j: int, k: int,
                    f: int)
    requires TailSorted(keys) && |keys| >= 1 && epsilon >= 1 && keys[|keys| - 1] <= past
    requires Cuts(cuts, 0, DistinctCount(keys)) && ModelsOf(models, keys, cuts, epsilon) && |models| > 0
    requires LevelShape(WithTail(models, |keys|, past), keys)
    requires Responsible(Entries(WithTail(models, |keys|, past)), j, k) && IsFloor(keys, f, k)
    ensures InWindow(Pos(WithTail(models, |keys|, past), j, k), keys, f, k, epsilon)
    ensures var level := WithTail(models, |keys|, past);
      RawInWindow(Raw(level[j], k), j + 2 == |level|, keys, f, epsilon)
  {
    var level := WithTail(models, |keys|, past);
    if j < |models| {
      ModelWindow(keys, epsilon, cuts, models, past, j, k, f);
    } else {
      hide ModelsOf, Cuts, Raw;
      assert f <= DistinctCount(keys) - 1;
      assert level[j] == Segment(past, 0, 1, |keys|);
      FlatSegment(level[j], k);
    }
  }

  /** When the last model has a single key, every key past the end is sent to the size of the level below. */
  lemma PastTheEnd(level: seq<Segment>, keys: seq<int>, epsilon: nat, cuts: seq<int>, models: seq<Segment>, past: int,
                   j: int, k: int)
    requires |models| > 0 && FittedTo(level, keys, epsilon, cuts, models, past) && |keys| > 1
    requires models[|models| - 1].dy == 0 && models[|models| - 1].key < past <= k
    requires Responsible(Entries(level), j, k) && TailSorted(Entries(level))
    ensures 0 <= j < |level| - 1 && level[j].dx > 0 && Pos(level, j, k) == |keys|
  {
    hide ModelsOf, Cuts, FittedBest;
    var last := |models|;
    assert level[last].key == past && level[last - 1].key < past;
    assert j == last;
    FlatSegment(level[j], k);
  }

  lemma FlatSegment(s: Segment, k: int)
    requires s.dy == 0 && s.dx == 1
    ensures Raw(s, k) == s.intercept
  {
  }

  lemma FloorAbove(keys: seq<int>, a: int, k: int, f: int)
    requires TailSorted(keys) && 0 <= a < DistinctCount(keys) && keys[a] <= k && IsFloor(keys, f, k)
    ensures a <= f
  {
  }

  lemma LevelHolds(keys: seq<int>, epsilon: nat, cuts: seq<int>, models: seq<Segment>, past: int)
    requires TailSorted(keys) && |keys| >= 1 && epsilon >= 1 && keys[|keys| - 1] <= past < MAX_KEY
    requires Cuts(cuts, 0, DistinctCount(keys)) && ModelsOf(models, keys, cuts, epsilon)
    ensures |models| > 0 && LevelOver(WithTail(models, |keys|, past), keys, epsilon)
  {
    LevelIsShaped(keys, epsilon, cuts, models, past);
    var level := WithTail(models, |keys|, past);
    assert FittedTo(level, keys, epsilon, cuts, models, past);
    forall j, k, f | Responsible(Entries(level), j, k) && IsFloor(keys, f, k)
      ensures InWindow(Pos(level, j, k), keys, f, k, epsilon)
      ensures RawInWindow(Raw(level[j], k), j + 2 == |level|, keys, f, epsilon)
    {
      WindowHolds(keys, epsilon, cuts, models, past, j, k, f);
    }
  }

  // ---------------------------------------------------------------------------
  // How many entries a level has
  // ---------------------------------------------------------------------------

  /** Groups of w, counted from the end. */
  ghost function UniformCuts(n: nat, w: nat): (g: seq<int>)
    requires w >= 1
    ensures Cuts(g, 0, n)
    ensures n > 0 ==> (|g| - 2) * w < n
    ensures forall k :: 0 <= k < |g| - 1 ==> g[k + 1] - g[k] <= w
  {
    if n == 0 then [0]
    else if n <= w then [0, n]
    else
      var g := UniformCuts(n - w, w);
      assert (|g| - 1) * w == (|g| - 2) * w + w;
      g + [n]
  }

  /** No fitting partition into fewer groups than one per 2 * epsilon + 1 entries is needed. */
  lemma FewGroups(d: seq<Point>, epsilon: nat, cuts: seq<int>, extra: nat)
    requires Ordered(d) && ConsecutiveRanks(d) && epsilon <= MAX_Y && |d| > 0
    requires NearMinimal(d, epsilon, |d|, cuts, extra)
    ensures (|cuts| - 2 - extra) * (2 * epsilon + 1) < |d|
  {
    hide Fittable;
    var w := 2 * epsilon + 1;
    var g := UniformCuts(|d|, w);
    forall k | 0 <= k < |g| - 1 ensures FittablePiece(d, epsilon, g[k], g[k + 1]) {
      HorizontalFits(d, epsilon, g[k], g[k + 1]);
    }
    assert AllFit(d, epsilon, g);
    ProductGrows(w, |cuts| - 2 - extra, |g| - 2);
    assert (|cuts| - 2 - extra) * w == w * (|cuts| - 2 - extra);
    assert (|g| - 2) * w == w * (|g| - 2);
  }

  /** How many groups more than the greedy minimum the chunked segmentation may emit. */
  function ExtraGroups(n: nat): nat { if n < PAR_THRESHOLD then 0 else MAX_THREADS - 1 }

  ghost predicate LevelCount(m: int, keys: seq<int>, epsilon: nat) {
    && (m - 2 - ExtraGroups(|keys|)) * (2 * epsilon + 1) < |keys|
    && (|keys| <= 2 * epsilon + 1 && |keys| < PAR_THRESHOLD ==> m == 1)
    && (|keys| >= 2 ==> 1 <= m < |keys|)
  }

  lemma Quotient(q: int, w: int, n: int)
    requires w >= 3 && q * w < n
    ensures q >= 0 ==> 3 * q < n
    ensures n <= w ==> q <= 0
    ensures (q - 1) * w < n
  {
    if q >= 0 { ProductGrows(q, 3, w); }
    if q >= 1 { ProductGrows(w, 1, q); }
  }

  /** A single model covers every distinct key, so it is flat only for a single key. */
  lemma SingleModel(keys: seq<int>, epsilon: nat, cuts: seq<int>, models: seq<Segment>, past: int)
    requires TailSorted(keys) && |keys| >= 1
    requires Cuts(cuts, 0, DistinctCount(keys)) && ModelsOf(models, keys, cuts, epsilon) && |models| > 0
    ensures |models| == 1 ==> |WithTail(models, |keys|, past)| == 2
  {
    hide Raw, FittedBest;
    assert ModelOf(models[0], keys, cuts[0], cuts[1], epsilon);
  }

  lemma LevelCountHolds(keys: seq<int>, epsilon: nat, cuts: seq<int>, models: seq<Segment>, past: int)
    requires TailSorted(keys) && 1 <= |keys| <= INT32_MAX && 1 <= epsilon <= MAX_Y
    requires Cuts(cuts, 0, DistinctCount(keys)) && ModelsOf(models, keys, cuts, epsilon) && |models| > 0
    requires NearMinimal(PointsOf(keys)[..DistinctCount(keys)], epsilon, DistinctCount(keys), cuts, ExtraGroups(|keys|))
    ensures LevelCount(|WithTail(models, |keys|, past)| - 1, keys, epsilon)
  {
    hide FittedBest;
    var extra := ExtraGroups(|keys|);
    PrefixIsOrdered(keys);
    FewGroups(PointsOf(keys)[..DistinctCount(keys)], epsilon, cuts, extra);
    SingleModel(keys, epsilon, cuts, models, past);
    hide TailSorted, Cuts, ModelsOf, PointsOf, NearMinimal;
    var w, m, q := 2 * epsilon + 1, |WithTail(models, |keys|, past)| - 1, |models| - 1 - extra;
    Quotient(q, w, |keys|);
    assert m - 2 - extra == q || m - 2 - extra == q - 1;
  }
}
