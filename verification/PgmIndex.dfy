/** The recursive index: levels of models over models, and the search through them. */
module PgmIndex {
  import opened LinearModel
  import opened Order
  import opened Hull
  import opened Geometry
  import opened Segmentation
  import opened SegmentationPar
  import opened Prediction
  import opened Levels

  const MAX_LEVEL: nat := 5
  const MAX_MODEL_SIZE: nat := 2560
  const LINEAR_SEARCH_THRESHOLD: nat := 32

  /** Indexed keys: increasing, and below the two largest values of the key type. */
  ghost predicate Indexable(keys: seq<int>) {
    && Strict(keys)
    && (forall i :: 0 <= i < |keys| ==> 0 <= keys[i] < MAX_KEY - 1)
  }

  function SubEps(x: int, epsilon: int): int { if x <= epsilon then 0 else x - epsilon }

  function AddEps(x: int, epsilon: int, size: int): int {
    if x + epsilon + 2 >= size then size else x + epsilon + 2
  }

  /** Level l, sentinel included. */
  function Level(segments: seq<Segment>, offsets: seq<int>, l: int): seq<Segment>
    requires 0 <= l < |offsets| - 1 && 0 <= offsets[l] <= offsets[l + 1] <= |segments|
  {
    segments[offsets[l]..offsets[l + 1]]
  }

  ghost predicate Offsets(segments: seq<Segment>, offsets: seq<int>) {
    && |offsets| >= 1 && offsets[0] == 0 && offsets[|offsets| - 1] == |segments|
    && (forall l :: 0 <= l < |offsets| - 1 ==> offsets[l] + 2 <= offsets[l + 1])
    && (forall i, l :: 0 <= i <= l < |offsets| ==> 0 <= offsets[i] <= offsets[l] <= |segments|)
  }

  /** The keys that level l indexes: the data, or the entries one level down. */
  ghost function KeysBelow(data: seq<int>, segments: seq<Segment>, offsets: seq<int>, l: int): seq<int>
    requires Offsets(segments, offsets) && 0 <= l < |offsets| - 1
  {
    if l == 0 then data else Entries(Level(segments, offsets, l - 1))
  }

  ghost predicate LevelInPlace(data: seq<int>, epsilon: nat, epsilonRecursive: nat, segments: seq<Segment>,
                               offsets: seq<int>, l: int)
    requires Offsets(segments, offsets) && 0 <= l < |offsets| - 1
  {
    var level, below := Level(segments, offsets, l), KeysBelow(data, segments, offsets, l);
    var e := if l == 0 then epsilon else epsilonRecursive;
    LevelOver(level, below, e) && LevelCount(|level| - 1, below, e)
  }

  /** Levels so far; the data's own level has strictly increasing entries. */
  ghost predicate LevelsOver(data: seq<int>, epsilon: nat, epsilonRecursive: nat, segments: seq<Segment>,
                             offsets: seq<int>) {
    && Offsets(segments, offsets) && |offsets| >= 2
    && (forall l :: 0 <= l < |offsets| - 1 ==> LevelInPlace(data, epsilon, epsilonRecursive, segments, offsets, l))
    && (forall l :: 1 <= l < |offsets| - 1 ==> offsets[l] - offsets[l - 1] > 2)
    && (forall i, j :: 0 <= i < j < offsets[1] - 1 ==> segments[i].key < segments[j].key)
  }

  /** A finished index: the top level has one model. */
  ghost predicate IndexOver(data: seq<int>, epsilon: nat, epsilonRecursive: nat, segments: seq<Segment>,
                            offsets: seq<int>) {
    && LevelsOver(data, epsilon, epsilonRecursive, segments, offsets)
    && offsets[|offsets| - 1] - offsets[|offsets| - 2] == 2
  }

  /** The cast to an unsigned 64-bit integer that the comparison with the next intercept makes. */
  function ToSize(i: int): nat { if i < 0 then i % 0x1_0000_0000_0000_0000 else i }

  function MinSize(p: nat, intercept: int): nat { if p < ToSize(intercept) then p else ToSize(intercept) }

  /** The segmentation runs in one piece. */
  predicate OneChunk(n: nat, procs: nat, threads: nat)
    requires procs >= 1 && threads >= 1
  {
    n < PAR_THRESHOLD || Workers(procs, threads) == 1
  }

  /** What the last model at or below k predicts, cut off before the next one. */
  ghost predicate Predicted(segments: seq<Segment>, offsets: seq<int>, k: int, pos: nat) {
    exists it :: LastBelow(segments, offsets, k, it) && PredictedBy(segments, it, k, pos)
  }

  ghost predicate LastBelow(segments: seq<Segment>, offsets: seq<int>, k: int, it: int) {
    && |offsets| > 1 && 0 <= it < offsets[1] - 1 < |segments| && segments[it].key <= k
    && forall j :: it < j < offsets[1] - 1 ==> k < segments[j].key
  }

  ghost predicate PredictedBy(segments: seq<Segment>, it: int, k: int, pos: nat)
    requires 0 <= it < |segments| - 1
  {
    segments[it].dx > 0 && pos == MinSize(Predict(segments[it], k), segments[it + 1].intercept)
  }

  /** The linear scan takes a sentinel for an entry at the largest value of the key type. */
  predicate Searchable(epsilonRecursive: nat, key: int) {
    key <= MAX_KEY && (epsilonRecursive <= LINEAR_SEARCH_THRESHOLD ==> key < MAX_KEY)
  }

  // ---------------------------------------------------------------------------
  // Appending a level
  // ---------------------------------------------------------------------------

  lemma AppendLevel(segments: seq<Segment>, offsets: seq<int>, level: seq<Segment>)
    requires Offsets(segments, offsets) && |level| >= 2
    ensures var s, o := segments + level, offsets + [|segments| + |level|];
      && Offsets(s, o)
      && Level(s, o, |offsets| - 1) == level
      && forall l :: 0 <= l < |offsets| - 1 ==> Level(s, o, l) == Level(segments, offsets, l)
  {
    var s, o := segments + level, offsets + [|segments| + |level|];
    forall l | 0 <= l < |offsets| - 1 ensures Level(s, o, l) == Level(segments, offsets, l) {
      assert o[l + 1] <= |segments|;
    }
  }

  lemma LevelsGrow(data: seq<int>, epsilon: nat, epsilonRecursive: nat, segments: seq<Segment>, offsets: seq<int>,
                   level: seq<Segment>)
    requires LevelsOver(data, epsilon, epsilonRecursive, segments, offsets)
    requires offsets[|offsets| - 1] - offsets[|offsets| - 2] > 2 && |level| >= 2
    requires var below := Entries(Level(segments, offsets, |offsets| - 2));
      LevelOver(level, below, epsilonRecursive) && LevelCount(|level| - 1, below, epsilonRecursive)
    ensures LevelsOver(data, epsilon, epsilonRecursive, segments + level, offsets + [|segments| + |level|])
  {
    hide LevelOver, LevelCount;
    var s, o := segments + level, offsets + [|segments| + |level|];
    AppendLevel(segments, offsets, level);
    forall l | 0 <= l < |o| - 1 ensures LevelInPlace(data, epsilon, epsilonRecursive, s, o, l) {
      if l < |offsets| - 1 {
        assert LevelInPlace(data, epsilon, epsilonRecursive, segments, offsets, l);
        assert KeysBelow(data, s, o, l) == KeysBelow(data, segments, offsets, l);
      } else {
        assert KeysBelow(data, s, o, l) == Entries(Level(segments, offsets, |offsets| - 2));
      }
    }
  }

  // ---------------------------------------------------------------------------
  // One step of the descent
  // ---------------------------------------------------------------------------

  lemma FloorExists(keys: seq<int>, k: int) returns (f: int)
    requires TailSorted(keys) && |keys| >= 1 && keys[0] <= k
    ensures IsFloor(keys, f, k)
  {
    f := |keys| - 1;
    while keys[f] > k || (f > 0 && keys[f - 1] == keys[f])
      invariant 0 <= f < |keys|
      invariant f + 1 < |keys| ==> k < keys[f + 1] || keys[f + 1] == keys[f]
      decreases f
    {
      f := f - 1;
    }
  }

  /** The bounded binary search below lands on a responsible entry. */
  lemma BinaryStep(keys: seq<int>, k: int, f: int, pos: int, epsilon: int, r: int)
    requires TailSorted(keys) && IsFloor(keys, f, k) && epsilon >= 1 && InWindow(pos, keys, f, k, epsilon)
    requires var lo, hi := SubEps(pos, epsilon + 1), AddEps(pos, epsilon, |keys|);
      && lo <= r <= hi
      && (forall i :: lo <= i < r ==> keys[i] <= k) && (forall i :: r <= i < hi ==> keys[i] > k)
    ensures 0 <= SubEps(pos, epsilon + 1) <= f < AddEps(pos, epsilon, |keys|) <= |keys|
    ensures r >= 1 && Responsible(keys, r - 1, k)
  {
    var lo, hi := SubEps(pos, epsilon + 1), AddEps(pos, epsilon, |keys|);
    assert lo <= f < hi;
    assert r > f;
    assert keys[r - 1] <= k;
  }

  /** The scan to the right stops at the last entry with key at most k; it never needs more
      than 2 * epsilon + 2 steps, one more when it ends on a repeated last key. */
  lemma ScanStep(keys: seq<int>, k: int, f: int, pos: int, epsilon: int, j: int)
    requires TailSorted(keys) && IsFloor(keys, f, k) && epsilon >= 1 && InWindow(pos, keys, f, k, epsilon)
    requires SubEps(pos, epsilon + 1) <= j < |keys|
    requires forall i :: SubEps(pos, epsilon + 1) < i <= j ==> keys[i] <= k
    requires j + 1 < |keys| ==> k < keys[j + 1]
    ensures 0 <= SubEps(pos, epsilon + 1) <= f <= j <= f + 1 && Responsible(keys, j, k)
    ensures j - SubEps(pos, epsilon + 1) <= 2 * epsilon + 3
    ensures j == f ==> j - SubEps(pos, epsilon + 1) <= 2 * epsilon + 2
  {
    if j > f {
      assert keys[f + 1] <= keys[j] <= k;
    }
  }

  /** Input of the first level: after a run of equal keys the next value maps to the run's end. */
  function InFun(data: seq<int>, i: int): Point
    requires 0 <= i < |data|
  {
    var x := data[i];
    var flag := i > 0 && i + 1 < |data| && x == data[i - 1] && x != data[i + 1] && x + 1 != data[i + 1];
    Point(if flag then x + 1 else x, i)
  }

  lemma AllDistinctPoints(keys: seq<int>)
    requires Indexable(keys)
    ensures PointsOf(keys)[..DistinctCount(keys)] == PointsOf(keys)
  {
    StrictIsTailSorted(keys);
    assert PointsOf(keys)[..|keys|] == PointsOf(keys);
  }

  lemma FirstInput(data: seq<int>)
    requires Indexable(data)
    ensures seq(|data|, i requires 0 <= i < |data| => InFun(data, i)) == PointsOf(data)
    ensures TailSorted(data)
  {
  }

  /** Points that one line fits are one group, unless chunk borders cut them. */
  lemma OneGroup(d: seq<Point>, epsilon: nat, cuts: seq<int>)
    requires Cuts(cuts, 0, |d|) && NearMinimal(d, epsilon, |d|, cuts, 0) && |d| > 0 && Fittable(d, epsilon)
    ensures |cuts| == 2
  {
    var g := [0, |d|];
    assert d[0..|d|] == d;
    assert Cuts(g, 0, |d|) && AllFit(d, epsilon, g);
  }

  /** How far the number of groups is from the least possible one. */
  lemma FewExtraGroups(d: seq<Point>, n: nat, epsilon: nat, cuts: seq<int>, procs: nat, threads: nat)
    requires Cuts(cuts, 0, |d|) && |d| > 0 && procs >= 1 && threads >= 1
    requires AllFit(d, epsilon, cuts) && (n < PAR_THRESHOLD ==> Greedy(d, epsilon, cuts))
    requires NearMinimal(d, epsilon, |d|, cuts, Workers(procs, threads) - 1) && Ordered(d)
    ensures NearMinimal(d, epsilon, |d|, cuts, ExtraGroups(n))
    ensures OneChunk(n, procs, threads) && Fittable(d, epsilon) ==> |cuts| == 2
  {
    hide Fittable, Greedy, AllFit, NearMinimal;
    if n < PAR_THRESHOLD {
      GreedyIsNearMinimal(d, epsilon, cuts, 0);
    } else {
      NearMinimalWeaken(d, epsilon, |d|, cuts, Workers(procs, threads) - 1, MAX_THREADS - 1);
    }
    if OneChunk(n, procs, threads) && Fittable(d, epsilon) { OneGroup(d, epsilon, cuts); }
  }

  /** What the models of all groups make of a level. */
  lemma LevelFromModels(keys: seq<int>, epsilon: nat, cuts: seq<int>, models: seq<Segment>, past: int)
    requires TailSorted(keys) && 1 <= |keys| <= INT32_MAX && 1 <= epsilon <= MAX_Y
    requires keys[|keys| - 1] <= past < MAX_KEY
    requires Cuts(cuts, 0, DistinctCount(keys)) && ModelsOf(models, keys, cuts, epsilon)
    requires NearMinimal(PointsOf(keys)[..DistinctCount(keys)], epsilon, DistinctCount(keys), cuts, ExtraGroups(|keys|))
    ensures |models| > 0
    ensures var level := WithTail(models, |keys|, past);
      && |level| >= 2 && LevelOver(level, keys, epsilon) && LevelCount(|level| - 1, keys, epsilon)
      && (forall j :: 0 <= j < |level| - 1 ==> level[j].key <= past)
      && (keys[|keys| - 1] < past ==> forall i, j :: 0 <= i < j < |level| - 1 ==> level[i].key < level[j].key)
      && (|cuts| == 2 ==> |level| == 2)
  {
    hide PointsOf, TailSorted, NearMinimal, LevelCount, Windows, Fitted, LevelShape;
    LevelHolds(keys, epsilon, cuts, models, past);
    LevelCountHolds(keys, epsilon, cuts, models, past);
    LevelIsShaped(keys, epsilon, cuts, models, past);
    SingleModel(keys, epsilon, cuts, models, past);
  }

  /** One level over `keys`: segment, convert, append the tail. */
  method BuildLevel(input: seq<Point>, ghost keys: seq<int>, epsilon: nat, past: int, procs: nat, threads: nat)
    returns (r: Result<seq<Segment>>)
    requires TailSorted(keys) && 1 <= |keys| <= INT32_MAX && input == PointsOf(keys)
    requires 1 <= epsilon <= MAX_Y && keys[|keys| - 1] <= past < MAX_KEY && procs >= 1 && threads >= 1
    ensures r.Err? ==> |keys| + epsilon > INT32_MAX
    ensures r.Ok? ==> |r.value| >= 2 && LevelOver(r.value, keys, epsilon) && LevelCount(|r.value| - 1, keys, epsilon)
    ensures r.Ok? ==> forall j :: 0 <= j < |r.value| - 1 ==> r.value[j].key <= past
    ensures r.Ok? && keys[|keys| - 1] < past ==>
      forall i, j :: 0 <= i < j < |r.value| - 1 ==> r.value[i].key < r.value[j].key
    ensures r.Ok? && OneChunk(|keys|, procs, threads) && Fittable(PointsOf(keys)[..DistinctCount(keys)], epsilon) ==>
      |r.value| == 2
  {
    hide Distinct, Fittable, SegmentOf, Greedy, AllFit, FromCanonical, NearMinimal, OnePoint, ModelOf, Raw, Fewest;
    hide LevelOver, LevelCount, OneChunk, SortedX, AllInRange, Ordered;
    PointsAreSorted(keys);
    DistinctKeys(keys);
    PrefixIsOrdered(keys);
    var out, cuts := MakeSegmentationPar(input, epsilon, procs, threads);
    ghost var d := PointsOf(keys)[..DistinctCount(keys)];
    FewExtraGroups(d, |keys|, epsilon, cuts, procs, threads);
    hide TailSorted, ConsecutiveRanks;
    var models: seq<Segment> := [];
    for c := 0 to |out|
      invariant |models| == c
      invariant forall j :: 0 <= j < c ==> ModelOf(models[j], keys, cuts[j], cuts[j + 1], epsilon)
    {
      assert SegmentPiece(out[c], d, epsilon, cuts[c], cuts[c + 1]);
      SegmentIsModel(out[c], keys, cuts[c], cuts[c + 1], epsilon);
      var m := FromCanonical(out[c]);
      if m.Err? {
        return Err(m.error);
      }
      models := models + [m.value];
    }
    hide PointsOf, Covers;
    LevelFromModels(keys, epsilon, cuts, models, past);
    r := Ok(WithTail(models, |input|, past));
  }

  // ---------------------------------------------------------------------------
  // Facts about the levels in place
  // ---------------------------------------------------------------------------

  lemma FirstLevel(data: seq<int>, epsilon: nat, epsilonRecursive: nat, segments: seq<Segment>)
    requires |segments| >= 2 && LevelOver(segments, data, epsilon) && LevelCount(|segments| - 1, data, epsilon)
    requires forall i, j :: 0 <= i < j < |segments| - 1 ==> segments[i].key < segments[j].key
    ensures LevelsOver(data, epsilon, epsilonRecursive, segments, [0, |segments|])
  {
    hide LevelOver, LevelCount;
    var offsets := [0, |segments|];
    assert Level(segments, offsets, 0) == segments;
    assert LevelInPlace(data, epsilon, epsilonRecursive, segments, offsets, 0);
  }

  /** A level by itself: keys in order, a sentinel at the end, no negative slope. */
  lemma ShapeFacts(level: seq<Segment>, below: seq<int>)
    requires LevelShape(level, below)
    ensures var keys := Entries(level);
      && |level| >= 2 && TailSorted(keys) && |below| >= 1 && keys[0] == below[0]
      && (forall j :: 0 <= j < |level| ==> GoodSlope(level[j]))
      && (forall j :: 0 <= j < |keys| ==> keys[j] == level[j].key < MAX_KEY)
      && level[|level| - 1].key == MAX_KEY && level[|level| - 1].intercept == |below|
  {
    hide TailSorted;
  }

  lemma ShapeOfLevel(data: seq<int>, epsilon: nat, epsilonRecursive: nat, segments: seq<Segment>, offsets: seq<int>,
                     l: int)
    requires LevelsOver(data, epsilon, epsilonRecursive, segments, offsets) && 0 <= l < |offsets| - 1
    ensures LevelShape(Level(segments, offsets, l), KeysBelow(data, segments, offsets, l))
    ensures 0 <= offsets[l] && offsets[l] + 2 <= offsets[l + 1] <= |segments|
  {
    hide Windows, LevelCount, LevelShape;
    assert LevelInPlace(data, epsilon, epsilonRecursive, segments, offsets, l);
  }

  lemma SliceAt(segments: seq<Segment>, a: int, b: int) returns (level: seq<Segment>)
    requires 0 <= a <= b <= |segments|
    ensures level == segments[a..b] && |level| == b - a && forall j :: 0 <= j < |level| ==> level[j] == segments[a + j]
  {
    level := segments[a..b];
  }

  lemma SlopesOfSlice(segments: seq<Segment>, a: int, b: int, level: seq<Segment>)
    requires 0 <= a <= b <= |segments| && |level| == b - a
    requires forall j :: 0 <= j < |level| ==> level[j] == segments[a + j]
    requires forall j :: 0 <= j < |level| ==> GoodSlope(level[j])
    ensures forall j :: a <= j < b ==> GoodSlope(segments[j])
  {
    forall j | a <= j < b ensures GoodSlope(segments[j]) {
      assert level[j - a] == segments[j];
    }
  }

  /** Level l as the search reads it from the flat arrays. */
  lemma LevelFacts(data: seq<int>, epsilon: nat, epsilonRecursive: nat, segments: seq<Segment>, offsets: seq<int>,
                   l: int)
    requires LevelsOver(data, epsilon, epsilonRecursive, segments, offsets) && 0 <= l < |offsets| - 1
    ensures var level, keys := Level(segments, offsets, l), Entries(Level(segments, offsets, l));
      && |level| == offsets[l + 1] - offsets[l] >= 2 && TailSorted(keys)
      && (forall j :: 0 <= j < |level| ==> level[j] == segments[offsets[l] + j] && GoodSlope(level[j]))
      && (forall j :: offsets[l] <= j < offsets[l + 1] ==> GoodSlope(segments[j]))
      && (forall j :: 0 <= j < |keys| ==> keys[j] == segments[offsets[l] + j].key < MAX_KEY)
      && segments[offsets[l + 1] - 1].key == MAX_KEY
      && |KeysBelow(data, segments, offsets, l)| >= 1 && keys[0] == KeysBelow(data, segments, offsets, l)[0]
      && segments[offsets[l + 1] - 1].intercept == |KeysBelow(data, segments, offsets, l)|
  {
    hide LevelsOver, LevelShape, TailSorted, KeysBelow, Entries, Level, GoodSlope, Offsets;
    var level, below := LevelSlice(data, epsilon, epsilonRecursive, segments, offsets, l);
    ShapeFacts(level, below);
    SlopesOfSlice(segments, offsets[l], offsets[l + 1], level);
  }

  lemma LevelSlice(data: seq<int>, epsilon: nat, epsilonRecursive: nat, segments: seq<Segment>, offsets: seq<int>,
                   l: int) returns (level: seq<Segment>, below: seq<int>)
    requires LevelsOver(data, epsilon, epsilonRecursive, segments, offsets) && 0 <= l < |offsets| - 1
    ensures level == Level(segments, offsets, l) && below == KeysBelow(data, segments, offsets, l)
    ensures LevelShape(level, below) && 0 <= offsets[l] && offsets[l] + 2 <= offsets[l + 1] <= |segments|
    ensures |level| == offsets[l + 1] - offsets[l]
    ensures forall j :: 0 <= j < |level| ==> level[j] == segments[offsets[l] + j]
  {
    hide LevelShape;
    ShapeOfLevel(data, epsilon, epsilonRecursive, segments, offsets, l);
    level := SliceAt(segments, offsets[l], offsets[l + 1]);
    below := KeysBelow(data, segments, offsets, l);
  }

  /** The first key of every level is the first key of the data. */
  lemma {:induction false} FirstKeys(data: seq<int>, epsilon: nat, epsilonRecursive: nat, segments: seq<Segment>,
                                     offsets: seq<int>, l: int)
    requires LevelsOver(data, epsilon, epsilonRecursive, segments, offsets) && 0 <= l < |offsets| - 1
    ensures |data| >= 1 && 0 <= offsets[l] < |segments| && segments[offsets[l]].key == data[0]
    decreases l
  {
    hide LevelOver, LevelInPlace;
    LevelFacts(data, epsilon, epsilonRecursive, segments, offsets, l);
    if l > 0 {
      FirstKeys(data, epsilon, epsilonRecursive, segments, offsets, l - 1);
      LevelFacts(data, epsilon, epsilonRecursive, segments, offsets, l - 1);
    }
  }

  /** No intercept is negative, so the cast to an unsigned number keeps it. */
  lemma InterceptsAreNatural(data: seq<int>, epsilon: nat, epsilonRecursive: nat,
                             segments: seq<Segment>, offsets: seq<int>, l: int, j: int)
    requires LevelsOver(data, epsilon, epsilonRecursive, segments, offsets) && 0 <= l < |offsets| - 1
    requires offsets[l] <= j < offsets[l + 1]
    ensures 0 <= j < |segments| && ToSize(segments[j].intercept) == segments[j].intercept
  {
    ShapeOfLevel(data, epsilon, epsilonRecursive, segments, offsets, l);
    var level := SliceAt(segments, offsets[l], offsets[l + 1]);
    assert level[j - offsets[l]] == segments[j];
  }

  /** A responsible entry one level up predicts within the window of the level's floor. */
  lemma StepWindow(data: seq<int>, epsilon: nat, epsilonRecursive: nat, segments: seq<Segment>, offsets: seq<int>,
                   l: int, it: int, key: int, f: int)
    requires LevelsOver(data, epsilon, epsilonRecursive, segments, offsets) && 1 <= l < |offsets| - 1
    requires offsets[l] <= it < offsets[l + 1] - 1 && segments[it].dx > 0
    requires Responsible(Entries(Level(segments, offsets, l)), it - offsets[l], key)
    requires IsFloor(Entries(Level(segments, offsets, l - 1)), f, key)
    ensures 0 <= f < |Entries(Level(segments, offsets, l - 1))|
    ensures var p := Predict(segments[it], key);
      InWindow(if p < segments[it + 1].intercept then p else segments[it + 1].intercept,
               Entries(Level(segments, offsets, l - 1)), f, key, epsilonRecursive)
  {
    hide Responsible, IsFloor, Predict, LevelOver, LevelCount;
    assert LevelInPlace(data, epsilon, epsilonRecursive, segments, offsets, l);
    var level := Level(segments, offsets, l);
    var j := it - offsets[l];
    assert level[j] == segments[it] && level[j + 1] == segments[it + 1];
    WindowAt(level, Entries(Level(segments, offsets, l - 1)), epsilonRecursive, j, key, f);
  }

  /** And on the bottom level, within the window of the data's floor. */
  lemma DataWindow(data: seq<int>, epsilon: nat, epsilonRecursive: nat, segments: seq<Segment>, offsets: seq<int>,
                   it: int, key: int, f: int)
    requires LevelsOver(data, epsilon, epsilonRecursive, segments, offsets)
    requires 0 <= it < offsets[1] - 1 && segments[it].dx > 0
    requires Responsible(Entries(Level(segments, offsets, 0)), it, key) && IsFloor(data, f, key)
    ensures var p := Predict(segments[it], key);
      InWindow(if p < segments[it + 1].intercept then p else segments[it + 1].intercept, data, f, key, epsilon)
    ensures RawInWindow(Raw(segments[it], key), it + 2 == offsets[1], data, f, epsilon)
  {
    hide Responsible, IsFloor, Predict, Raw, LevelOver, LevelCount;
    assert LevelInPlace(data, epsilon, epsilonRecursive, segments, offsets, 0);
    var level := Level(segments, offsets, 0);
    assert level[it] == segments[it] && level[it + 1] == segments[it + 1];
    WindowAt(level, data, epsilon, it, key, f);
  }

  /** Entries with one key are responsible for everything from it on. */
  lemma TopIsResponsible(data: seq<int>, epsilon: nat, epsilonRecursive: nat, segments: seq<Segment>,
                         offsets: seq<int>, key: int)
    requires IndexOver(data, epsilon, epsilonRecursive, segments, offsets) && |data| >= 1 && data[0] <= key
    ensures Responsible(Entries(Level(segments, offsets, |offsets| - 2)), 0, key)
  {
    FirstKeys(data, epsilon, epsilonRecursive, segments, offsets, |offsets| - 2);
    LevelFacts(data, epsilon, epsilonRecursive, segments, offsets, |offsets| - 2);
  }

  /** On the bottom level, whose keys increase, responsible means last with key at most k. */
  lemma BottomIsLast(data: seq<int>, epsilon: nat, epsilonRecursive: nat, segments: seq<Segment>, offsets: seq<int>,
                     it: int, key: int)
    requires LevelsOver(data, epsilon, epsilonRecursive, segments, offsets) && 0 <= it < offsets[1] - 1
    requires Responsible(Entries(Level(segments, offsets, 0)), it, key)
    ensures segments[it].key <= key && forall j :: it < j < offsets[1] - 1 ==> key < segments[j].key
  {
    hide LevelInPlace;
    LevelFacts(data, epsilon, epsilonRecursive, segments, offsets, 0);
    assert it + 1 < offsets[1] - 1 ==> segments[it].key < segments[it + 1].key;
  }

  /** Everything the search needs to know about the data's own level. */
  lemma SearchReady(data: seq<int>, epsilon: nat, epsilonRecursive: nat, segments: seq<Segment>, offsets: seq<int>,
                    it: int, k: int) returns (f: int)
    requires IndexOver(data, epsilon, epsilonRecursive, segments, offsets) && Indexable(data)
    requires 0 <= it < offsets[1] - 1 && Responsible(Entries(Level(segments, offsets, 0)), it, k)
    requires |data| > 0 && data[0] <= k
    ensures IsFloor(data, f, k) && 0 <= f < |data| && segments[it].dx > 0
    ensures |offsets| > 1 && it + 1 < offsets[1] <= |segments|
    ensures InWindow(MinSize(Predict(segments[it], k), segments[it + 1].intercept), data, f, k, epsilon)
  {
    hide LevelInPlace, Responsible, InWindow, Predict;
    LevelFacts(data, epsilon, epsilonRecursive, segments, offsets, 0);
    InterceptsAreNatural(data, epsilon, epsilonRecursive, segments, offsets, 0, it + 1);
    StrictIsTailSorted(data);
    f := FloorExists(data, k);
    DataWindow(data, epsilon, epsilonRecursive, segments, offsets, it, k, f);
  }

  /** Everything one step of the descent needs to know about the two levels. */
  lemma StepReady(data: seq<int>, epsilon: nat, epsilonRecursive: nat, segments: seq<Segment>, offsets: seq<int>,
                  l: int, it: int, key: int) returns (below: seq<int>, f: int)
    requires IndexOver(data, epsilon, epsilonRecursive, segments, offsets) && 0 <= l && l + 2 < |offsets|
    requires |data| >= 1 && data[0] <= key && epsilonRecursive >= 1
    requires offsets[l + 1] <= it < offsets[l + 2] - 1
    requires Responsible(Entries(Level(segments, offsets, l + 1)), it - offsets[l + 1], key)
    ensures below == Entries(Level(segments, offsets, l)) && TailSorted(below) && IsFloor(below, f, key)
    ensures 0 <= offsets[l] && |below| == offsets[l + 1] - offsets[l] - 1 && offsets[l + 1] <= it && it + 1 < |segments|
    ensures forall j :: 0 <= j < |below| ==> below[j] == segments[offsets[l] + j].key
    ensures segments[offsets[l] + |below|].key == MAX_KEY && segments[it].dx > 0
    ensures ToSize(segments[it + 1].intercept) == segments[it + 1].intercept
    ensures 0 <= f < |below|
    ensures var p := Predict(segments[it], key);
      InWindow(if p < segments[it + 1].intercept then p else segments[it + 1].intercept,
               below, f, key, epsilonRecursive)
  {
    hide LevelInPlace, Responsible, InWindow, Predict, TailSorted, IsFloor, Entries, Level, KeysBelow;
    LevelFacts(data, epsilon, epsilonRecursive, segments, offsets, l);
    LevelFacts(data, epsilon, epsilonRecursive, segments, offsets, l + 1);
    InterceptsAreNatural(data, epsilon, epsilonRecursive, segments, offsets, l + 1, it + 1);
    FirstKeys(data, epsilon, epsilonRecursive, segments, offsets, l);
    below := Entries(Level(segments, offsets, l));
    f := FloorExists(below, key);
    StepWindow(data, epsilon, epsilonRecursive, segments, offsets, l + 1, it, key, f);
  }

  lemma Shrinks(m: int, keys: seq<int>, epsilon: nat)
    requires LevelCount(m, keys, epsilon) && |keys| >= 2
    ensures 1 <= m < |keys|
  {
  }

  lemma CountAtMost(m: int, keys: seq<int>, epsilon: nat)
    requires LevelCount(m, keys, epsilon) && |keys| >= 1 && epsilon >= 1
    ensures 1 <= m <= |keys|
  {
  }

  class PGMIndex {
    const epsilonRecursive: nat
    var epsilon: nat
    var n: nat
    var first_key: int
    var segments: seq<Segment>
    var levels_offsets: seq<int>

    /** The keys the index was last built over. */
    ghost var data: seq<int>

    ghost predicate Valid()
      reads this
    {
      && epsilonRecursive >= 1
      && n == |data|
      && (n == 0 ==> segments == [] && levels_offsets == [])
      && (n > 0 ==>
            && epsilon >= 1 && first_key == data[0] && Indexable(data)
            && IndexOver(data, epsilon, epsilonRecursive, segments, levels_offsets))
    }

    constructor (epsilonRecursive: nat)
      requires epsilonRecursive >= 1
      ensures Valid() && data == [] && this.epsilonRecursive == epsilonRecursive
    {
      this.epsilonRecursive := epsilonRecursive;
      epsilon, n, first_key := 1, 0, 0;
      segments, levels_offsets := [], [];
      data := [];
    }

    /** Builds the levels bottom up until one has a single model. */
    method Rebuild(keys: seq<int>, new_epsilon: nat, procs: nat, threads: nat) returns (r: Result<()>)
      requires Valid() && Indexable(keys) && |keys| <= INT32_MAX && procs >= 1 && threads >= 1
      requires 1 <= new_epsilon <= MAX_Y && epsilonRecursive <= MAX_Y
      modifies this
      ensures r.Ok? ==> Valid() && data == keys && epsilon == new_epsilon
      ensures r.Err? ==> |keys| + (if new_epsilon < epsilonRecursive then epsilonRecursive else new_epsilon) > INT32_MAX
      ensures r.Ok? && |keys| > 0 && OneChunk(|keys|, procs, threads) && Fittable(PointsOf(keys), new_epsilon) ==>
        levels_offsets == [0, 2]
    {
      n := |keys|;
      first_key := if n > 0 then keys[0] else 0;
      levels_offsets, segments := [], [];
      epsilon := new_epsilon;
      data := keys;
      if n == 0 {
        return Ok(());
      }
      hide LevelsOver, PointsOf, Fittable, OneChunk;
      var past := keys[n - 1] + 1;
      var last_n, err := AddFirstLevel(keys, past, procs, threads);
      if err != "" {
        return Err(err);
      }
      ghost var straight := OneChunk(n, procs, threads) && Fittable(PointsOf(keys), epsilon);

      while last_n > 1
        invariant LevelsOver(data, epsilon, epsilonRecursive, segments, levels_offsets)
        invariant last_n == levels_offsets[|levels_offsets| - 1] - levels_offsets[|levels_offsets| - 2] - 1
        invariant straight ==> levels_offsets == [0, 2]
        invariant last_n <= n == |data| && data == keys && first_key == keys[0] && epsilon == new_epsilon
        invariant forall j :: levels_offsets[|levels_offsets| - 2] <= j < |segments| - 1 ==> segments[j].key <= past
        decreases last_n
      {
        last_n, err := AddLevel(last_n, past, procs, threads);
        if err != "" {
          return Err(err);
        }
      }
      return Ok(());
    }

    /** The level over the keys themselves. */
    method AddFirstLevel(keys: seq<int>, past: int, procs: nat, threads: nat) returns (last_n: nat, err: string)
      requires Indexable(keys) && 0 < |keys| <= INT32_MAX && past == keys[|keys| - 1] + 1 && procs >= 1 && threads >= 1
      requires 1 <= epsilon <= MAX_Y
      modifies this`segments, this`levels_offsets
      ensures err != "" ==> |keys| + epsilon > INT32_MAX
      ensures err == "" ==> LevelsOver(keys, epsilon, epsilonRecursive, segments, levels_offsets)
      ensures err == "" ==> levels_offsets == [0, |segments|] && 1 <= last_n == |segments| - 1 <= |keys|
      ensures err == "" ==> forall j :: 0 <= j < |segments| - 1 ==> segments[j].key <= past
      ensures err == "" && OneChunk(|keys|, procs, threads) && Fittable(PointsOf(keys), epsilon) ==> |segments| == 2
    {
      hide LevelOver, LevelsOver, LevelCount, TailSorted, PointsOf, Fittable, OneChunk, InFun;
      var input := seq(|keys|, i requires 0 <= i < |keys| => InFun(keys, i));
      FirstInput(keys);
      AllDistinctPoints(keys);
      var level := BuildLevel(input, keys, epsilon, past, procs, threads);
      if level.Err? {
        return 0, "Change the type of Segment::intercept to int64";
      }
      segments := level.value;
      levels_offsets := [0, |segments|];
      FirstLevel(keys, epsilon, epsilonRecursive, segments);
      CountAtMost(|segments| - 1, keys, epsilon);
      return |segments| - 1, "";
    }

    /** One level more over the entries of the last one, which has more than one. */
    method AddLevel(last_n: nat, past: int, procs: nat, threads: nat) returns (upper: nat, err: string)
      requires epsilon <= MAX_Y && 1 <= epsilonRecursive <= MAX_Y && procs >= 1 && threads >= 1 && past < MAX_KEY
      requires LevelsOver(data, epsilon, epsilonRecursive, segments, levels_offsets)
      requires 1 < last_n == levels_offsets[|levels_offsets| - 1] - levels_offsets[|levels_offsets| - 2] - 1
      requires last_n <= INT32_MAX
      requires forall j :: levels_offsets[|levels_offsets| - 2] <= j < |segments| - 1 ==> segments[j].key <= past
      modifies this`segments, this`levels_offsets
      ensures err != "" ==> last_n + epsilonRecursive > INT32_MAX
      ensures err == "" ==> LevelsOver(data, epsilon, epsilonRecursive, segments, levels_offsets)
      ensures err == "" ==>
        1 <= upper == levels_offsets[|levels_offsets| - 1] - levels_offsets[|levels_offsets| - 2] - 1 < last_n
      ensures err == "" ==> forall j :: levels_offsets[|levels_offsets| - 2] <= j < |segments| - 1 ==>
        segments[j].key <= past
    {
      hide LevelOver, LevelCount, TailSorted, LevelInPlace;
      var offset := levels_offsets[|levels_offsets| - 2];
      ghost var below := Entries(Level(segments, levels_offsets, |levels_offsets| - 2));
      LevelFacts(data, epsilon, epsilonRecursive, segments, levels_offsets, |levels_offsets| - 2);
      var s := segments;
      var input := seq(last_n, i requires 0 <= i < last_n && offset + i < |s| => Point(s[offset + i].key, i));
      assert input == PointsOf(below);
      var level := BuildLevel(input, below, epsilonRecursive, past, procs, threads);
      if level.Err? {
        return 0, "Change the type of Segment::intercept to int64";
      }
      LevelsGrow(data, epsilon, epsilonRecursive, segments, levels_offsets, level.value);
      Shrinks(|level.value| - 1, below, epsilonRecursive);
      segments := segments + level.value;
      levels_offsets := levels_offsets + [|segments|];
      return |level.value| - 1, "";
    }

    function Height(): int
      reads this
    {
      |levels_offsets| - 1
    }

    /** The last level-0 segment whose key is at most the sought one. */
    method SegmentForKey(key: int) returns (it: int)
      requires Valid() && n > 0 && first_key <= key && Searchable(epsilonRecursive, key)
      ensures 0 <= it < levels_offsets[1] - 1 && levels_offsets[1] <= |segments|
      ensures segments[it].key <= key
      ensures forall j :: it < j < levels_offsets[1] - 1 ==> key < segments[j].key
      ensures Responsible(Entries(Level(segments, levels_offsets, 0)), it, key)
    {
      hide LevelOver, LevelCount, Responsible, LevelInPlace;
      it := levels_offsets[|levels_offsets| - 2];
      var l := Height() - 2;
      TopIsResponsible(data, epsilon, epsilonRecursive, segments, levels_offsets, key);
      while l >= 0
        invariant -1 <= l <= Height() - 2
        invariant levels_offsets[l + 1] <= it < levels_offsets[l + 2] - 1
        invariant Responsible(Entries(Level(segments, levels_offsets, l + 1)), it - levels_offsets[l + 1], key)
        decreases l
      {
        it := StepDown(l, it, key);
        l := l - 1;
      }
      BottomIsLast(data, epsilon, epsilonRecursive, segments, levels_offsets, it, key);
    }

    /** Approximate position of the key and the range that holds both of its ranks. */
    method Search(key: int) returns (pos: nat, lo: nat, hi: nat)
      requires Valid() && n > 0 && Searchable(epsilonRecursive, key)
      ensures lo <= hi <= n && hi - lo <= 2 * epsilon + 2
      ensures lo == SubEps(pos, epsilon) && hi == AddEps(pos, epsilon, n)
      ensures hi - lo > 2 * epsilon + 1 <==> epsilon <= pos <= n - epsilon - 2
      ensures n <= 2 * epsilon + 1 ==> hi - lo <= 2 * epsilon + 1
      ensures forall f :: IsFloor(data, f, key) && 2 * epsilon + 1 <= f <= n - 2 * epsilon - 3 ==>
        hi - lo > 2 * epsilon + 1
      ensures n >= 4 * epsilon + 4 && key == data[2 * epsilon + 1] ==> hi - lo > 2 * epsilon + 1
      ensures Predicted(segments, levels_offsets, if first_key < key then key else first_key, pos)
      ensures forall r :: IsLowerRank(data, r, key) ==> lo <= r <= hi
      ensures forall r :: IsUpperRank(data, r, key) ==> lo <= r <= hi
    {
      var k := if first_key < key then key else first_key;
      hide IndexOver, Responsible, InWindow, Predict, TailSorted, IsLowerRank, IsUpperRank, IsFloor;
      var it := SegmentForKey(k);
      ghost var f := SearchReady(data, epsilon, epsilonRecursive, segments, levels_offsets, it, k);
      pos := MinSize(Predict(segments[it], k), segments[it + 1].intercept);
      lo := SubEps(pos, epsilon);
      hi := AddEps(pos, epsilon, n);
      RanksInside(data, key, k, f, pos, epsilon);
      RangeWidth(data, key, k, f, pos, epsilon);
      assert LastBelow(segments, levels_offsets, k, it) && PredictedBy(segments, it, k, pos);
    }

    /** From the segment responsible on level l + 1 to the one on level l. */
    method StepDown(l: nat, it: int, key: int) returns (next: int)
      requires Valid() && n > 0 && first_key <= key && Searchable(epsilonRecursive, key) && l + 2 < |levels_offsets|
      requires levels_offsets[l + 1] <= it < levels_offsets[l + 2] - 1
      requires Responsible(Entries(Level(segments, levels_offsets, l + 1)), it - levels_offsets[l + 1], key)
      ensures levels_offsets[l] <= next < levels_offsets[l + 1] - 1
      ensures Responsible(Entries(Level(segments, levels_offsets, l)), next - levels_offsets[l], key)
    {
      hide IndexOver, Responsible, TailSorted, IsFloor, InWindow, Predict, Indexable, Level, Entries, LevelInPlace;
      ghost var below, f := StepReady(data, epsilon, epsilonRecursive, segments, levels_offsets, l, it, key);
      var level_begin := levels_offsets[l];
      var level_size := levels_offsets[l + 1] - levels_offsets[l] - 1;
      var pos := MinSize(Predict(segments[it], key), segments[it + 1].intercept);
      var lo := SubEps(pos, epsilonRecursive + 1);
      if epsilonRecursive <= LINEAR_SEARCH_THRESHOLD {
        next := LinearSearch(segments, level_begin, lo, key, below, f, pos, epsilonRecursive);
      } else {
        var hi := AddEps(pos, epsilonRecursive, level_size);
        next := BinarySearch(segments, level_begin, lo, hi, key, below, f, pos, epsilonRecursive);
      }
    }
  }

  /** Steps right while the next entry's key is at most the sought one; the sentinel stops it. */
  method LinearSearch(segments: seq<Segment>, begin: nat, lo: nat, key: int,
                      ghost keys: seq<int>, ghost f: int, ghost pos: int, ghost epsilon: nat) returns (next: int)
    requires begin + |keys| < |segments| && segments[begin + |keys|].key == MAX_KEY > key
    requires forall j :: 0 <= j < |keys| ==> keys[j] == segments[begin + j].key
    requires TailSorted(keys) && IsFloor(keys, f, key) && epsilon >= 1 && InWindow(pos, keys, f, key, epsilon)
    requires lo == SubEps(pos, epsilon + 1)
    ensures begin <= next < begin + |keys| && Responsible(keys, next - begin, key)
  {
    next := begin + lo;
    while segments[next + 1].key <= key
      invariant begin + lo <= next < begin + |keys|
      invariant forall i :: lo < i <= next - begin ==> keys[i] <= key
      decreases begin + |keys| - next
    {
      next := next + 1;
    }
    ScanStep(keys, key, f, pos, epsilon, next - begin);
  }

  /** First position in lo .. hi whose key is greater. */
  method UpperBound(segments: seq<Segment>, lo: int, hi: int, key: int) returns (u: int)
    requires 0 <= lo <= hi <= |segments|
    requires forall i, j :: lo <= i < j < hi ==> segments[i].key <= segments[j].key
    ensures lo <= u <= hi
    ensures forall i :: lo <= i < u ==> segments[i].key <= key
    ensures forall i :: u <= i < hi ==> segments[i].key > key
  {
    u := lo;
    var count := hi - lo;
    while count > 0
      invariant 0 <= count && lo <= u && u + count <= hi
      invariant forall i :: lo <= i < u ==> segments[i].key <= key
      invariant forall i :: u + count <= i < hi ==> segments[i].key > key
      decreases count
    {
      var step := count / 2;
      if segments[u + step].key <= key {
        u := u + step + 1;
        count := count - step - 1;
      } else {
        count := step;
      }
    }
  }

  method BinarySearch(segments: seq<Segment>, begin: nat, lo: nat, hi: int, key: int,
                      ghost keys: seq<int>, ghost f: int, ghost pos: int, ghost epsilon: nat) returns (next: int)
    requires begin + |keys| < |segments|
    requires forall j :: 0 <= j < |keys| ==> keys[j] == segments[begin + j].key
    requires TailSorted(keys) && IsFloor(keys, f, key) && epsilon >= 1 && InWindow(pos, keys, f, key, epsilon)
    requires lo == SubEps(pos, epsilon + 1) && hi == AddEps(pos, epsilon, |keys|)
    ensures begin <= next < begin + |keys| && Responsible(keys, next - begin, key)
  {
    KeysInRange(segments, keys, begin);
    var u := UpperBound(segments, begin + lo, begin + hi, key);
    forall i | lo <= i < hi ensures if i < u - begin then keys[i] <= key else keys[i] > key {
      assert keys[i] == segments[begin + i].key;
    }
    BinaryStep(keys, key, f, pos, epsilon, u - begin);
    next := u - 1;
  }

  /** How many keys are below k, or at most k. */
  ghost predicate IsLowerRank(keys: seq<int>, r: int, k: int) {
    && 0 <= r <= |keys|
    && (forall i :: 0 <= i < r ==> keys[i] < k) && (forall i :: r <= i < |keys| ==> keys[i] >= k)
  }

  ghost predicate IsUpperRank(keys: seq<int>, r: int, k: int) {
    && 0 <= r <= |keys|
    && (forall i :: 0 <= i < r ==> keys[i] <= k) && (forall i :: r <= i < |keys| ==> keys[i] > k)
  }

  lemma StrictIsTailSorted(keys: seq<int>)
    requires Indexable(keys)
    ensures TailSorted(keys) && DistinctCount(keys) == |keys|
  {
  }

  /** Both ranks of the key are inside the range around a windowed position. */
  lemma RanksInside(data: seq<int>, key: int, k: int, f: int, pos: int, epsilon: nat)
    requires Indexable(data) && |data| > 0 && k == (if data[0] < key then key else data[0])
    requires IsFloor(data, f, k) && InWindow(pos, data, f, k, epsilon) && epsilon >= 1
    ensures var lo, hi := SubEps(pos, epsilon), AddEps(pos, epsilon, |data|);
      && 0 <= lo <= hi <= |data| && hi - lo <= 2 * epsilon + 2
      && (forall r :: IsLowerRank(data, r, key) ==> lo <= r <= hi)
      && (forall r :: IsUpperRank(data, r, key) ==> lo <= r <= hi)
  {
    StrictIsTailSorted(data);
    var lo, hi := SubEps(pos, epsilon), AddEps(pos, epsilon, |data|);
    forall r | IsLowerRank(data, r, key) || IsUpperRank(data, r, key) ensures lo <= r <= hi {
      if key < data[0] {
        assert r == 0 && f == 0;
      } else {
        assert f <= r <= f + 1;
        if r == f {
          assert data[f] == key;
        }
      }
    }
  }

  // ---------------------------------------------------------------------------
  // How wide the range is
  // ---------------------------------------------------------------------------

  /** The range has one position more than 2 * epsilon + 1 exactly when neither end is cut off. That is so
      for every key whose floor is far enough from both ends of the data. */
  lemma RangeWidth(data: seq<int>, key: int, k: int, f: int, pos: int, epsilon: nat)
    requires Indexable(data) && |data| > 0 && k == (if data[0] < key then key else data[0])
    requires IsFloor(data, f, k) && InWindow(pos, data, f, k, epsilon) && 0 <= pos
    ensures var width := AddEps(pos, epsilon, |data|) - SubEps(pos, epsilon);
      && (width > 2 * epsilon + 1 <==> epsilon <= pos <= |data| - epsilon - 2)
      && (forall g :: IsFloor(data, g, key) && 2 * epsilon + 1 <= g <= |data| - 2 * epsilon - 3 ==>
            width > 2 * epsilon + 1)
      && (|data| >= 4 * epsilon + 4 && key == data[2 * epsilon + 1] ==> width > 2 * epsilon + 1)
  {
    StrictIsTailSorted(data);
    forall g | IsFloor(data, g, key) ensures g == f {
      assert data[0] <= data[g] <= key;
    }
  }

  /** An index with one model on the bottom level. */
  lemma SoleModel(data: seq<int>, epsilon: nat, epsilonRecursive: nat, segments: seq<Segment>)
    requires IndexOver(data, epsilon, epsilonRecursive, segments, [0, 2]) && Indexable(data)
    ensures |segments| == 2 && segments[1].intercept == |data| && ModelOf(segments[0], data, 0, |data|, epsilon)
  {
    hide Windows, LevelCount, ModelOf;
    var offsets := [0, 2];
    assert LevelInPlace(data, epsilon, epsilonRecursive, segments, offsets, 0);
    StrictIsTailSorted(data);
    var level := Level(segments, offsets, 0);
    assert level == segments;
    var cuts, models, past :| |models| > 0 && FittedTo(level, data, epsilon, cuts, models, past);
    assert |models| == 1 && level[0] == models[0];
    assert ModelOf(models[0], data, cuts[0], cuts[1], epsilon);
  }

  /** With a slope of at most one, no prediction is skipped. */
  lemma UnitSteps(s: Segment, k: int)
    requires s.dx > 0 && 0 <= s.dy <= s.dx
    ensures Raw(s, k + 1) <= Raw(s, k) + 1
  {
    var a, d := s.dy * (k - s.key), s.dx;
    var q, p := (a + s.dy) / d, a / d;
    assert s.dy * (k + 1 - s.key) == a + s.dy;
    DivBounds(a, d);
    DivBounds(a + s.dy, d);
    if q >= p + 2 {
      ProductGrows(d, p + 2, q);
    }
  }

  /** A model of 0, 2, 4, ... has a slope of at most one. */
  lemma GentleSlope(s: Segment, n: nat, epsilon: nat)
    requires GoodSlope(s) && s.key == 0 && s.intercept >= 0 && n >= 2 * epsilon + 2
    requires Raw(s, 2 * (n - 1)) <= n - 1 + epsilon
    ensures s.dy <= s.dx
  {
    if s.dy > s.dx {
      var w := 2 * (n - 1);
      ProductGrows(w, s.dx, s.dy);
      assert s.dx * w == w * s.dx && s.dy * w == w * s.dy;
      DivBounds(s.dy * w, s.dx);
      if s.dy * w / s.dx < w {
        ProductGrows(s.dx, s.dy * w / s.dx + 1, w);
      }
    }
  }

  /** In an index over 0, 2, 4, ... with one model, some key is predicted at epsilon exactly. */
  lemma SomeKeyAtEpsilon(data: seq<int>, epsilon: nat, epsilonRecursive: nat, segments: seq<Segment>) returns (k: nat)
    requires IndexOver(data, epsilon, epsilonRecursive, segments, [0, 2]) && Indexable(data)
    requires |data| >= 2 * epsilon + 2 && forall i :: 0 <= i < |data| ==> data[i] == 2 * i
    ensures k <= data[|data| - 1] && |segments| == 2
    ensures LastBelow(segments, [0, 2], k, 0) && PredictedBy(segments, 0, k, epsilon)
  {
    SoleModel(data, epsilon, epsilonRecursive, segments);
    var s, n := segments[0], |data|;
    assert s.key == data[0] == 0 && Raw(s, data[0]) <= epsilon;
    assert Raw(s, data[n - 1]) == Raw(s, 2 * (n - 1));
    GentleSlope(s, n, epsilon);
    hide Raw, IndexOver;
    k := 0;
    while Raw(s, k) < epsilon
      invariant k <= data[n - 1] && Raw(s, k) <= epsilon
      decreases data[n - 1] - k
    {
      UnitSteps(s, k);
      k := k + 1;
    }
  }

  lemma OnePrediction(segments: seq<Segment>, k: int, pos: nat, p: nat)
    requires |segments| == 2 && LastBelow(segments, [0, 2], k, 0) && PredictedBy(segments, 0, k, p)
    requires Predicted(segments, [0, 2], k, pos)
    ensures pos == p
  {
    hide MinSize, Predict;
  }

  /** An index over 0, 2, 4, ..., which one line fits. */
  method EvenIndex(n: nat, epsilon: nat, epsilonRecursive: nat, threads: nat)
    returns (index: PGMIndex, ghost keys: seq<int>)
    requires n > 0 && 1 <= epsilon <= MAX_Y && 1 <= epsilonRecursive <= MAX_Y && threads >= 1
    requires n + epsilon <= INT32_MAX && n + epsilonRecursive <= INT32_MAX
    ensures index.Valid() && index.data == keys && |keys| == n && index.epsilon == epsilon
    ensures index.epsilonRecursive == epsilonRecursive && index.levels_offsets == [0, 2]
    ensures forall i :: 0 <= i < n ==> keys[i] == 2 * i
  {
    var evens := seq(n, i requires 0 <= i < n => 2 * i);
    EvenKeysFit(evens, epsilon);
    keys := evens;
    hide Indexable, Fittable, IndexOver;
    index := new PGMIndex(epsilonRecursive);
    var r := index.Rebuild(evens, epsilon, 1, threads);
  }

  /** The first key from 0 on with a range wider than 2 * epsilon + 1; k is one that has it. */
  method FirstWide(index: PGMIndex, ghost k: nat) returns (key: nat, pos: nat, lo: nat, hi: nat)
    requires index.Valid() && index.n >= 2 * index.epsilon + 2 && index.first_key == 0 && k < MAX_KEY
    requires |index.segments| == 2 && index.levels_offsets == [0, 2] && LastBelow(index.segments, [0, 2], k, 0)
    requires PredictedBy(index.segments, 0, k, index.epsilon)
    ensures key <= k && Predicted(index.segments, index.levels_offsets, key, pos)
    ensures lo == SubEps(pos, index.epsilon) && hi == AddEps(pos, index.epsilon, index.n)
    ensures hi - lo > 2 * index.epsilon + 1
  {
    hide IndexOver, Indexable, Predicted, PredictedBy, LastBelow, IsFloor, IsLowerRank, IsUpperRank;
    key := 0;
    pos, lo, hi := index.Search(key);
    while hi - lo <= 2 * index.epsilon + 1
      invariant key <= k && Predicted(index.segments, [0, 2], key, pos)
      invariant lo == SubEps(pos, index.epsilon) && hi == AddEps(pos, index.epsilon, index.n)
      invariant hi - lo > 2 * index.epsilon + 1 <==> index.epsilon <= pos <= index.n - index.epsilon - 2
      decreases k - key
    {
      if key == k { OnePrediction(index.segments, key, pos, index.epsilon); }
      key := key + 1;
      pos, lo, hi := index.Search(key);
    }
  }

  /** For every epsilon and every number of keys above 2 * epsilon + 1 there is an index with a key whose
      range is wider than 2 * epsilon + 1; up to that number there is none. */
  method WideRange(n: nat, epsilon: nat, epsilonRecursive: nat, threads: nat)
    returns (index: PGMIndex, key: nat, pos: nat, lo: nat, hi: nat)
    requires n >= 2 * epsilon + 2 && 1 <= epsilon <= MAX_Y && 1 <= epsilonRecursive <= MAX_Y && threads >= 1
    requires n + epsilon <= INT32_MAX && n + epsilonRecursive <= INT32_MAX
    ensures index.Valid() && index.n == n && index.epsilon == epsilon
    ensures Predicted(index.segments, index.levels_offsets, key, pos)
    ensures lo == SubEps(pos, epsilon) && hi == AddEps(pos, epsilon, n) && hi - lo > 2 * epsilon + 1
  {
    ghost var keys;
    index, keys := EvenIndex(n, epsilon, epsilonRecursive, threads);
    hide IndexOver, Indexable, Predicted, PredictedBy, LastBelow;
    ghost var k := SomeKeyAtEpsilon(keys, epsilon, epsilonRecursive, index.segments);
    key, pos, lo, hi := FirstWide(index, k);
  }

  lemma EvenKeysFit(keys: seq<int>, epsilon: nat)
    requires |keys| <= INT32_MAX && forall i :: 0 <= i < |keys| ==> keys[i] == 2 * i
    ensures Indexable(keys) && Fittable(PointsOf(keys), epsilon)
  {
    var l := Line(0.5, 0.0);
    var bands := BandsOf(PointsOf(keys), epsilon);
    forall j | 0 <= j < |bands| ensures Fits(bands[j], l) {
      assert l.At(2 * j) == j as real;
    }
    assert Crosses(bands, l);
  }

  // ---------------------------------------------------------------------------
  // Height
  // ---------------------------------------------------------------------------

  lemma LevelWidth(data: seq<int>, epsilon: nat, epsilonRecursive: nat, segments: seq<Segment>, offsets: seq<int>,
                   l: int)
    requires LevelsOver(data, epsilon, epsilonRecursive, segments, offsets) && 1 <= l < |offsets| - 1
    requires offsets[l] - offsets[l - 1] <= PAR_THRESHOLD
    ensures var m, below := offsets[l + 1] - offsets[l] - 1, offsets[l] - offsets[l - 1] - 1;
      && (m - 2) * (2 * epsilonRecursive + 1) < below
      && (below <= 2 * epsilonRecursive + 1 ==> m == 1)
  {
    hide LevelOver;
    assert LevelInPlace(data, epsilon, epsilonRecursive, segments, offsets, l);
  }

  /** A model that fits the DPU has at most three levels, so its offsets fit the argument block. */
  lemma HeightIsBounded(data: seq<int>, epsilon: nat, segments: seq<Segment>, offsets: seq<int>)
    requires IndexOver(data, epsilon, 64, segments, offsets) && |segments| <= MAX_MODEL_SIZE
    ensures |offsets| - 1 <= 3 && |offsets| <= MAX_LEVEL
  {
    hide LevelInPlace;
    if |offsets| > 4 {
      LevelWidth(data, epsilon, 64, segments, offsets, 1);
      assert offsets[2] - offsets[1] - 1 <= 21;
      LevelWidth(data, epsilon, 64, segments, offsets, 2);
    }
  }

  lemma KeysInRange(segments: seq<Segment>, keys: seq<int>, begin: int)
    requires TailSorted(keys) && 0 <= begin && begin + |keys| <= |segments|
    requires forall j :: 0 <= j < |keys| ==> keys[j] == segments[begin + j].key
    ensures forall i, j :: begin <= i < j < begin + |keys| ==> segments[i].key <= segments[j].key
  {
    forall i, j | begin <= i < j < begin + |keys| ensures segments[i].key <= segments[j].key {
      assert keys[i - begin] <= keys[j - begin];
    }
  }
}
