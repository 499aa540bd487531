/** Chunked segmentation: each worker segments its own chunk, the results are concatenated. */
module SegmentationPar {
  import opened Geometry
  import opened Hull
  import opened LinearModel
  import opened Segmentation

  const MAX_THREADS: nat := 32
  const PAR_THRESHOLD: nat := 32768

  lemma {:induction false} DistinctConcat(s: seq<Point>, t: seq<Point>)
    requires |s| > 0 && |t| > 0 ==> s[|s| - 1].x != t[0].x
    ensures Distinct(s + t) == Distinct(s) + Distinct(t)
  {
    if |t| == 0 {
      assert s + t == s;
    } else if |s| == 0 {
      assert s + t == t;
    } else if |t| == 1 {
      assert (s + t)[..|s + t| - 1] == s;
    } else {
      assert (s + t)[..|s + t| - 1] == s + t[..|t| - 1];
      DistinctConcat(s, t[..|t| - 1]);
    }
  }

  lemma {:induction false} DistinctPrefix(s: seq<Point>, m: int)
    requires 0 <= m <= |s|
    ensures |Distinct(s[..m])| <= |Distinct(s)|
    ensures Distinct(s[..m]) == Distinct(s)[..|Distinct(s[..m])|]
    decreases |s| - m
  {
    if m == |s| {
      assert s[..m] == s;
    } else {
      DistinctPrefix(s, m + 1);
      if m > 0 {
        DistinctStep(s, m);
      }
    }
  }

  /** A group is the same group whether it is cut from a stretch of the points or from all of them. */
  lemma PieceOfStretch(d: seq<Point>, epsilon: nat, lo: int, hi: int, a: int, b: int, cs: CanonicalSegment)
    requires 0 <= lo <= hi <= |d| && 0 <= a <= b <= hi - lo
    ensures FittablePiece(d[lo..hi], epsilon, a, b) <==> FittablePiece(d, epsilon, lo + a, lo + b)
    ensures SegmentPiece(cs, d[lo..hi], epsilon, a, b) ==> SegmentPiece(cs, d, epsilon, lo + a, lo + b)
  {
    hide Fittable, SegmentOf;
    SliceOfSlice(d, lo, hi, a, b);
  }

  lemma SliceOfSlice<T>(d: seq<T>, lo: int, hi: int, a: int, b: int)
    requires 0 <= lo <= hi <= |d| && 0 <= a <= b <= hi - lo
    ensures d[lo..hi][a..b] == d[lo + a..lo + b]
  {
    var e := d[lo..hi];
    forall k | 0 <= k < b - a ensures e[a..b][k] == d[lo + a..lo + b][k] {
      assert e[a..b][k] == e[a + k];
    }
    assert e[a..b] == d[lo + a..lo + b];
  }

  function Shifted(cuts: seq<int>, delta: int): (r: seq<int>)
    ensures |r| == |cuts| && forall k :: 0 <= k < |cuts| ==> r[k] == cuts[k] + delta
  {
    seq(|cuts|, k requires 0 <= k < |cuts| => cuts[k] + delta)
  }

  /** The greedy partition of a stretch has no more groups than any fitting partition of it. */
  lemma StretchIsMinimal(d: seq<Point>, epsilon: nat, lo: int, hi: int, cuts: seq<int>, g: seq<int>)
    requires 0 <= lo <= hi <= |d|
    requires Cuts(cuts, 0, hi - lo) && Greedy(d[lo..hi], epsilon, cuts)
    requires Cuts(g, lo, hi) && AllFit(d, epsilon, g)
    ensures |cuts| <= |g|
  {
    var e := d[lo..hi];
    var g' := Shifted(g, -lo);
    forall k | 0 <= k < |g'| - 1 ensures FittablePiece(e, epsilon, g'[k], g'[k + 1]) {
      assert FittablePiece(d, epsilon, g[k], g[k + 1]);
      assert g[k + 1] <= g[|g| - 1];
      PieceOfStretch(d, epsilon, lo, hi, g'[k], g'[k + 1], CanonicalSegment([], 0));
    }
    GreedyIsMinimal(e, epsilon, 0, hi - lo, cuts, g');
  }

  /** Cutting a partition at mid costs at most one more group. */
  lemma {:induction false} SplitCuts(d: seq<Point>, epsilon: nat, lo: int, mid: int, hi: int, g: seq<int>)
    returns (g1: seq<int>, g2: seq<int>)
    requires Cuts(g, lo, hi) && AllFit(d, epsilon, g) && lo <= mid <= hi
    ensures Cuts(g1, lo, mid) && AllFit(d, epsilon, g1)
    ensures Cuts(g2, mid, hi) && AllFit(d, epsilon, g2)
    ensures |g1| + |g2| <= |g| + 2
    decreases |g|
  {
    var n := |g| - 1;
    if mid == hi {
      g1, g2 := g, [hi];
    } else {
      var init := g[..n];
      assert AllFit(d, epsilon, init) by {
        forall k | 0 <= k < |init| - 1 ensures FittablePiece(d, epsilon, init[k], init[k + 1]) {
          assert FittablePiece(d, epsilon, g[k], g[k + 1]);
        }
      }
      assert FittablePiece(d, epsilon, g[n - 1], g[n]);
      if mid >= g[n - 1] {
        FittableSubrange(d, epsilon, g[n - 1], g[n], g[n - 1], mid);
        FittableSubrange(d, epsilon, g[n - 1], g[n], mid, hi);
        g2 := [mid, hi];
        if mid == g[n - 1] {
          g1 := init;
        } else {
          g1 := init + [mid];
          assert AllFit(d, epsilon, g1) by {
            forall k | 0 <= k < |g1| - 1 ensures FittablePiece(d, epsilon, g1[k], g1[k + 1]) {
              if k < |init| - 1 { assert FittablePiece(d, epsilon, init[k], init[k + 1]); }
            }
          }
        }
      } else {
        var h;
        g1, h := SplitCuts(d, epsilon, lo, mid, g[n - 1], init);
        g2 := h + [hi];
        assert AllFit(d, epsilon, g2) by {
          forall k | 0 <= k < |g2| - 1 ensures FittablePiece(d, epsilon, g2[k], g2[k + 1]) {
            if k < |h| - 1 { assert FittablePiece(d, epsilon, h[k], h[k + 1]); }
          }
        }
      }
    }
  }

  /** No fitting partition of the first hi points has `extra` fewer groups than cuts. */
  ghost predicate NearMinimal(d: seq<Point>, epsilon: nat, hi: int, cuts: seq<int>, extra: int) {
    forall g :: Cuts(g, 0, hi) && AllFit(d, epsilon, g) ==> |cuts| <= |g| + extra
  }

  function Appended(cuts: seq<int>, c: seq<int>, lo: int): (all: seq<int>)
    requires |cuts| >= 1 && |c| >= 1
    ensures |all| == |cuts| + |c| - 1
    ensures forall k :: 0 <= k < |cuts| ==> all[k] == cuts[k]
    ensures forall k :: |cuts| <= k < |all| ==> all[k] == c[k - |cuts| + 1] + lo
  {
    cuts + Shifted(c[1..], lo)
  }

  /** Appending the greedy groups of the next stretch keeps every group fitting and covered. */
  lemma AppendCovers(d: seq<Point>, epsilon: nat, lo: int, hi: int, cuts: seq<int>, out: seq<CanonicalSegment>,
                     c: seq<int>, o: seq<CanonicalSegment>)
    requires 0 <= lo <= hi <= |d|
    requires Cuts(cuts, 0, lo) && AllFit(d, epsilon, cuts) && Covers(out, d, epsilon, cuts)
    requires Cuts(c, 0, hi - lo) && AllFit(d[lo..hi], epsilon, c) && Covers(o, d[lo..hi], epsilon, c)
    ensures |cuts| >= 1 && |c| >= 1
    ensures var all := Appended(cuts, c, lo);
      Cuts(all, 0, hi) && AllFit(d, epsilon, all) && Covers(out + o, d, epsilon, all)
  {
    hide FittablePiece, SegmentPiece;
    var all := Appended(cuts, c, lo);
    var e := d[lo..hi];
    var n := |cuts| - 1;
    assert forall k :: n <= k < |all| ==> all[k] == c[k - n] + lo;
    forall k | 0 <= k < |all| - 1
      ensures FittablePiece(d, epsilon, all[k], all[k + 1])
      ensures SegmentPiece((out + o)[k], d, epsilon, all[k], all[k + 1])
    {
      if k < n {
        assert FittablePiece(d, epsilon, cuts[k], cuts[k + 1]);
        assert SegmentPiece(out[k], d, epsilon, cuts[k], cuts[k + 1]);
      } else {
        assert FittablePiece(e, epsilon, c[k - n], c[k - n + 1]);
        assert SegmentPiece(o[k - n], e, epsilon, c[k - n], c[k - n + 1]);
        assert c[k - n + 1] <= c[|c| - 1] && c[0] <= c[k - n];
        PieceOfStretch(d, epsilon, lo, hi, c[k - n], c[k - n + 1], o[k - n]);
      }
    }
  }

  /** And it loses at most one group against the best partition, for the boundary it imposes. */
  lemma AppendNearMinimal(d: seq<Point>, epsilon: nat, lo: int, hi: int, cuts: seq<int>, extra: nat, c: seq<int>)
    requires 0 <= lo <= hi <= |d|
    requires Cuts(cuts, 0, lo) && NearMinimal(d, epsilon, lo, cuts, extra)
    requires Cuts(c, 0, hi - lo) && Greedy(d[lo..hi], epsilon, c)
    ensures NearMinimal(d, epsilon, hi, Appended(cuts, c, lo), if lo == 0 then extra else extra + 1)
  {
    hide FittablePiece;
    forall g | Cuts(g, 0, hi) && AllFit(d, epsilon, g)
      ensures |Appended(cuts, c, lo)| <= |g| + if lo == 0 then extra else extra + 1
    {
      var g1, g2 := SplitCuts(d, epsilon, 0, lo, hi, g);
      if lo == 0 {
        assert |cuts| == 1;
        StretchIsMinimal(d, epsilon, lo, hi, c, g);
      } else {
        StretchIsMinimal(d, epsilon, lo, hi, c, g2);
      }
    }
  }

  lemma NearMinimalWeaken(d: seq<Point>, epsilon: nat, hi: int, cuts: seq<int>, extra: int, more: int)
    requires NearMinimal(d, epsilon, hi, cuts, extra) && extra <= more
    ensures NearMinimal(d, epsilon, hi, cuts, more)
  {
  }

  lemma GreedyIsNearMinimal(d: seq<Point>, epsilon: nat, cuts: seq<int>, extra: nat)
    requires Cuts(cuts, 0, |d|) && Greedy(d, epsilon, cuts)
    ensures NearMinimal(d, epsilon, |d|, cuts, extra)
  {
    forall g | Cuts(g, 0, |d|) && AllFit(d, epsilon, g) ensures |cuts| <= |g| + extra {
      GreedyIsMinimal(d, epsilon, 0, |d|, cuts, g);
    }
  }

  lemma NearMinimalIsFewest(d: seq<Point>, epsilon: nat, cuts: seq<int>, out: seq<CanonicalSegment>, extra: int)
    requires NearMinimal(d, epsilon, |d|, cuts, extra) && Covers(out, d, epsilon, cuts)
    ensures Fewest(|out|, d, epsilon, extra)
  {
    hide Cuts, AllFit, SegmentPiece;
  }

  lemma NothingYet(d: seq<Point>, epsilon: nat)
    ensures Cuts([0], 0, 0) && AllFit(d, epsilon, [0]) && Greedy(d, epsilon, [0]) && Covers([], d, epsilon, [0])
    ensures NearMinimal(d, epsilon, 0, [0], 0)
  {
  }

  /** A chunk that starts with a new abscissa holds exactly the next stretch of distinct points. */
  lemma ChunkIsStretch(input: seq<Point>, first: int, last: int)
    requires 0 <= first < last <= |input|
    requires first > 0 ==> input[first].x != input[first - 1].x
    ensures var d, lo, hi := Distinct(input), |Distinct(input[..first])|, |Distinct(input[..last])|;
      0 <= lo <= hi <= |d| && Distinct(input[first..last]) == d[lo..hi]
  {
    CutAt(input, first, last);
    DistinctConcat(input[..first], input[first..last]);
    DistinctPrefix(input, last);
    hide Distinct;
    SecondPart(Distinct(input[..first]), Distinct(input[first..last]), Distinct(input), |Distinct(input[..last])|);
  }

  lemma CutAt(input: seq<Point>, first: int, last: int)
    requires 0 <= first <= last <= |input|
    ensures input[..last] == input[..first] + input[first..last]
    ensures first > 0 ==> input[..first][|input[..first]| - 1] == input[first - 1]
    ensures first < last ==> input[first..last][0] == input[first]
  {
  }

  lemma SecondPart(a: seq<Point>, b: seq<Point>, d: seq<Point>, hi: int)
    requires 0 <= hi <= |d| && d[..hi] == a + b
    ensures |a| <= hi && b == d[|a|..hi]
  {
    assert hi == |a| + |b|;
    forall i | 0 <= i < |b| ensures b[i] == d[|a| + i] {
      assert b[i] == (a + b)[|a| + i] == d[..hi][|a| + i];
    }
  }

  function Min(a: int, b: int): int { if a < b then a else b }

  function Workers(procs: nat, threads: nat): (p: nat)
    requires procs >= 1 && threads >= 1
    ensures 1 <= p <= MAX_THREADS
  {
    Min(Min(procs, threads), MAX_THREADS)
  }

  /** The distinct points that appear in input[first..last] and not before. */
  ghost function Stretch(input: seq<Point>, first: int, last: int): seq<Point>
    requires 0 <= first <= last <= |input|
  {
    var lo, hi := |Distinct(input[..first])|, |Distinct(input[..last])|;
    DistinctPrefix(input, first);
    DistinctPrefix(input, last);
    if lo <= hi then Distinct(input)[lo..hi] else []
  }

  /** One worker: skip the points that belong to the previous chunk's last run, segment the rest. */
  method SegmentChunk(input: seq<Point>, epsilon: nat, from: nat, last: nat)
    returns (o: seq<CanonicalSegment>, ghost c: seq<int>)
    requires AllInRange(input) && SortedX(input) && epsilon <= MAX_Y && from < last <= |input|
    ensures |Distinct(input[..from])| <= |Distinct(input[..last])| <= |Distinct(input)|
    ensures var e := Stretch(input, from, last);
      Cuts(c, 0, |e|) && AllFit(e, epsilon, c) && Greedy(e, epsilon, c) && Covers(o, e, epsilon, c)
    ensures Fewest(|o|, Stretch(input, from, last), epsilon, 0)
  {
    hide Fittable, SegmentOf, Distinct, Cuts, AllFit, Covers, Greedy, SortedX, AllInRange, Fewest;
    var first := from;
    ghost var lo := |Distinct(input[..from])|;
    DistinctPrefix(input, from);
    DistinctPrefix(input, last);
    if first > 0 {
      while first < last && input[first].x == input[first - 1].x
        invariant from <= first <= last && |Distinct(input[..first])| == lo
      {
        DistinctStep(input, first);
        first := first + 1;
      }
      if first == last {
        NothingYet([], epsilon);
        GreedyIsFewest([], epsilon, [0], []);
        return [], [0];
      }
    }
    var chunk := input[first..last];
    ChunkInput(input, first, last);
    var r;
    r, c := MakeSegmentation(chunk, epsilon);
    ChunkIsStretch(input, first, last);
    o := r.value;
  }

  /** `procs` and `threads` are what the machine offers; one more group per extra chunk at most. */
  method MakeSegmentationPar(input: seq<Point>, epsilon: nat, procs: nat, threads: nat)
    returns (out: seq<CanonicalSegment>, ghost cuts: seq<int>)
    requires AllInRange(input) && SortedX(input) && epsilon <= MAX_Y && procs >= 1 && threads >= 1
    ensures var d := Distinct(input);
      && Cuts(cuts, 0, |d|) && AllFit(d, epsilon, cuts) && Covers(out, d, epsilon, cuts)
      && NearMinimal(d, epsilon, |d|, cuts, Workers(procs, threads) - 1)
    ensures |input| < PAR_THRESHOLD ==> Greedy(Distinct(input), epsilon, cuts)
    ensures Fewest(|out|, Distinct(input), epsilon, Workers(procs, threads) - 1)
  {
    hide Fewest;
    hide Fittable, SegmentOf, Distinct, Cuts, AllFit, Covers, Greedy, NearMinimal, SortedX, AllInRange, ChunkStart;
    var parallelism := Workers(procs, threads);
    ghost var d := Distinct(input);
    assert input[..|input|] == input;
    if parallelism == 1 || |input| < PAR_THRESHOLD {
      var r;
      r, cuts := MakeSegmentation(input, epsilon);
      GreedyIsNearMinimal(d, epsilon, cuts, parallelism - 1);
      NearMinimalIsFewest(d, epsilon, cuts, r.value, parallelism - 1);
      return r.value, cuts;
    }
    out, cuts := [], [0];
    NothingYet(d, epsilon);
    ghost var done := 0;
    DistinctOfNothing(input);
    ChunkBounds(|input|, parallelism, 0);
    for i := 0 to parallelism
      invariant done == |Distinct(input[..ChunkStart(|input|, parallelism, i)])| <= |d|
      invariant Cuts(cuts, 0, done) && AllFit(d, epsilon, cuts) && Covers(out, d, epsilon, cuts)
      invariant NearMinimal(d, epsilon, done, cuts, if i == 0 then 0 else i - 1)
    {
      ChunkBounds(|input|, parallelism, i);
      var first := ChunkStart(|input|, parallelism, i);
      var last := ChunkStart(|input|, parallelism, i + 1);
      var o, c := SegmentChunk(input, epsilon, first, last);
      ghost var hi := |Distinct(input[..last])|;
      AppendCovers(d, epsilon, done, hi, cuts, out, c, o);
      AppendNearMinimal(d, epsilon, done, hi, cuts, if i == 0 then 0 else i - 1, c);
      out, cuts := out + o, Appended(cuts, c, done);
      NearMinimalWeaken(d, epsilon, hi, cuts,
                        if i == 0 then if done == 0 then 0 else 1 else if done == 0 then i - 1 else i, i);
      done := hi;
    }
    NearMinimalIsFewest(d, epsilon, cuts, out, parallelism - 1);
  }

  lemma ChunkInput(input: seq<Point>, first: int, last: int)
    requires AllInRange(input) && SortedX(input) && 0 <= first <= last <= |input|
    ensures AllInRange(input[first..last]) && SortedX(input[first..last])
  {
  }

  lemma DistinctOfNothing(s: seq<Point>)
    ensures s[..0] == [] && |Distinct(s[..0])| == 0
  {
  }

  /** Where worker i starts; the last chunk takes the remainder. */
  function ChunkStart(n: nat, p: nat, i: nat): (r: nat)
    requires p >= 1 && i <= p
    ensures r <= n
  {
    if i == p then n
    else
      assert i * (n / p) <= p * (n / p);
      i * (n / p)
  }

  lemma ChunkBounds(n: nat, p: nat, i: nat)
    requires i < p <= n
    ensures ChunkStart(n, p, i) < ChunkStart(n, p, i + 1)
    ensures ChunkStart(n, p, 0) == 0 && ChunkStart(n, p, p) == n
    ensures i < p - 1 ==> ChunkStart(n, p, i + 1) - ChunkStart(n, p, i) == n / p
    ensures n / p <= ChunkStart(n, p, p) - ChunkStart(n, p, p - 1) < n / p + p
  {
    var c := n / p;
    assert c >= 1 && p * c <= n;
    assert p * c == (i + 1) * c + (p - i - 1) * c;
  }
}
