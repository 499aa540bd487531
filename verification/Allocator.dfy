/** Hands the DPUs out to the partitions in proportion to their load. */
module Allocator {

  /** One partition: its share of the accesses (1.0 is average), its replicas, the load of each. */
  datatype Row = Row(id: nat, ratio: real, num: nat, load: real)

  function Recount(r: Row, num: nat): Row
    requires num > 0
  {
    r.(num := num, load := r.ratio / num as real)
  }

  /** The rows after row `off` lost a replica. */
  function Taken(s: seq<Row>, off: nat): (r: seq<Row>)
    requires off < |s| && s[off].num >= 2
    ensures |r| == |s|
  {
    s[off := Recount(s[off], s[off].num - 1)]
  }

  /** The rows after row `off` got one more. */
  function Given(s: seq<Row>, off: nat): (r: seq<Row>)
    requires off < |s|
    ensures |r| == |s|
  {
    s[off := Recount(s[off], s[off].num + 1)]
  }

  function Total(s: seq<Row>): nat {
    if s == [] then 0 else Total(s[..|s| - 1]) + s[|s| - 1].num
  }

  /** Takes the entry at `from` out and puts it in at `to`, further left. */
  function MovedDown(s: seq<Row>, from: nat, to: nat): (r: seq<Row>)
    requires to <= from < |s|
    ensures |r| == |s|
  {
    s[..to] + [s[from]] + s[to..from] + s[from + 1..]
  }

  /** The same, further right. */
  function MovedUp(s: seq<Row>, from: nat, to: nat): (r: seq<Row>)
    requires from <= to < |s|
    ensures |r| == |s|
  {
    s[..from] + s[from + 1..to + 1] + [s[from]] + s[to + 1..]
  }

  /** Position k at or before `off` has the first load below that of row `off`, if any has. */
  predicate PlaceBefore(s: seq<Row>, off: nat, k: nat)
    requires off < |s|
  {
    && k <= off && (forall j :: 0 <= j < k ==> s[j].load >= s[off].load)
    && (k < off ==> s[k].load < s[off].load)
  }

  /** Position k from `off` on has the first load below that of row `off`, or is the last one. */
  predicate PlaceBehind(s: seq<Row>, off: nat, k: nat)
    requires off < |s|
  {
    && off <= k < |s| && (forall j :: off <= j < k ==> s[j].load >= s[off].load)
    && (k < |s| - 1 ==> s[k].load < s[off].load)
  }

  // ---------------------------------------------------------------------------
  // Sums
  // ---------------------------------------------------------------------------

  lemma {:induction false} TotalConcat(a: seq<Row>, b: seq<Row>)
    ensures Total(a + b) == Total(a) + Total(b)
  {
    if b == [] {
      assert a + b == a;
    } else {
      assert (a + b)[..|a + b| - 1] == a + b[..|b| - 1];
      TotalConcat(a, b[..|b| - 1]);
    }
  }

  lemma TotalSplit(s: seq<Row>, i: nat)
    requires i < |s|
    ensures Total(s) == Total(s[..i]) + s[i].num + Total(s[i + 1..])
  {
    assert s == s[..i] + [s[i]] + s[i + 1..];
    assert Total([s[i]]) == s[i].num by { assert [s[i]][..0] == []; }
    TotalConcat(s[..i] + [s[i]], s[i + 1..]);
    TotalConcat(s[..i], [s[i]]);
  }

  lemma TotalUpdate(s: seq<Row>, i: nat, r: Row)
    requires i < |s|
    ensures Total(s[i := r]) + s[i].num == Total(s) + r.num
  {
    TotalSplit(s, i);
    TotalSplit(s[i := r], i);
    assert s[i := r][..i] == s[..i] && s[i := r][i + 1..] == s[i + 1..];
  }

  lemma TotalOfFour(a: seq<Row>, b: seq<Row>, c: seq<Row>, d: seq<Row>)
    ensures Total(a + b + c + d) == Total(a) + Total(b) + Total(c) + Total(d)
  {
    TotalConcat(a + b + c, d);
    TotalConcat(a + b, c);
    TotalConcat(a, b);
  }

  lemma Join(s: seq<Row>, i: nat, j: nat)
    requires i <= j <= |s|
    ensures s[..i] + s[i..j] == s[..j]
  {
  }

  lemma Push(s: seq<Row>, i: nat)
    requires i < |s|
    ensures s[..i] + [s[i]] == s[..i + 1]
  {
  }

  lemma TotalMovedDown(s: seq<Row>, from: nat, to: nat)
    requires to <= from < |s|
    ensures Total(MovedDown(s, from, to)) == Total(s)
  {
    var a, x, b, c := s[..to], [s[from]], s[to..from], s[from + 1..];
    Join(s, to, from);
    Push(s, from);
    Join(s, from + 1, |s|);
    assert s[from + 1..|s|] == c && s[..|s|] == s;
    hide Total;
    TotalOfFour(a, b, x, c);
    TotalOfFour(a, x, b, c);
  }

  lemma TotalMovedUp(s: seq<Row>, from: nat, to: nat)
    requires from <= to < |s|
    ensures Total(MovedUp(s, from, to)) == Total(s)
  {
    var a, b, x, c := s[..from], s[from + 1..to + 1], [s[from]], s[to + 1..];
    Push(s, from);
    Join(s, from + 1, to + 1);
    Join(s, to + 1, |s|);
    assert s[to + 1..|s|] == c && s[..|s|] == s;
    hide Total;
    TotalOfFour(a, x, b, c);
    TotalOfFour(a, b, x, c);
  }

  lemma {:induction false} TotalOfOnes(s: seq<Row>)
    requires forall j :: 0 <= j < |s| ==> s[j].num == 1
    ensures Total(s) == |s|
  {
    if s != [] { TotalOfOnes(s[..|s| - 1]); }
  }

  lemma TotalOnesAfter(s: seq<Row>, i: nat)
    requires i <= |s| && forall j :: i <= j < |s| ==> s[j].num == 1
    ensures Total(s) == Total(s[..i]) + |s| - i
  {
    assert s == s[..i] + s[i..];
    TotalConcat(s[..i], s[i..]);
    TotalOfOnes(s[i..]);
  }

  // ---------------------------------------------------------------------------
  // What every step keeps
  // ---------------------------------------------------------------------------

  predicate RowOk(r: Row, ratios: seq<real>) {
    r.id < |ratios| && r.ratio == ratios[r.id] >= 0.0 && r.num >= 1 && r.load == r.ratio / r.num as real
  }

  /** One row per partition, in any order. */
  ghost predicate Rows(s: seq<Row>, ratios: seq<real>) {
    && |s| == |ratios|
    && (forall j :: 0 <= j < |s| ==> RowOk(s[j], ratios))
    && (forall i, j :: 0 <= i < j < |s| ==> s[i].id != s[j].id)
  }

  ghost predicate LoadAtMost(s: seq<Row>, m: real) {
    forall j :: 0 <= j < |s| ==> s[j].load <= m
  }

  lemma MovedDownRows(s: seq<Row>, from: nat, to: nat, ratios: seq<real>)
    requires Rows(s, ratios) && to <= from < |s|
    ensures Rows(MovedDown(s, from, to), ratios)
    ensures forall m :: LoadAtMost(s, m) ==> LoadAtMost(MovedDown(s, from, to), m)
  {
  }

  lemma MovedUpRows(s: seq<Row>, from: nat, to: nat, ratios: seq<real>)
    requires Rows(s, ratios) && from <= to < |s|
    ensures Rows(MovedUp(s, from, to), ratios)
    ensures forall m :: LoadAtMost(s, m) ==> LoadAtMost(MovedUp(s, from, to), m)
  {
  }

  lemma SameRows(s: seq<Row>, from: nat, to: nat)
    requires to <= from < |s|
    ensures multiset(MovedDown(s, from, to)) == multiset(s)
  {
    Join(s, to, from);
    Push(s, from);
    Join(s, from + 1, |s|);
    assert s[from + 1..|s|] == s[from + 1..] && s[..|s|] == s;
  }

  lemma RecountRows(s: seq<Row>, i: nat, num: nat, ratios: seq<real>)
    requires Rows(s, ratios) && i < |s| && num > 0
    ensures Rows(s[i := Recount(s[i], num)], ratios)
  {
    assert RowOk(s[i], ratios);
  }

  /** Rows sorted by id are the partitions in order. */
  lemma {:induction false} SortedIdsAreIndices(s: seq<Row>, ratios: seq<real>, i: nat)
    requires Rows(s, ratios) && i < |s|
    requires forall a, b :: 0 <= a < b < |s| ==> s[a].id <= s[b].id
    ensures s[i].id == i
  {
    IdAtLeast(s, ratios, i);
    IdAtMost(s, ratios, i);
  }

  lemma {:induction false} IdAtLeast(s: seq<Row>, ratios: seq<real>, i: nat)
    requires Rows(s, ratios) && i < |s| && forall a, b :: 0 <= a < b < |s| ==> s[a].id <= s[b].id
    ensures s[i].id >= i
  {
    if i > 0 { IdAtLeast(s, ratios, i - 1); }
  }

  lemma {:induction false} IdAtMost(s: seq<Row>, ratios: seq<real>, i: nat)
    requires Rows(s, ratios) && i < |s| && forall a, b :: 0 <= a < b < |s| ==> s[a].id <= s[b].id
    ensures s[i].id <= i
    decreases |s| - i
  {
    assert RowOk(s[i], ratios);
    if i + 1 < |s| { IdAtMost(s, ratios, i + 1); }
  }

  lemma FewerReplicasMoreLoad(ratio: real, num: nat)
    requires ratio >= 0.0 && num >= 2
    ensures ratio / num as real <= ratio / (num - 1) as real
  {
    var b, x, y := (num - 1) as real, ratio / num as real, ratio / (num - 1) as real;
    assert x * num as real == ratio == y * b;
    assert x * num as real == x * b + x;
    PositiveFactor(y - x, b);
  }

  lemma PositiveFactor(d: real, b: real)
    requires d * b >= 0.0 && b > 0.0
    ensures d >= 0.0
  {
  }

  // ---------------------------------------------------------------------------
  // The shares
  // ---------------------------------------------------------------------------

  function Sum(s: seq<nat>): nat {
    if s == [] then 0 else Sum(s[..|s| - 1]) + s[|s| - 1]
  }

  lemma {:induction false} SumBelow(s: seq<nat>, b: nat)
    requires forall j :: 0 <= j < |s| ==> s[j] <= b
    ensures Sum(s) <= |s| * b
  {
    if s != [] {
      SumBelow(s[..|s| - 1], b);
      assert |s| * b == (|s| - 1) * b + b;
    }
  }

  /** Somebody has at least the rounded-down average. */
  lemma SomeAverage(access: seq<nat>) returns (i: nat)
    requires |access| > 0 && Sum(access) >= |access|
    ensures i < |access| && access[i] >= Sum(access) / |access| > 0
  {
    var avg, n := Sum(access) / |access|, |access|;
    AverageFacts(Sum(access), n);
    hide Sum;
    if forall j :: 0 <= j < n ==> access[j] <= avg - 1 {
      SumBelow(access, avg - 1);
      OneLess(n, avg);
      assert false;
    }
    i :| 0 <= i < n && access[i] > avg - 1;
  }

  lemma OneLess(n: nat, avg: nat)
    ensures n * (avg - 1) == n * avg - n
  {
  }

  lemma AverageFacts(total: nat, n: nat)
    requires 0 < n <= total
    ensures total / n > 0 && n * (total / n) <= total
  {
  }

  /** A partition's accesses in units of the average. */
  function Share(access: nat, avg: nat): real
    requires avg > 0
  {
    access as real / avg as real
  }

  function Shares(access: seq<nat>, avg: nat): (r: seq<real>)
    requires avg > 0
    ensures |r| == |access| && forall j :: 0 <= j < |r| ==> r[j] == Share(access[j], avg) >= 0.0
  {
    seq(|access|, j requires 0 <= j < |access| => Share(access[j], avg))
  }

  /** The truncated share of the DPUs, but at least one. */
  function FirstNum(ratio: real, toDpu: nat): nat
    requires ratio >= 0.0
  {
    var share := ratio * toDpu as real;
    if share.Floor < 1 then 1 else share.Floor
  }

  lemma AverageGetsTwo(access: nat, avg: nat, toDpu: nat)
    requires 0 < avg <= access && toDpu >= 2
    ensures FirstNum(Share(access, avg), toDpu) >= 2
  {
    var r, d := Share(access, avg), toDpu as real;
    assert r >= 1.0;
    assert (r - 1.0) * d >= 0.0;
    assert r * d == (r - 1.0) * d + d;
  }

  /** Shares are to each other as the accesses are. */
  lemma SharesAreProportional(a: nat, b: nat, avg: nat)
    requires avg > 0
    ensures Share(a, avg) * avg as real == a as real
    ensures Share(a, avg) * b as real == Share(b, avg) * a as real
  {
    var x, y, d := Share(a, avg), Share(b, avg), avg as real;
    assert x * d == a as real && y * d == b as real;
    Swapped(x, y, d);
  }

  lemma Swapped(x: real, y: real, d: real)
    ensures x * (y * d) == y * (x * d)
  {
  }

  /** The whole number of DPUs that a partition's part of the accesses is worth, and at least one. */
  predicate FirstCount(n: nat, access: nat, avg: nat, toDpu: nat) {
    n * avg <= access * toDpu < (n + 1) * avg || (n == 1 && access * toDpu < avg)
  }

  lemma FirstNumIsCount(access: nat, avg: nat, toDpu: nat)
    requires avg > 0
    ensures FirstCount(FirstNum(Share(access, avg), toDpu), access, avg, toDpu)
  {
    var x := ShareTimes(access, avg, toDpu);
    assert Share(access, avg) >= 0.0;
    FirstNumIs(Share(access, avg), toDpu, x);
    hide Share, FirstNum, FirstCount;
    FloorIsCount(x, access, avg, toDpu);
  }

  lemma FirstNumIs(ratio: real, toDpu: nat, x: real)
    requires ratio >= 0.0 && x == ratio * toDpu as real
    ensures FirstNum(ratio, toDpu) == if x.Floor < 1 then 1 else x.Floor
  {
  }

  lemma ShareTimes(access: nat, avg: nat, toDpu: nat) returns (x: real)
    requires avg > 0
    ensures x == Share(access, avg) * toDpu as real && x >= 0.0 && x * avg as real == (access * toDpu) as real
  {
    var r, t := Share(access, avg), toDpu as real;
    x := r * t;
    RotateFactors(r, t, avg as real);
    ProductAsReal(access, toDpu);
  }

  lemma RotateFactors(x: real, y: real, z: real)
    ensures (x * y) * z == (x * z) * y
  {
  }

  lemma FloorIsCount(x: real, access: nat, avg: nat, toDpu: nat)
    requires avg > 0 && x * avg as real == (access * toDpu) as real && x >= 0.0
    ensures FirstCount(if x.Floor < 1 then 1 else x.Floor, access, avg, toDpu)
  {
    FloorTimes(x, avg, access * toDpu);
  }

  lemma FloorTimes(x: real, d: nat, p: int)
    requires d > 0 && x * d as real == p as real
    ensures x.Floor * d <= p < (x.Floor + 1) * d
  {
    assert x.Floor as real <= x < (x.Floor + 1) as real;
    AtLeastInt(x, x.Floor, d, p);
    BelowInt(x, x.Floor + 1, d, p);
  }

  lemma AtLeastInt(x: real, k: int, d: nat, p: int)
    requires d > 0 && x * d as real == p as real && k as real <= x
    ensures k * d <= p
  {
    Scaled(k as real, x, d as real);
    ProductAsReal(k, d);
  }

  lemma BelowInt(x: real, k: int, d: nat, p: int)
    requires d > 0 && x * d as real == p as real && x < k as real
    ensures p < k * d
  {
    Scaled(x, k as real, d as real);
    ProductAsReal(k, d);
  }

  lemma ProductAsReal(a: int, b: int)
    ensures (a * b) as real == a as real * b as real
  {
  }

  lemma Scaled(x: real, y: real, d: real)
    requires d > 0.0
    ensures x <= y ==> x * d <= y * d
    ensures x < y ==> x * d < y * d
  {
  }

  // ---------------------------------------------------------------------------
  // How large a load can get
  // ---------------------------------------------------------------------------

  ghost function SumReal(s: seq<real>): real {
    if s == [] then 0.0 else SumReal(s[..|s| - 1]) + s[|s| - 1]
  }

  ghost predicate NonNegative(s: seq<real>) {
    forall i :: 0 <= i < |s| ==> s[i] >= 0.0
  }

  lemma {:induction false} SumIsNonNegative(s: seq<real>)
    requires NonNegative(s)
    ensures SumReal(s) >= 0.0
  {
    if s != [] { SumIsNonNegative(s[..|s| - 1]); }
  }

  lemma {:induction false} SumWithout(s: seq<real>, i: nat)
    requires i < |s|
    ensures SumReal(s[i := 0.0]) == SumReal(s) - s[i]
  {
    var t := s[i := 0.0];
    if i < |s| - 1 {
      SumWithout(s[..|s| - 1], i);
      assert t[..|t| - 1] == s[..|s| - 1][i := 0.0];
    } else {
      assert t[..|t| - 1] == s[..|s| - 1];
    }
  }

  /** The shares add up to all accesses. */
  lemma {:induction false} SumOfShares(access: seq<nat>, avg: nat)
    requires avg > 0
    ensures SumReal(Shares(access, avg)) * avg as real == Sum(access) as real
  {
    if access != [] {
      var front, last := access[..|access| - 1], access[|access| - 1];
      SumOfShares(front, avg);
      assert Shares(access, avg)[..|access| - 1] == Shares(front, avg);
      SharesAreProportional(last, last, avg);
      Distributes(SumReal(Shares(front, avg)), Share(last, avg), avg as real);
    }
  }

  lemma Distributes(x: real, y: real, d: real)
    ensures (x + y) * d == x * d + y * d
  {
  }

  /** Rows of different partitions. */
  ghost predicate Different(s: seq<Row>, ratios: seq<real>) {
    && (forall j :: 0 <= j < |s| ==> RowOk(s[j], ratios))
    && (forall i, j :: 0 <= i < j < |s| ==> s[i].id != s[j].id)
  }

  /** If no row with more than one replica has a load below m, all replicas but one per row have m each. */
  lemma {:induction false} LoadsAddUp(s: seq<Row>, ratios: seq<real>, m: real)
    requires Different(s, ratios) && NonNegative(ratios) && m >= 0.0
    requires forall j :: 0 <= j < |s| && s[j].num >= 2 ==> m <= s[j].load
    ensures Times(m, Total(s) - |s|) <= SumReal(ratios)
  {
    if s == [] {
      SumIsNonNegative(ratios);
    } else {
      var front, last := s[..|s| - 1], s[|s| - 1];
      var others := ratios[last.id := 0.0];
      assert Total(s) == Total(front) + last.num;
      assert RowOk(last, ratios);
      OtherRows(s, ratios);
      assert last.load == last.ratio / last.num as real;
      hide Total, SumReal, Different, RowOk, NonNegative, Times;
      LoadsAddUp(front, others, m);
      SumWithout(ratios, last.id);
      OneRow(last.ratio, last.load, last.num, m);
      AddRow(m, Total(front) - |front|, last.num - 1, SumReal(ratios), last.ratio);
    }
  }

  lemma OtherRows(s: seq<Row>, ratios: seq<real>)
    requires Different(s, ratios) && NonNegative(ratios) && s != []
    ensures var last := s[|s| - 1];
      last.id < |ratios| && Different(s[..|s| - 1], ratios[last.id := 0.0]) && NonNegative(ratios[last.id := 0.0])
  {
    var front, last := s[..|s| - 1], s[|s| - 1];
    assert RowOk(last, ratios);
    forall j | 0 <= j < |front| ensures RowOk(front[j], ratios[last.id := 0.0]) {
      assert front[j] == s[j] && RowOk(s[j], ratios);
    }
  }

  ghost function Times(m: real, n: int): real { m * n as real }

  lemma AddRow(m: real, a: int, b: int, sum: real, ratio: real)
    requires Times(m, a) <= sum - ratio && Times(m, b) <= ratio
    ensures Times(m, a + b) <= sum
  {
    assert (a + b) as real == a as real + b as real;
    Distributes(a as real, b as real, m);
  }

  lemma OneRow(ratio: real, load: real, num: nat, m: real)
    requires num >= 1 && ratio >= 0.0 && load == ratio / num as real && m >= 0.0 && (num >= 2 ==> m <= load)
    ensures Times(m, num - 1) <= ratio
  {
    assert load * num as real == ratio;
    if num >= 2 {
      Grow2(m, load, num as real);
      assert m * (num - 1) as real == m * num as real - m;
    }
  }

  lemma Grow2(x: real, y: real, d: real)
    requires x <= y && d >= 0.0
    ensures x * d <= y * d
  {
  }

  /** A replica taken from the least loaded row keeps every bound that is at least twice the average over the
      replicas that can be spared. */
  lemma TakenBound(s: seq<Row>, off: nat, ratios: seq<real>, m: real)
    requires Rows(s, ratios) && NonNegative(ratios) && LeastMultiple(s, off) && Total(s) > |s|
    requires LoadAtMost(s, m) && 2.0 * SumReal(ratios) <= Times(m, Total(s) - |s|)
    ensures LoadAtMost(Taken(s, off), m)
  {
    var row := MultipleRow(s, off, ratios);
    hide *;
    LoadsAddUp(s, ratios, row.load);
    HalfOfBound(row.load, m, Total(s) - |s|, SumReal(ratios));
    AtMostTwice(row.ratio, row.num);
    TakenAtMost(s, off, m);
  }

  lemma MultipleRow(s: seq<Row>, off: nat, ratios: seq<real>) returns (row: Row)
    requires Rows(s, ratios) && LeastMultiple(s, off)
    ensures off < |s| && row == s[off] && row.num >= 2 && row.ratio >= 0.0
    ensures row.load == row.ratio / row.num as real >= 0.0
    ensures Different(s, ratios) && forall j :: 0 <= j < |s| && s[j].num >= 2 ==> row.load <= s[j].load
  {
    row := s[off];
    assert RowOk(row, ratios);
  }

  lemma TakenAtMost(s: seq<Row>, off: nat, m: real)
    requires LoadAtMost(s, m) && off < |s| && s[off].num >= 2 && s[off].ratio / (s[off].num - 1) as real <= m
    ensures LoadAtMost(Taken(s, off), m)
  {
  }

  lemma HalfOfBound(x: real, m: real, n: int, sum: real)
    requires n > 0 && Times(x, n) <= sum && 2.0 * sum <= Times(m, n)
    ensures 2.0 * x <= m
  {
    var d := n as real;
    assert (m - 2.0 * x) * d >= 0.0;
    PositiveFactor(m - 2.0 * x, d);
  }

  lemma AtMostTwice(ratio: real, num: nat)
    requires ratio >= 0.0 && num >= 2
    ensures ratio / (num - 1) as real <= 2.0 * (ratio / num as real)
  {
    var x, y, d := ratio / num as real, ratio / (num - 1) as real, (num - 1) as real;
    assert x * num as real == ratio == y * d;
    assert x * num as real == x * d + x;
    assert x >= 0.0 && x * d >= x by { Grow2(1.0, d, x); }
    TwiceMinus(x, y, d);
    PositiveFactor(2.0 * x - y, d);
  }

  lemma TwiceMinus(x: real, y: real, d: real)
    ensures (2.0 * x - y) * d == x * d + x * d - y * d
  {
  }

  /** The first count leaves each replica with less than two average DPUs' load. */
  lemma FirstLoad(ratio: real, toDpu: nat)
    requires ratio >= 0.0 && toDpu > 0
    ensures ratio / FirstNum(ratio, toDpu) as real <= 2.0 / toDpu as real
  {
    var t, n := toDpu as real, FirstNum(ratio, toDpu) as real;
    var x, y := ratio / n, 2.0 / t;
    assert ratio * t < n + 1.0 <= 2.0 * n;
    assert x * n == ratio && y * t == 2.0;
    assert (x * n) * t == (x * t) * n;
    assert ((2.0 - x * t) * n) >= 0.0;
    PositiveFactor(2.0 - x * t, n);
    assert (y - x) * t >= 0.0;
    PositiveFactor(y - x, t);
  }

  /** What the first allocation makes of partition i. */
  ghost predicate StartRow(r: Row, i: nat, access: seq<nat>, avg: nat, toDpu: nat)
    requires avg > 0
  {
    && i < |access| && r.id == i && RowOk(r, Shares(access, avg))
    && r.num == FirstNum(Share(access[i], avg), toDpu) && FirstCount(r.num, access[i], avg, toDpu)
    && (toDpu > 0 ==> r.load <= 2.0 / toDpu as real)
  }

  lemma FirstRow(r: Row, i: nat, access: seq<nat>, avg: nat, toDpu: nat)
    requires avg > 0 && i < |access|
    requires var ratio := Share(access[i], avg);
      r.id == i && r.ratio == ratio && r.num == FirstNum(ratio, toDpu) && r.load == ratio / r.num as real
    ensures StartRow(r, i, access, avg, toDpu)
  {
    FirstNumIsCount(access[i], avg, toDpu);
    if toDpu > 0 { FirstLoad(r.ratio, toDpu); }
    hide Share, FirstNum, FirstCount;
  }

  lemma StartRows(s: seq<Row>, access: seq<nat>, avg: nat, toDpu: nat)
    requires avg > 0 && |s| == |access| && forall j :: 0 <= j < |s| ==> StartRow(s[j], j, access, avg, toDpu)
    ensures forall j :: 0 <= j < |s| ==> s[j].id == j && RowOk(s[j], Shares(access, avg))
    ensures Rows(s, Shares(access, avg)) && (toDpu > 0 ==> LoadAtMost(s, 2.0 / toDpu as real))
    ensures forall j :: 0 <= j < |s| ==> s[j].num == FirstNum(Share(access[j], avg), toDpu)
    ensures forall j :: 0 <= j < |s| ==> FirstCount(s[j].num, access[j], avg, toDpu)
  {
    hide RowOk, FirstCount, FirstNum, Share;
  }

  // ---------------------------------------------------------------------------
  // The in-place algorithm
  // ---------------------------------------------------------------------------

  class PartitionAccess {
    const accessNum: array<nat>
    const record: array<Row>

    constructor (access: seq<nat>)
      ensures accessNum[..] == access && record.Length == |access| && fresh(accessNum) && fresh(record)
    {
      accessNum := new nat[|access|](i requires 0 <= i < |access| => access[i]);
      record := new Row[|access|](i => Row(i, 0.0, 0, 0.0));
    }

    /** Takes the row at `from` out and shifts the rows from `to` on to close the gap. */
    method MoveDown(from: nat, to: nat)
      requires to <= from < record.Length
      modifies record
      ensures record[..] == MovedDown(old(record[..]), from, to)
    {
      ghost var s := record[..];
      var temp := record[from];
      var ll := from;
      while ll > to
        invariant to <= ll <= from
        invariant forall j :: 0 <= j <= ll ==> record[j] == s[j]
        invariant forall j :: ll < j <= from ==> record[j] == s[j - 1]
        invariant forall j :: from < j < record.Length ==> record[j] == s[j]
      {
        record[ll] := record[ll - 1];
        ll := ll - 1;
      }
      record[to] := temp;
      IsMovedDown(s, record[..], from, to);
    }

    method MoveUp(from: nat, to: nat)
      requires from <= to < record.Length
      modifies record
      ensures record[..] == MovedUp(old(record[..]), from, to)
    {
      ghost var s := record[..];
      var temp := record[from];
      var ll := from;
      while ll < to
        invariant from <= ll <= to
        invariant forall j :: 0 <= j < from ==> record[j] == s[j]
        invariant forall j :: from <= j < ll ==> record[j] == s[j + 1]
        invariant forall j :: ll <= j < record.Length ==> record[j] == s[j]
      {
        record[ll] := record[ll + 1];
        ll := ll + 1;
      }
      record[to] := temp;
      IsMovedUp(s, record[..], from, to);
    }

    /** Moves a row left, in front of the first row with a smaller load. */
    method PlaceDown(off: nat, ghost ratios: seq<real>) returns (k: nat)
      requires off < record.Length && Rows(record[..], ratios)
      modifies record
      ensures PlaceBefore(old(record[..]), off, k) && record[..] == MovedDown(old(record[..]), off, k)
      ensures Rows(record[..], ratios) && Total(record[..]) == old(Total(record[..]))
      ensures forall m :: LoadAtMost(old(record[..]), m) ==> LoadAtMost(record[..], m)
    {
      k := 0;
      while k < off && record[k].load >= record[off].load
        invariant k <= off
        invariant forall j :: 0 <= j < k ==> record[j].load >= record[off].load
      {
        k := k + 1;
      }
      assert PlaceBefore(record[..], off, k);
      hide Rows, Total, LoadAtMost, MovedDown, PlaceBefore;
      TotalMovedDown(record[..], off, k);
      MovedDownRows(record[..], off, k, ratios);
      MoveDown(off, k);
    }

    /** Moves a row right, onto the first row from there on with a smaller load, or to the end. */
    method PlaceUp(off: nat, ghost ratios: seq<real>) returns (k: nat)
      requires off < record.Length && Rows(record[..], ratios)
      modifies record
      ensures PlaceBehind(old(record[..]), off, k) && record[..] == MovedUp(old(record[..]), off, k)
      ensures Rows(record[..], ratios) && Total(record[..]) == old(Total(record[..]))
      ensures forall m :: LoadAtMost(old(record[..]), m) ==> LoadAtMost(record[..], m)
    {
      k := off;
      while k < record.Length && record[k].load >= record[off].load
        invariant off <= k <= record.Length
        invariant forall j :: off <= j < k ==> record[j].load >= record[off].load
      {
        k := k + 1;
      }
      if k == record.Length { k := k - 1; }
      assert PlaceBehind(record[..], off, k);
      hide Rows, Total, LoadAtMost, MovedUp, PlaceBehind;
      TotalMovedUp(record[..], off, k);
      MovedUpRows(record[..], off, k, ratios);
      MoveUp(off, k);
    }

    /** Gives the row at `off` another number of replicas. */
    method SetNum(off: nat, num: nat, ghost ratios: seq<real>)
      requires off < record.Length && num > 0 && Rows(record[..], ratios)
      modifies record
      ensures record[..] == old(record[..])[off := Recount(old(record[off]), num)]
      ensures Rows(record[..], ratios) && Total(record[..]) + old(record[off].num) == old(Total(record[..])) + num
    {
      TotalUpdate(record[..], off, Recount(record[off], num));
      RecountRows(record[..], off, num, ratios);
      record[off] := Recount(record[off], num);
    }

    method MaxDpuNumOff() returns (off: nat)
      requires record.Length > 0
      ensures MostReplicas(record[..], off)
    {
      var max := 0;
      off := 0;
      for i := 0 to record.Length
        invariant off < record.Length && (max > 0 ==> record[off].num == max)
        invariant forall j :: 0 <= j < i ==> record[j].num <= max
        invariant if max > 0 then forall j :: 0 <= j < off ==> record[j].num < max else off == 0
      {
        if record[i].num > max {
          max := record[i].num;
          off := i;
        }
      }
    }

    /** Every partition's truncated share, at least one DPU each. */
    method FirstAllocation(toDpu: nat, avg: nat) returns (total: nat)
      requires avg > 0 && accessNum.Length == record.Length
      modifies record
      ensures Rows(record[..], Shares(accessNum[..], avg)) && total == Total(record[..])
      ensures forall j :: 0 <= j < record.Length ==> record[j].id == j && RowOk(record[j], Shares(accessNum[..], avg))
      ensures forall j :: 0 <= j < record.Length ==> record[j].num == FirstNum(Share(accessNum[j], avg), toDpu)
      ensures forall j :: 0 <= j < record.Length ==> FirstCount(record[j].num, accessNum[j], avg, toDpu)
      ensures toDpu > 0 ==> LoadAtMost(record[..], 2.0 / toDpu as real)
    {
      total := 0;
      ghost var access := accessNum[..];
      assert record[..0] == [];
      hide FirstCount, Share, FirstNum, Shares, RowOk, StartRow;
      for i := 0 to record.Length
        invariant total == Total(record[..i]) && accessNum[..] == access
        invariant forall j :: 0 <= j < i ==> StartRow(record[j], j, access, avg, toDpu)
      {
        var ratio := Share(accessNum[i], avg);
        var num := FirstNum(ratio, toDpu);
        record[i] := Row(i, ratio, num, ratio / num as real);
        FirstRow(record[i], i, access, avg, toDpu);
        total := total + num;
        assert record[..i + 1][..i] == record[..i];
      }
      assert record[..record.Length] == record[..];
      StartRows(record[..], access, avg, toDpu);
    }

    /** Stands for std::sort with cmp_dpu_ratio: highest load first. */
    method SortByLoad(ghost ratios: seq<real>)
      requires Rows(record[..], ratios)
      modifies record
      ensures Rows(record[..], ratios) && Total(record[..]) == old(Total(record[..]))
      ensures multiset(record[..]) == old(multiset(record[..])) && Descending(record[..], record.Length)
      ensures forall m :: LoadAtMost(old(record[..]), m) ==> LoadAtMost(record[..], m)
    {
      hide Rows, Total, MovedDown, LoadAtMost, Descending;
      NothingDescending(record[..]);
      for n := 0 to record.Length
        invariant Rows(record[..], ratios) && Total(record[..]) == old(Total(record[..]))
        invariant multiset(record[..]) == old(multiset(record[..])) && Descending(record[..], n)
        invariant forall m :: LoadAtMost(old(record[..]), m) ==> LoadAtMost(record[..], m)
      {
        ghost var s := record[..];
        var k := PlaceDown(n, ratios);
        SameRows(s, n, k);
        PlacedDescending(s, n, k);
      }
    }

    /** Stands for std::sort with cmp_pid. */
    method SortById(ghost ratios: seq<real>)
      requires Rows(record[..], ratios)
      modifies record
      ensures Rows(record[..], ratios) && Total(record[..]) == old(Total(record[..]))
      ensures multiset(record[..]) == old(multiset(record[..])) && ByIds(record[..], record.Length)
      ensures forall m :: LoadAtMost(old(record[..]), m) ==> LoadAtMost(record[..], m)
    {
      hide Rows, Total, MovedDown, LoadAtMost, ByIds;
      NothingDescending(record[..]);
      for n := 0 to record.Length
        invariant Rows(record[..], ratios) && Total(record[..]) == old(Total(record[..]))
        invariant multiset(record[..]) == old(multiset(record[..])) && ByIds(record[..], n)
        invariant forall m :: LoadAtMost(old(record[..]), m) ==> LoadAtMost(record[..], m)
      {
        ghost var s := record[..];
        var k := 0;
        while k < n && record[k].id <= record[n].id
          invariant k <= n && forall j :: 0 <= j < k ==> s[j].id <= s[n].id
        {
          k := k + 1;
        }
        TotalMovedDown(s, n, k);
        MovedDownRows(s, n, k, ratios);
        SameRows(s, n, k);
        PlacedById(s, n, k);
        MoveDown(n, k);
      }
    }

    /** The last row with more than one replica. The scan stops in bounds, because single replicas
        alone would add up to too little. */
    method LastMultiple(off0: nat) returns (off: nat)
      requires off0 < record.Length && Total(record[..]) > record.Length && OnesAfter(record[..], off0)
      ensures off < record.Length && record[off].num != 1 && OnesAfter(record[..], off)
    {
      off := off0;
      while record[off].num == 1
        invariant 0 <= off < record.Length && OnesAfter(record[..], off)
        decreases off
      {
        TotalOnesAfter(record[..], off);
        off := off - 1;
      }
    }

    /** Takes one replica from the least loaded partition that has more than one, and keeps the order. */
    method TakeOne(off0: nat, ghost ratios: seq<real>) returns (off: nat, ghost k: nat)
      requires off0 < record.Length && Rows(record[..], ratios) && Total(record[..]) > record.Length
      requires NonNegative(ratios) && OnesAfter(record[..], off0) && Descending(record[..], record.Length)
      modifies record
      ensures off < record.Length && Rows(record[..], ratios) && Total(record[..]) == old(Total(record[..])) - 1
      ensures OnesAfter(record[..], off) && Descending(record[..], record.Length)
      ensures ShrinkAt(old(record[..]), off, k, record[..])
      ensures BoundsCarry(old(record[..]), record[..], ratios, old(Total(record[..])))
    {
      off := LastMultiple(off0);
      ghost var before := record[..];
      assert RowOk(before[off], ratios);
      FewerReplicasMoreLoad(before[off].ratio, before[off].num);
      LastIsLeast(before, off);
      TakenBounds(before, off, ratios);
      hide Rows, Total, LoadAtMost, Descending, LeastMultiple, NonNegative, KeepsBound;
      SetNum(off, record[off].num - 1, ratios);
      k := PlaceDown(off, ratios);
      RaisedDescending(before, Taken(before, off), off, k);
    }

    /** The next replica taken. */
    method ShrinkMore(off0: nat, ghost ratios: seq<real>, ghost first: seq<Row>, ghost last: nat, ghost i: nat)
      returns (off: nat)
      requires NonNegative(ratios) && Shrunk(first, record[..], ratios, last, i, off0) && Total(first) >= last + i
      modifies record
      ensures Shrunk(first, record[..], ratios, last, i + 1, off)
    {
      ghost var before := record[..];
      ghost var k;
      hide NonNegative, Rows, Total, Descending, ShrinkRun, ShrinkAt, BoundsCarry, OnesAfter;
      off, k := TakeOne(off0, ratios);
      BoundIsKept(first, before, record[..], ratios, last, Total(before));
      OneMoreShrink(first, before, record[..], i, off, k);
    }

    method Shrink(overflow: nat, ghost ratios: seq<real>)
      requires Rows(record[..], ratios) && Total(record[..]) - overflow >= record.Length > 0
      requires NonNegative(ratios) && Descending(record[..], record.Length)
      modifies record
      ensures Rows(record[..], ratios) && Total(record[..]) == old(Total(record[..])) - overflow
      ensures Descending(record[..], record.Length) && ShrinkRun(old(record[..]), record[..], overflow)
      ensures BoundsCarry(old(record[..]), record[..], ratios, Total(record[..]) + 1)
    {
      hide Rows, Total, Descending, NonNegative, Shrunk, ShrinkRun, BoundsCarry;
      var off := record.Length - 1;
      ghost var first, last := record[..], Total(record[..]) - overflow + 1;
      NothingShrunk(first, ratios, last);
      for i := 0 to overflow
        invariant 0 <= off && Shrunk(first, record[..], ratios, last, i, off)
      {
        off := ShrinkMore(off, ratios, first, last, i);
      }
      ShrunkParts(first, record[..], ratios, last, overflow, off);
    }

    /** The first row from `off0` on with more than one replica; `big0` says there is one. */
    method FirstMultiple(off0: nat, ghost big0: nat) returns (off: nat)
      requires off0 <= big0 < record.Length && record[big0].num >= 2
      ensures off0 <= off <= big0 && record[off].num != 1 && forall j :: off0 <= j < off ==> record[j].num == 1
    {
      off := off0;
      while record[off].num == 1
        invariant off0 <= off <= big0
        invariant forall j :: off0 <= j < off ==> record[j].num == 1
        decreases big0 - off
      {
        off := off + 1;
      }
    }

    /** Adds one replica to that row. */
    method GiveOne(off0: nat, ghost ratios: seq<real>, ghost big0: nat) returns (off: nat, ghost big: nat)
      requires off0 <= big0 < record.Length && record[big0].num >= 2 && Rows(record[..], ratios)
      modifies record
      ensures off <= big < record.Length && record[big].num >= 2 && Rows(record[..], ratios)
      ensures Total(record[..]) == old(Total(record[..])) + 1
      ensures off0 <= off && old(record[off].num) != 1 && forall j :: off0 <= j < off ==> old(record[j].num) == 1
      ensures PlaceBehind(Given(old(record[..]), off), off, big)
      ensures record[..] == MovedUp(Given(old(record[..]), off), off, big)
      ensures GrowAt(old(record[..]), off0, off, big, record[..])
      ensures forall m :: LoadAtMost(old(record[..]), m) ==> LoadAtMost(record[..], m)
    {
      off := FirstMultiple(off0, big0);
      ghost var before := record[..];
      assert RowOk(before[off], ratios);
      GivenLoads(before, off, ratios);
      hide Rows, Total, LoadAtMost;
      SetNum(off, record[off].num + 1, ratios);
      big := PlaceUp(off, ratios);
      MovedUpPlace(Given(before, off), off, big);
    }

    method Grow(less: nat, ghost ratios: seq<real>, ghost big0: nat)
      requires Rows(record[..], ratios) && big0 < record.Length && record[big0].num >= 2
      modifies record
      ensures Rows(record[..], ratios) && Total(record[..]) == old(Total(record[..])) + less
      ensures GrowRuns(old(record[..]), record[..], less)
      ensures forall m :: LoadAtMost(old(record[..]), m) ==> LoadAtMost(record[..], m)
    {
      var off := 0;
      ghost var big := big0;
      ghost var first := record[..];
      assert GrowRun(first, first, 0, 0);
      hide Rows, Total, LoadAtMost, GrowAt, GrowRun;
      for i := 0 to less
        invariant GrowRun(first, record[..], off, i)
        invariant 0 <= off <= big < record.Length && record[big].num >= 2 && Rows(record[..], ratios)
        invariant Total(record[..]) == old(Total(record[..])) + i
        invariant forall m :: LoadAtMost(old(record[..]), m) ==> LoadAtMost(record[..], m)
      {
        ghost var before, from := record[..], off;
        off, big := GiveOne(off, ratios, big);
        OneMoreGrow(first, before, record[..], from, i, off, big);
      }
    }

    method TakeFrom(off: nat, ghost ratios: seq<real>) returns (ghost k: nat)
      requires off < record.Length && Rows(record[..], ratios) && StaysBelow(record[..], off)
      modifies record
      ensures Rows(record[..], ratios) && Total(record[..]) == old(Total(record[..])) - 1
      ensures PlaceBefore(Taken(old(record[..]), off), off, k)
      ensures record[..] == MovedDown(Taken(old(record[..]), off), off, k)
      ensures forall m :: LoadAtMost(old(record[..]), m) ==> LoadAtMost(record[..], m)
    {
      ghost var s := record[..];
      TakenLoads(s, off, ratios);
      assert record[off].num >= 2;
      hide Rows, Total, LoadAtMost, Recount, MovedDown, StaysBelow;
      SetNum(off, record[off].num - 1, ratios);
      assert record[..] == Taken(s, off);
      hide Taken;
      k := PlaceDown(off, ratios);
    }

    method GiveToFirst(ghost ratios: seq<real>) returns (ghost k: nat)
      requires record.Length > 0 && Rows(record[..], ratios)
      modifies record
      ensures Rows(record[..], ratios) && Total(record[..]) == old(Total(record[..])) + 1
      ensures PlaceBehind(Given(old(record[..]), 0), 0, k) && record[..] == MovedUp(Given(old(record[..]), 0), 0, k)
      ensures forall m :: LoadAtMost(old(record[..]), m) ==> LoadAtMost(record[..], m)
    {
      ghost var s := record[..];
      GivenLoads(s, 0, ratios);
      hide Rows, Total, LoadAtMost, Recount, MovedUp;
      SetNum(0, record[0].num + 1, ratios);
      assert record[..] == Given(s, 0);
      hide Given;
      k := PlaceUp(0, ratios);
    }

    /** One round: moves a replica to the first row if the giver still ends up below it. The giver is the one
        of the round before, or else the row with the most replicas. */
    method RebalanceRound(off0: nat, ghost ratios: seq<real>)
      returns (entered: bool, off: nat, ghost k1: nat, ghost k2: nat)
      requires Rows(record[..], ratios) && off0 < record.Length
      modifies record
      ensures off < record.Length && Rows(record[..], ratios) && Total(record[..]) == old(Total(record[..]))
      ensures forall m :: LoadAtMost(old(record[..]), m) ==> LoadAtMost(record[..], m)
      ensures Giver(old(record[..]), off0, off) && entered == StaysBelow(old(record[..]), off)
      ensures if entered then RoundAt(old(record[..]), off, k1, k2, record[..]) else record[..] == old(record[..])
    {
      hide Rows, Total, LoadAtMost, MovedUp, MovedDown, PlaceBefore, PlaceBehind;
      k1, k2 := 0, 0;
      off := off0;
      entered := StaysBelow(record[..], off);
      if !entered {
        off := MaxDpuNumOff();
        entered := StaysBelow(record[..], off);
      }
      if entered {
        k1 := TakeFrom(off, ratios);
        k2 := GiveToFirst(ratios);
      }
    }

    /** Rounds until one is not entered, at most four; the largest load of a replica never rises. */
    method Rebalance(ghost ratios: seq<real>)
      requires Rows(record[..], ratios) && record.Length > 0
      modifies record
      ensures Rows(record[..], ratios) && Total(record[..]) == old(Total(record[..]))
      ensures Balanced(old(record[..]), record.Length - 1, record[..], 4)
      ensures forall m :: LoadAtMost(old(record[..]), m) ==> LoadAtMost(record[..], m)
    {
      hide Rows, Total, LoadAtMost, Balanced, Giver, StaysBelow, RoundAt, Continues;
      var off, loop, entered := record.Length - 1, 0, true;
      ghost var k1, k2;
      ghost var first := record[..];
      AtFirstRound(first);
      while loop < 4 && entered
        invariant 0 <= off < record.Length && Rows(record[..], ratios) && Total(record[..]) == old(Total(record[..]))
        invariant forall m :: LoadAtMost(old(record[..]), m) ==> LoadAtMost(record[..], m)
        invariant loop <= 4
        invariant if entered then Continues(first, record[..], off, 4 - loop)
                  else Balanced(first, |first| - 1, record[..], 4)
        decreases 4 - loop
      {
        ghost var before, off0 := record[..], off;
        entered, off, k1, k2 := RebalanceRound(off, ratios);
        RoundIsBalanced(first, before, off0, off, k1, k2, record[..], 4 - loop);
        loop := loop + 1;
      }
      if entered { NoRoundLeft(first, record[..], off); }
    }

    /** Every partition gets at least one DPU, all DPUs are handed out, and the rows end in partition order,
        each with its share of the accesses. No replica has more accesses than `most`: twice the average of a
        DPU, before or after one DPU is set aside for every partition. */
    method CalculatePartitionSkew(nrDpus: nat, toDpu: nat, totalAccess: nat) returns (ghost phases: Phases)
      requires accessNum.Length == record.Length > 0 && nrDpus >= record.Length && toDpu >= 2
      requires Sum(accessNum[..]) == totalAccess >= record.Length
      modifies record
      ensures Total(record[..]) == nrDpus
      ensures InOrder(record[..], Shares(accessNum[..], totalAccess / record.Length))
      ensures forall p :: 0 <= p < record.Length ==>
        FairRow(record[p], p, accessNum[p], totalAccess / record.Length,
                MostAccesses(totalAccess, record.Length, nrDpus, toDpu))
      ensures multiset(record[..]) == multiset(phases.balanced)
      ensures PhasesOf(phases, accessNum[..], totalAccess / record.Length, nrDpus, toDpu)
    {
      hide Sum, Rows, Total, Descending, ByIds, LoadAtMost, InOrder, Shares, FirstNum, Share, KeepsBound, MostAccesses;
      hide FairRow, FirstCount, ShrinkRun, GrowRuns, Balanced, Started, Adjusted;
      AverageFacts(totalAccess, record.Length);
      var avg := totalAccess / record.Length;
      ghost var ratios := Shares(accessNum[..], avg);
      assert NonNegative(ratios);
      var total := FirstAllocation(toDpu, avg);
      ghost var big := SomeAverage(accessNum[..]);
      AverageGetsTwo(accessNum[big], avg, toDpu);
      ghost var most := record[..][big];
      assert most in multiset(record[..]);
      ghost var started := record[..];
      assert Started(started, accessNum[..], avg, toDpu) by { StartedRows(started, accessNum[..], avg, toDpu); }
      SortByLoad(ratios);
      ghost var sorted := record[..];
      ghost var bound := LoadBound(record[..], ratios, accessNum[..], avg, nrDpus, toDpu);
      if total > nrDpus {
        Shrink(total - nrDpus, ratios);
      } else if total < nrDpus {
        assert most in multiset(record[..]);
        big :| 0 <= big < record.Length && record[..][big] == most;
        Grow(nrDpus - total, ratios, big);
      }
      ghost var adjusted := record[..];
      AdjustedRows(sorted, adjusted, total, nrDpus);
      Rebalance(ratios);
      phases := Phases(started, sorted, adjusted, record[..]);
      SortById(ratios);
      RowsInOrder(record[..], ratios);
      AllFair(record[..], accessNum[..], avg, bound, MostAccesses(totalAccess, record.Length, nrDpus, toDpu));
    }
  }

  /** The rows after each phase: as first counted, by load, with all DPUs given out, and balanced. */
  datatype Phases = Phases(started: seq<Row>, sorted: seq<Row>, adjusted: seq<Row>, balanced: seq<Row>)

  /** Row p is partition p, with the first count of its accesses. */
  ghost predicate Started(s: seq<Row>, access: seq<nat>, avg: nat, toDpu: nat) {
    && |s| == |access|
    && forall p :: 0 <= p < |s| ==>
         s[p].id == p && s[p].ratio * avg as real == access[p] as real && FirstCount(s[p].num, access[p], avg, toDpu)
  }

  /** From `total` to nrDpus replicas, one by one. */
  ghost predicate Adjusted(s: seq<Row>, t: seq<Row>, total: nat, nrDpus: nat) {
    if total > nrDpus then ShrinkRun(s, t, total - nrDpus)
    else if total < nrDpus then GrowRuns(s, t, nrDpus - total)
    else s == t
  }

  ghost predicate PhasesOf(f: Phases, access: seq<nat>, avg: nat, nrDpus: nat, toDpu: nat) {
    && Started(f.started, access, avg, toDpu) && |access| > 0
    && multiset(f.sorted) == multiset(f.started) && Descending(f.sorted, |f.sorted|)
    && Adjusted(f.sorted, f.adjusted, Total(f.started), nrDpus)
    && |f.adjusted| == |access| && Balanced(f.adjusted, |f.adjusted| - 1, f.balanced, 4)
  }

  lemma StartedRows(s: seq<Row>, access: seq<nat>, avg: nat, toDpu: nat)
    requires avg > 0 && |s| == |access| && forall p :: 0 <= p < |s| ==> s[p].id == p && RowOk(s[p], Shares(access, avg))
    requires forall p :: 0 <= p < |s| ==> FirstCount(s[p].num, access[p], avg, toDpu)
    ensures Started(s, access, avg, toDpu)
  {
    hide FirstCount;
    forall p | 0 <= p < |s| ensures s[p].ratio * avg as real == access[p] as real {
      assert RowOk(s[p], Shares(access, avg));
      SharesAreProportional(access[p], access[p], avg);
    }
  }

  lemma AdjustedRows(s: seq<Row>, t: seq<Row>, total: nat, nrDpus: nat)
    requires total > nrDpus ==> ShrinkRun(s, t, total - nrDpus)
    requires total < nrDpus ==> GrowRuns(s, t, nrDpus - total)
    requires total == nrDpus ==> s == t
    ensures Adjusted(s, t, total, nrDpus)
  {
    hide ShrinkRun, GrowRuns;
  }

  ghost function MaxReal(a: real, b: real): real { if a < b then b else a }

  /** A DPU has toDpu-th of an average partition's accesses on average, or this part of all accesses. */
  ghost function MostAccesses(totalAccess: nat, parts: nat, nrDpus: nat, toDpu: nat): real
    requires 0 < parts <= nrDpus && toDpu > 0
  {
    2.0 * MaxReal((totalAccess / parts) as real / toDpu as real, totalAccess as real / (nrDpus - parts + 1) as real)
  }

  /** Row of partition p: its share of the accesses, and replicas that have at most `most` accesses each. */
  ghost predicate FairRow(r: Row, p: nat, access: nat, avg: nat, most: real) {
    r.id == p && r.num >= 1 && r.ratio * avg as real == access as real && access as real <= most * r.num as real
  }

  /** The same bound for shares instead of accesses, and why the first allocation and the shrinking keep it. */
  lemma LoadBound(s: seq<Row>, ratios: seq<real>, access: seq<nat>, avg: nat, nrDpus: nat, toDpu: nat)
    returns (bound: real)
    requires 0 < |s| == |access| <= nrDpus && toDpu > 0 && avg > 0 && avg == Sum(access) / |s|
    requires ratios == Shares(access, avg) && LoadAtMost(s, 2.0 / toDpu as real)
    ensures LoadAtMost(s, bound) && KeepsBound(s, ratios, nrDpus + 1, bound)
    ensures bound * avg as real == MostAccesses(Sum(access), |s|, nrDpus, toDpu)
  {
    hide SumReal, Sum, Shares, MaxReal, LoadAtMost;
    var sum, n := SumReal(ratios), (nrDpus - |s| + 1) as real;
    SumOfShares(access, avg);
    bound := 2.0 * MaxReal(1.0 / toDpu as real, sum / n);
    BoundIsEnough(sum, n, toDpu, bound);
    BoundInAccesses(sum, Sum(access), avg, n, toDpu, bound);
    LoadsBelow(s, 2.0 / toDpu as real, bound);
  }

  lemma LoadsBelow(s: seq<Row>, m: real, bound: real)
    requires LoadAtMost(s, m) && m <= bound
    ensures LoadAtMost(s, bound)
  {
  }

  lemma BoundIsEnough(sum: real, n: real, toDpu: nat, bound: real)
    requires n > 0.0 && toDpu > 0 && bound == 2.0 * MaxReal(1.0 / toDpu as real, sum / n)
    ensures 2.0 / toDpu as real <= bound && 2.0 * sum <= bound * n
  {
    var x, y := 1.0 / toDpu as real, sum / n;
    assert 2.0 / toDpu as real == 2.0 * x;
    assert y * n == sum;
    Grow2(2.0 * y, bound, n);
    RotateFactors(2.0, y, n);
  }

  lemma BoundInAccesses(sum: real, total: nat, avg: nat, n: real, toDpu: nat, bound: real)
    requires n > 0.0 && toDpu > 0 && avg > 0 && sum * avg as real == total as real
    requires bound == 2.0 * MaxReal(1.0 / toDpu as real, sum / n)
    ensures bound * avg as real == 2.0 * MaxReal(avg as real / toDpu as real, total as real / n)
  {
    var a, x, y := avg as real, 1.0 / toDpu as real, sum / n;
    assert x * a == a / toDpu as real;
    assert y * a == total as real / n by { assert (y * a) * n == (y * n) * a; }
    if x < y { Scaled(x, y, a); } else { Scaled(y, x, a); }
  }

  lemma AllFair(s: seq<Row>, access: seq<nat>, avg: nat, bound: real, most: real)
    requires |s| == |access| && avg > 0 && InOrder(s, Shares(access, avg)) && LoadAtMost(s, bound)
    requires bound * avg as real == most
    ensures forall p :: 0 <= p < |s| ==> FairRow(s[p], p, access[p], avg, most)
  {
    forall p | 0 <= p < |s| ensures FairRow(s[p], p, access[p], avg, most) {
      SharesAreProportional(access[p], access[p], avg);
      assert RowOk(s[p], Shares(access, avg));
      FairAccesses(s[p].ratio, s[p].num, s[p].load, avg, bound);
    }
  }

  lemma FairAccesses(ratio: real, num: nat, load: real, avg: nat, bound: real)
    requires num >= 1 && load == ratio / num as real && load <= bound
    ensures ratio * avg as real <= (bound * avg as real) * num as real
  {
    var a, n := avg as real, num as real;
    assert load * n == ratio;
    Grow2(load, bound, n);
    Grow2(ratio, bound * n, a);
    assert (bound * n) * a == (bound * a) * n;
  }

  /** The first of the rows with the most replicas. */
  predicate MostReplicas(s: seq<Row>, off: nat) {
    && off < |s| && (forall j :: 0 <= j < |s| ==> s[j].num <= s[off].num)
    && (forall j :: 0 <= j < off ==> s[j].num < s[off].num)
  }

  /** With one replica less, row `off` would still have less load than the first row. Nothing is below a division
      by zero. */
  predicate StaysBelow(s: seq<Row>, off: nat)
    requires off < |s|
  {
    s[off].num >= 2 && s[off].ratio / (s[off].num - 1) as real < s[0].load
  }

  /** One replica less for the least loaded row that can spare one. */
  ghost predicate ShrinkAt(s: seq<Row>, off: nat, k: nat, t: seq<Row>) {
    && LeastMultiple(s, off) && OnesAfter(s, off)
    && PlaceBefore(Taken(s, off), off, k) && t == MovedDown(Taken(s, off), off, k)
  }

  ghost predicate ShrinkRun(s: seq<Row>, t: seq<Row>, n: nat)
    decreases n
  {
    if n == 0 then s == t else exists m, off: nat, k: nat :: ShrinkRun(s, m, n - 1) && ShrinkAt(m, off, k, t)
  }

  /** After i replicas taken, down to `off`; `last` is one more than the number of replicas to end with. */
  ghost predicate Shrunk(first: seq<Row>, s: seq<Row>, ratios: seq<real>, last: nat, i: nat, off: nat) {
    && off < |s| == |first| < last && Rows(s, ratios) && OnesAfter(s, off) && Descending(s, |s|)
    && Total(s) + i == Total(first) && ShrinkRun(first, s, i) && BoundsCarry(first, s, ratios, last)
  }

  lemma NothingShrunk(s: seq<Row>, ratios: seq<real>, last: nat)
    requires Rows(s, ratios) && Descending(s, |s|) && 0 < |s| < last
    ensures Shrunk(s, s, ratios, last, 0, |s| - 1)
  {
    SameBound(s, ratios, last);
  }

  lemma ShrunkParts(first: seq<Row>, s: seq<Row>, ratios: seq<real>, last: nat, i: nat, off: nat)
    requires Shrunk(first, s, ratios, last, i, off)
    ensures Rows(s, ratios) && Descending(s, |s|) && |s| == |first|
    ensures Total(s) + i == Total(first) && ShrinkRun(first, s, i) && BoundsCarry(first, s, ratios, last)
  {
  }

  lemma OneMoreShrink(s: seq<Row>, m: seq<Row>, t: seq<Row>, n: nat, off: nat, k: nat)
    requires ShrinkRun(s, m, n) && ShrinkAt(m, off, k, t)
    ensures ShrinkRun(s, t, n + 1)
  {
    hide ShrinkAt;
  }

  /** One replica more for the first row from `from` on that has more than one. */
  ghost predicate GrowAt(s: seq<Row>, from: nat, off: nat, k: nat, t: seq<Row>) {
    && from <= off < |s| && s[off].num != 1 && (forall j :: from <= j < off ==> s[j].num == 1)
    && PlaceBehind(Given(s, off), off, k) && t == MovedUp(Given(s, off), off, k)
  }

  ghost predicate GrowRun(s: seq<Row>, t: seq<Row>, off: nat, n: nat)
    decreases n
  {
    if n == 0 then s == t && off == 0
    else exists m, from: nat, k: nat :: GrowRun(s, m, from, n - 1) && GrowAt(m, from, off, k, t)
  }

  ghost predicate GrowRuns(s: seq<Row>, t: seq<Row>, n: nat) {
    exists off :: GrowRun(s, t, off, n)
  }

  lemma OneMoreGrow(s: seq<Row>, m: seq<Row>, t: seq<Row>, from: nat, n: nat, off: nat, k: nat)
    requires GrowRun(s, m, from, n) && GrowAt(m, from, off, k, t)
    ensures GrowRun(s, t, off, n + 1)
  {
    hide GrowAt;
  }

  /** The row that may give a replica: the one of the round before, if it can, or the one with the most. */
  ghost predicate Giver(s: seq<Row>, off0: nat, off: nat)
    requires off0 < |s|
  {
    if StaysBelow(s, off0) then off == off0 else MostReplicas(s, off)
  }

  /** A replica moves from row `off` to the row that is first after the giver found its new place. */
  ghost predicate RoundAt(s: seq<Row>, off: nat, k1: nat, k2: nat, t: seq<Row>) {
    && off < |s| && s[off].num >= 2 && PlaceBefore(Taken(s, off), off, k1)
    && var m := Given(MovedDown(Taken(s, off), off, k1), 0);
       PlaceBehind(m, 0, k2) && t == MovedUp(m, 0, k2)
  }

  /** t is what s becomes in at most n rounds, the first one with the giver off0 of the round before; fewer only
      if a round is not entered. */
  ghost predicate Balanced(s: seq<Row>, off0: nat, t: seq<Row>, n: nat)
    decreases n
  {
    && off0 < |s|
    && if n == 0 then t == s
       else exists off: nat ::
         && Giver(s, off0, off) && off < |s|
         && if StaysBelow(s, off)
            then exists k1: nat, k2: nat, m :: RoundAt(s, off, k1, k2, m) && Balanced(m, off, t, n - 1)
            else t == s
  }

  /** Whatever at most n more rounds make of s, four make of `first`. */
  ghost predicate Continues(first: seq<Row>, s: seq<Row>, off: nat, n: nat) {
    |first| > 0 && forall t :: Balanced(s, off, t, n) ==> Balanced(first, |first| - 1, t, 4)
  }

  lemma AtFirstRound(first: seq<Row>)
    requires |first| > 0
    ensures Continues(first, first, |first| - 1, 4)
  {
    hide Balanced;
  }

  lemma RoundIsBalanced(first: seq<Row>, s: seq<Row>, off0: nat, off: nat, k1: nat, k2: nat, m: seq<Row>, n: nat)
    requires off0 < |s| && off < |s| && Giver(s, off0, off) && n > 0 && Continues(first, s, off0, n)
    requires if StaysBelow(s, off) then RoundAt(s, off, k1, k2, m) else m == s
    ensures if StaysBelow(s, off) then Continues(first, m, off, n - 1) else Balanced(first, |first| - 1, m, 4)
  {
    hide Giver, StaysBelow, RoundAt;
    if StaysBelow(s, off) {
      var left: nat := n - 1;
      forall t | Balanced(m, off, t, left) ensures Balanced(first, |first| - 1, t, 4) {
        assert Balanced(s, off0, t, n);
      }
    } else {
      assert Balanced(s, off0, m, n);
    }
  }

  lemma NoRoundLeft(first: seq<Row>, s: seq<Row>, off: nat)
    requires off < |s| && Continues(first, s, off, 0)
    ensures Balanced(first, |first| - 1, s, 4)
  {
    assert Balanced(s, off, s, 0);
  }

  /** A bound on the loads that also is at least twice the average over the replicas that can be spared, when
      there are `total` of them. */
  ghost predicate KeepsBound(s: seq<Row>, ratios: seq<real>, total: nat, m: real) {
    LoadAtMost(s, m) && 2.0 * SumReal(ratios) <= Times(m, total - |s|)
  }

  lemma TakenBounds(s: seq<Row>, off: nat, ratios: seq<real>)
    requires Rows(s, ratios) && NonNegative(ratios) && LeastMultiple(s, off) && Total(s) > |s|
    ensures forall m :: KeepsBound(s, ratios, Total(s), m) ==> LoadAtMost(Taken(s, off), m)
  {
    assert off < |s| && s[off].num >= 2;
    hide Rows, NonNegative, LeastMultiple, Total, LoadAtMost, Taken, SumReal, Times;
    forall m | KeepsBound(s, ratios, Total(s), m) ensures LoadAtMost(Taken(s, off), m) {
      TakenBound(s, off, ratios, m);
    }
  }

  /** All such bounds on s are bounds on t. */
  ghost predicate BoundsCarry(s: seq<Row>, t: seq<Row>, ratios: seq<real>, total: nat) {
    forall m :: KeepsBound(s, ratios, total, m) ==> LoadAtMost(t, m)
  }

  lemma SameBound(s: seq<Row>, ratios: seq<real>, total: nat)
    ensures BoundsCarry(s, s, ratios, total)
  {
  }

  /** What keeps a bound for the last replica taken kept it for those before. */
  lemma BoundIsKept(first: seq<Row>, s: seq<Row>, t: seq<Row>, ratios: seq<real>, last: nat, total: nat)
    requires |s| == |first| < last <= total && NonNegative(ratios)
    requires BoundsCarry(first, s, ratios, last) && BoundsCarry(s, t, ratios, total)
    ensures BoundsCarry(first, t, ratios, last)
  {
    SumIsNonNegative(ratios);
    hide LoadAtMost, SumReal;
    forall m | KeepsBound(first, ratios, last, m) ensures LoadAtMost(t, m) {
      assert (last - |s|) as real > 0.0 && m * (last - |s|) as real >= 0.0;
      PositiveFactor(m, (last - |s|) as real);
      Grow2((last - |s|) as real, (total - |s|) as real, m);
      assert KeepsBound(s, ratios, total, m);
    }
  }

  predicate Descending(s: seq<Row>, n: nat)
    requires n <= |s|
  {
    forall i, j :: 0 <= i < j < n ==> s[i].load >= s[j].load
  }

  predicate ByIds(s: seq<Row>, n: nat)
    requires n <= |s|
  {
    forall i, j :: 0 <= i < j < n ==> s[i].id <= s[j].id
  }

  predicate OnesAfter(s: seq<Row>, off: nat)
    requires off < |s|
  {
    forall j :: off < j < |s| ==> s[j].num == 1
  }

  /** Row j is partition j, with its own share and at least one replica. */
  predicate InOrder(s: seq<Row>, ratios: seq<real>) {
    |s| == |ratios| && forall j :: 0 <= j < |s| ==> s[j].id == j && RowOk(s[j], ratios)
  }

  /** A giver that stays below the first row breaks no bound on the loads. */
  lemma TakenLoads(s: seq<Row>, off: nat, ratios: seq<real>)
    requires Rows(s, ratios) && off < |s| && s[off].num >= 2 && s[off].ratio / (s[off].num - 1) as real < s[0].load
    ensures forall m :: LoadAtMost(s, m) ==> LoadAtMost(Taken(s, off), m)
  {
    hide Rows;
    forall m | LoadAtMost(s, m) ensures LoadAtMost(Taken(s, off), m) { assert s[0].load <= m; }
  }

  /** Neither does one replica more for any row. */
  lemma GivenLoads(s: seq<Row>, off: nat, ratios: seq<real>)
    requires Rows(s, ratios) && off < |s|
    ensures forall m :: LoadAtMost(s, m) ==> LoadAtMost(Given(s, off), m)
  {
    assert RowOk(s[off], ratios);
    hide Rows;
    FewerReplicasMoreLoad(s[off].ratio, s[off].num + 1);
    forall m | LoadAtMost(s, m) ensures LoadAtMost(Given(s, off), m) { assert s[off].load <= m; }
  }

  lemma IsMovedDown(s: seq<Row>, r: seq<Row>, from: nat, to: nat)
    requires to <= from < |s| == |r| && r[to] == s[from]
    requires (forall j :: 0 <= j < to ==> r[j] == s[j]) && (forall j :: to < j <= from ==> r[j] == s[j - 1])
    requires forall j :: from < j < |s| ==> r[j] == s[j]
    ensures r == MovedDown(s, from, to)
  {
  }

  lemma IsMovedUp(s: seq<Row>, r: seq<Row>, from: nat, to: nat)
    requires from <= to < |s| == |r| && r[to] == s[from]
    requires (forall j :: 0 <= j < from ==> r[j] == s[j]) && (forall j :: from <= j < to ==> r[j] == s[j + 1])
    requires forall j :: to < j < |s| ==> r[j] == s[j]
    ensures r == MovedUp(s, from, to)
  {
  }

  lemma MovedUpPlace(s: seq<Row>, from: nat, to: nat)
    requires from <= to < |s|
    ensures MovedUp(s, from, to)[to] == s[from]
  {
  }

  /** Row off has more than one replica, and no more load than any other such row. */
  predicate LeastMultiple(s: seq<Row>, off: nat) {
    && off < |s| && s[off].num >= 2
    && forall j :: 0 <= j < |s| && s[j].num >= 2 ==> s[off].load <= s[j].load
  }

  lemma LastIsLeast(s: seq<Row>, off: nat)
    requires off < |s| && Descending(s, |s|) && OnesAfter(s, off) && s[off].num >= 2
    ensures LeastMultiple(s, off)
  {
  }

  /** A row whose load rose, moved in front of the first smaller one, restores the order. */
  lemma RaisedDescending(s: seq<Row>, t: seq<Row>, off: nat, k: nat)
    requires Descending(s, |s|) && k <= off < |s| == |t| && t == s[off := t[off]] && t[off].load >= s[off].load
    requires (forall j :: 0 <= j < k ==> t[j].load >= t[off].load) && (k < off ==> t[k].load < t[off].load)
    ensures Descending(MovedDown(t, off, k), |s|)
  {
    var r := MovedDown(t, off, k);
    forall i, j | 0 <= i < j < |r| ensures r[i].load >= r[j].load {
    }
  }

  lemma NothingDescending(s: seq<Row>)
    ensures Descending(s, 0) && ByIds(s, 0)
  {
  }

  lemma PlacedDescending(s: seq<Row>, n: nat, k: nat)
    requires k <= n < |s| && Descending(s, n)
    requires (forall j :: 0 <= j < k ==> s[j].load >= s[n].load) && (k < n ==> s[k].load < s[n].load)
    ensures Descending(MovedDown(s, n, k), n + 1)
  {
  }

  lemma PlacedById(s: seq<Row>, n: nat, k: nat)
    requires k <= n < |s| && ByIds(s, n)
    requires (forall j :: 0 <= j < k ==> s[j].id <= s[n].id) && (k < n ==> s[k].id > s[n].id)
    ensures ByIds(MovedDown(s, n, k), n + 1)
  {
  }

  lemma RowsInOrder(s: seq<Row>, ratios: seq<real>)
    requires Rows(s, ratios) && ByIds(s, |s|)
    ensures InOrder(s, ratios)
  {
    forall j | 0 <= j < |s| ensures s[j].id == j {
      SortedIdsAreIndices(s, ratios, j);
    }
  }
}
