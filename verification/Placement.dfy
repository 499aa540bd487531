/** Which DPU holds which partition, computed twice: by the router and by the loader. */
module Placement {
  import Allocator
  import opened Order

  /** The replicas of the partitions before p. */
  function Before(counts: seq<nat>, p: nat): nat
    requires p <= |counts|
  {
    if p == 0 then 0 else Before(counts, p - 1) + counts[p - 1]
  }

  /** DPU d is one of partition p's. */
  predicate Owns(counts: seq<nat>, p: nat, d: nat) {
    p < |counts| && Before(counts, p) <= d < Before(counts, p + 1)
  }

  lemma {:induction false} BeforeGrows(counts: seq<nat>, p: nat, q: nat)
    requires p <= q <= |counts|
    ensures Before(counts, p) <= Before(counts, q)
  {
    if p < q { BeforeGrows(counts, p, q - 1); }
  }

  lemma {:induction false} BeforePrefix(counts: seq<nat>, more: seq<nat>, p: nat)
    requires p <= |counts| <= |more| && more[..|counts|] == counts
    ensures Before(more, p) == Before(counts, p)
  {
    if p > 0 {
      BeforePrefix(counts, more, p - 1);
      assert more[p - 1] == more[..|counts|][p - 1];
    }
  }

  /** No DPU has two partitions. */
  lemma OwnerIsUnique(counts: seq<nat>, p: nat, q: nat, d: nat)
    requires Owns(counts, p, d) && Owns(counts, q, d)
    ensures p == q
  {
    if p < q { BeforeGrows(counts, p + 1, q); }
    if q < p { BeforeGrows(counts, q + 1, p); }
  }

  /** Every DPU below the number of replicas has one. */
  lemma {:induction false} OwnerExists(counts: seq<nat>, p: nat, d: nat) returns (q: nat)
    requires p <= |counts| && d < Before(counts, p)
    ensures q < p && Owns(counts, q, d)
  {
    if d >= Before(counts, p - 1) { q := p - 1; } else { q := OwnerExists(counts, p - 1, d); }
  }

  // ---------------------------------------------------------------------------
  // The router
  // ---------------------------------------------------------------------------

  /** The last partition whose low key is at most k. */
  predicate Routes(low: seq<int>, k: int, p: nat) {
    p < |low| && low[p] <= k && (p + 1 < |low| ==> k < low[p + 1])
  }

  class DramLevel {
    const lowBoundKey: array<int>
    const startDpuId: array<nat>
    const replicas: array<nat>
    var dpuIdToPartition: map<nat, nat>

    constructor (low: seq<int>)
      ensures lowBoundKey[..] == low && startDpuId.Length == replicas.Length == |low|
      ensures fresh(lowBoundKey) && fresh(startDpuId) && fresh(replicas)
    {
      lowBoundKey := new int[|low|](i requires 0 <= i < |low| => low[i]);
      startDpuId := new nat[|low|](i => 0);
      replicas := new nat[|low|](i => 0);
      dpuIdToPartition := map[];
    }

    /** Start positions and the map agree with the replica counts. */
    ghost predicate Placed()
      reads this, startDpuId, replicas
    {
      && startDpuId.Length == replicas.Length
      && (forall p :: 0 <= p < replicas.Length ==> startDpuId[p] == Before(replicas[..], p))
      && (forall p: nat, d: nat :: Owns(replicas[..], p, d) ==> d in dpuIdToPartition && dpuIdToPartition[d] == p)
    }

    /** Overwrites the map for all DPUs in use; older entries beyond stay. */
    method GetStartDpuId()
      requires startDpuId.Length == replicas.Length && startDpuId != replicas
      modifies this`dpuIdToPartition, startDpuId
      ensures Placed()
    {
      ghost var counts := replicas[..];
      var down := 0;
      for i := 0 to replicas.Length
        invariant replicas[..] == counts && down == Before(counts, i)
        invariant forall p :: 0 <= p < i ==> startDpuId[p] == Before(counts, p)
        invariant forall p: nat, d: nat :: p < i && Owns(counts, p, d) ==>
          d in dpuIdToPartition && dpuIdToPartition[d] == p
      {
        startDpuId[i] := down;
        down := down + replicas[i];
        BeforeAll(counts, i);
        MapReplicas(i);
      }
    }

    /** Maps the DPUs of partition i. */
    method MapReplicas(i: nat)
      requires i < replicas.Length == startDpuId.Length
      modifies this`dpuIdToPartition
      ensures forall d: nat :: startDpuId[i] <= d < startDpuId[i] + replicas[i] ==>
        d in dpuIdToPartition && dpuIdToPartition[d] == i
      ensures forall d: nat :: d < startDpuId[i] && d in old(dpuIdToPartition) ==>
        d in dpuIdToPartition && dpuIdToPartition[d] == old(dpuIdToPartition)[d]
    {
      for j := 0 to replicas[i]
        invariant forall d: nat :: startDpuId[i] <= d < startDpuId[i] + j ==>
          d in dpuIdToPartition && dpuIdToPartition[d] == i
        invariant forall d: nat :: d < startDpuId[i] && d in old(dpuIdToPartition) ==>
          d in dpuIdToPartition && dpuIdToPartition[d] == old(dpuIdToPartition)[d]
      {
        dpuIdToPartition := dpuIdToPartition[startDpuId[i] + j := i];
      }
    }

    method SearchPartition(key: int) returns (p: nat)
      requires lowBoundKey.Length > 0 && lowBoundKey[0] <= key
      requires forall i, j :: 0 <= i < j < lowBoundKey.Length ==> lowBoundKey[i] < lowBoundKey[j]
      ensures Routes(lowBoundKey[..], key, p)
    {
      var l, r := 0, lowBoundKey.Length;
      while l < r
        invariant 0 <= l <= r <= lowBoundKey.Length
        invariant forall j :: 0 <= j < l ==> lowBoundKey[j] <= key
        invariant forall j :: r <= j < lowBoundKey.Length ==> lowBoundKey[j] > key
      {
        var m := l + (r - l) / 2;
        if lowBoundKey[m] <= key { l := m + 1; } else { r := m; }
      }
      p := l - 1;
    }

    /** The DPU for a key: the partition of its range, spread over the replicas by `rd`. A sampled
        search also counts the access. */
    method SearchUpperLevel(key: int, rd: nat, sample: bool, accessNum: array<nat>) returns (d: nat, ghost p: nat)
      requires Placed() && lowBoundKey.Length == replicas.Length == accessNum.Length > 0 && lowBoundKey[0] <= key
      requires forall i, j :: 0 <= i < j < lowBoundKey.Length ==> lowBoundKey[i] < lowBoundKey[j]
      requires forall i :: 0 <= i < replicas.Length ==> replicas[i] >= 1
      requires accessNum != replicas && accessNum != startDpuId
      modifies accessNum
      ensures Placed() && Routes(lowBoundKey[..], key, p) && Owns(replicas[..], p, d)
      ensures d in dpuIdToPartition && dpuIdToPartition[d] == p
      ensures (d - Before(replicas[..], p)) % replicas[p] == rd % replicas[p]
      ensures accessNum[..] == if sample then old(accessNum[..])[p := old(accessNum[p]) + 1] else old(accessNum[..])
    {
      var q := SearchPartition(key);
      p := q;
      if sample { accessNum[q] := accessNum[q] + 1; }
      d := startDpuId[q] + rd % replicas[q];
      assert Before(replicas[..], q + 1) == Before(replicas[..], q) + replicas[q];
      assert Owns(replicas[..], p, d);
      assert (rd % replicas[q]) % replicas[q] == rd % replicas[q] by { SmallRemainder(rd % replicas[q], replicas[q]); }
    }
  }

  lemma SmallRemainder(r: nat, n: nat)
    requires r < n
    ensures r % n == r
  {
  }

  /** DPU d is the one that the spreading number j after rd leads to, among those of partition p. */
  predicate Spread(counts: seq<nat>, p: nat, rd: nat, j: nat, d: nat) {
    Owns(counts, p, d) && counts[p] > 0 && (d - Before(counts, p)) % counts[p] == (rd + j) % counts[p]
  }

  /** Over as many consecutive spreading numbers as a partition has DPUs, each of its DPUs comes up exactly once. */
  lemma EveryReplicaOnce(counts: seq<nat>, p: nat, rd: nat, d: nat) returns (i: nat)
    requires Owns(counts, p, d)
    ensures i < counts[p] && Spread(counts, p, rd, i, d)
    ensures forall j: nat :: j < counts[p] && Spread(counts, p, rd, j, d) ==> j == i
  {
    var n, r := counts[p], d - Before(counts, p);
    assert Before(counts, p + 1) == Before(counts, p) + n;
    i := (r + n - rd % n) % n;
    SmallRemainder(r, n);
    Wraps(rd, r, n, i);
    assert Spread(counts, p, rd, i, d);
    hide Before;
    forall j: nat | j < n && Spread(counts, p, rd, j, d) ensures j == i {
      assert (rd + j) % n == r % n == (rd + i) % n;
      SameRemainder(rd, i, j, n);
    }
  }

  lemma Wraps(rd: nat, r: nat, n: nat, i: nat)
    requires r < n && i == (r + n - rd % n) % n
    ensures i < n && (rd + i) % n == r
  {
    var s, q := rd % n, rd / n;
    assert rd == n * q + s;
    assert i == if r >= s then r - s else r + n - s by {
      if r >= s { RemainderIs(r + n - s, n, 1, r - s); } else { RemainderIs(r + n - s, n, 0, r + n - s); }
    }
    if r >= s { RemainderIs(rd + i, n, q, r); } else { RemainderIs(rd + i, n, q + 1, r); }
  }

  lemma RemainderIs(x: nat, n: nat, q: nat, r: nat)
    requires r < n && x == n * q + r
    ensures x % n == r
  {
    var k := x / n;
    assert x == n * k + x % n;
    if k < q { Multiples(n, k, q); }
    if k > q { Multiples(n, q, k); }
  }

  lemma Multiples(n: nat, a: nat, b: nat)
    requires a < b
    ensures n * a + n <= n * b
  {
    var c: nat := b - a - 1;
    Spelled(n, a, c);
    assert b == a + 1 + c;
  }

  lemma Spelled(n: nat, a: nat, c: nat)
    ensures n * (a + 1 + c) == n * a + n + n * c && n * c >= 0
  {
  }

  lemma SameRemainder(rd: nat, i: nat, j: nat, n: nat)
    requires i < n && j < n && (rd + i) % n == (rd + j) % n
    ensures i == j
  {
    var a, b := (rd + i) / n, (rd + j) / n;
    assert rd + i == n * a + (rd + i) % n && rd + j == n * b + (rd + j) % n;
    if a < b { Multiples(n, a, b); }
    if b < a { Multiples(n, b, a); }
  }

  /** All DPUs of earlier partitions come before those of partition i. */
  lemma BeforeAll(counts: seq<nat>, i: nat)
    requires i < |counts|
    ensures forall p: nat, d: nat :: p < i && Owns(counts, p, d) ==> d < Before(counts, i)
  {
    forall p: nat, d: nat | p < i && Owns(counts, p, d) ensures d < Before(counts, i) { BeforeGrows(counts, p + 1, i); }
  }

  // ---------------------------------------------------------------------------
  // The loader
  // ---------------------------------------------------------------------------

  class ReplicasInfo {
    var curDpu: nat
    var curRetPartition: nat
    const replicas: array<nat>
    const cumulative: array<nat>

    constructor (n: nat, setReplicas: nat)
      ensures replicas.Length == cumulative.Length == n && fresh(replicas) && fresh(cumulative)
      ensures forall p :: 0 <= p < n ==> replicas[p] == setReplicas
      ensures curDpu == 0 && curRetPartition == 0 && replicas != cumulative
    {
      replicas := new nat[n](i => setReplicas);
      cumulative := new nat[n](i => 0);
      curDpu, curRetPartition := 0, 0;
    }

    /** The sums are in place, and no DPU of the current partition or a later one was passed. */
    ghost predicate Ready()
      reads this, replicas, cumulative
    {
      && cumulative.Length == replicas.Length && curRetPartition <= replicas.Length
      && (forall p :: 0 <= p < replicas.Length ==> cumulative[p] == Before(replicas[..], p + 1))
      && Before(replicas[..], curRetPartition) <= curDpu
      && (curRetPartition < replicas.Length || replicas.Length == 0)
    }

    method GetCumulativeInfo()
      requires cumulative.Length == replicas.Length && cumulative != replicas
      modifies cumulative
      ensures forall p :: 0 <= p < replicas.Length ==> cumulative[p] == Before(replicas[..], p + 1)
    {
      ghost var counts := replicas[..];
      var sum := 0;
      for i := 0 to replicas.Length
        invariant replicas[..] == counts && sum == Before(counts, i)
        invariant forall p :: 0 <= p < i ==> cumulative[p] == Before(counts, p + 1)
      {
        sum := sum + replicas[i];
        cumulative[i] := sum;
      }
    }

    method Reset()
      modifies this`curDpu, this`curRetPartition
      ensures curDpu == 0 && curRetPartition == 0
    {
      curDpu, curRetPartition := 0, 0;
    }

    /** The partition to load on the next DPU. */
    method NextPartition() returns (p: nat)
      requires Ready() && curDpu < Before(replicas[..], replicas.Length)
      modifies this`curDpu, this`curRetPartition
      ensures Ready() && curDpu == old(curDpu) + 1 && Owns(replicas[..], p, old(curDpu))
    {
      ghost var counts := replicas[..];
      if curDpu < cumulative[curRetPartition] {
        p := curRetPartition;
      } else {
        ghost var owner := OwnerExists(counts, |counts|, curDpu);
        OwnerIsLater(counts, owner, curDpu, curRetPartition);
        curRetPartition := curRetPartition + 1;
        while curDpu >= cumulative[curRetPartition]
          invariant curRetPartition <= owner < replicas.Length
          invariant Before(counts, curRetPartition) <= curDpu == old(curDpu)
          decreases owner - curRetPartition
        {
          OwnerIsLater(counts, owner, curDpu, curRetPartition);
          curRetPartition := curRetPartition + 1;
        }
        p := curRetPartition;
      }
      curDpu := curDpu + 1;
    }

    /** Copies the counts that the allocator left, one per partition. */
    method LoadHotReplicasInfo(access: Allocator.PartitionAccess)
      requires access.record.Length == replicas.Length
      modifies this`curDpu, this`curRetPartition, replicas
      ensures curDpu == 0 && curRetPartition == 0
      ensures forall p :: 0 <= p < replicas.Length ==> replicas[p] == access.record[p].num
    {
      for i := 0 to replicas.Length
        invariant forall p :: 0 <= p < i ==> replicas[p] == access.record[p].num
      {
        replicas[i] := access.record[i].num;
      }
      curDpu, curRetPartition := 0, 0;
    }
  }

  lemma OwnerIsLater(counts: seq<nat>, owner: nat, d: nat, q: nat)
    requires Owns(counts, owner, d) && q < |counts| && d >= Before(counts, q + 1)
    ensures q < owner
  {
    if owner <= q { BeforeGrows(counts, owner + 1, q + 1); }
  }

  /** What the loader puts on each DPU. */
  method LoadAll(info: ReplicasInfo, nrDpus: nat) returns (loaded: seq<nat>)
    requires info.Ready() && info.curDpu == 0 && Before(info.replicas[..], info.replicas.Length) == nrDpus
    modifies info`curDpu, info`curRetPartition
    ensures |loaded| == nrDpus && forall d :: 0 <= d < nrDpus ==> Owns(info.replicas[..], loaded[d], d)
  {
    loaded := [];
    for d := 0 to nrDpus
      invariant info.Ready() && info.curDpu == d == |loaded|
      invariant forall e :: 0 <= e < d ==> Owns(info.replicas[..], loaded[e], e)
    {
      var p := info.NextPartition();
      loaded := loaded + [p];
    }
  }

  // ---------------------------------------------------------------------------
  // From sampled queries to loaded replicas
  // ---------------------------------------------------------------------------

  /** The replica counts add up to the DPUs. */
  lemma {:induction false} TotalIsBefore(rows: seq<Allocator.Row>, counts: seq<nat>)
    requires |rows| == |counts| && forall p :: 0 <= p < |rows| ==> rows[p].num == counts[p]
    ensures Allocator.Total(rows) == Before(counts, |counts|)
  {
    if rows != [] {
      TotalIsBefore(rows[..|rows| - 1], counts[..|counts| - 1]);
      BeforePrefix(counts[..|counts| - 1], counts, |counts| - 1);
    }
  }

  lemma {:induction false} SumCounts(s: seq<nat>, i: nat)
    requires i < |s|
    ensures Allocator.Sum(s[i := s[i] + 1]) == Allocator.Sum(s) + 1
  {
    var t := s[i := s[i] + 1];
    if i < |s| - 1 {
      SumCounts(s[..|s| - 1], i);
      assert t[..|t| - 1] == s[..|s| - 1][i := s[i] + 1];
    } else {
      assert t[..|t| - 1] == s[..|s| - 1];
    }
  }

  lemma {:induction false} SumOfZeros(s: seq<nat>)
    requires forall j :: 0 <= j < |s| ==> s[j] == 0
    ensures Allocator.Sum(s) == 0
  {
    if s != [] { SumOfZeros(s[..|s| - 1]); }
  }

  /** How many of the queries belong to partition p. */
  ghost function QueriesOf(low: seq<int>, queries: seq<int>, p: nat): nat {
    if queries == [] then 0
    else QueriesOf(low, queries[..|queries| - 1], p) + if Routes(low, queries[|queries| - 1], p) then 1 else 0
  }

  lemma RoutesOnce(low: seq<int>, k: int, p: nat, q: nat)
    requires Strict(low) && Routes(low, k, p) && Routes(low, k, q)
    ensures p == q
  {
    if p < q { LowGrows(low, p + 1, q); }
    if q < p { LowGrows(low, q + 1, p); }
  }

  lemma LowGrows(low: seq<int>, p: int, q: int)
    requires Strict(low) && 0 <= p <= q < |low|
    ensures low[p] <= low[q]
  {
  }

  ghost predicate Counted(low: seq<int>, queries: seq<int>, counts: seq<nat>) {
    forall p :: 0 <= p < |counts| ==> counts[p] == QueriesOf(low, queries, p)
  }

  lemma CountOneMore(low: seq<int>, queries: seq<int>, n: nat, counts: seq<nat>, p: nat)
    requires Strict(low) && n < |queries| && p < |counts| == |low| && Counted(low, queries[..n], counts)
    requires Routes(low, queries[n], p)
    ensures Counted(low, queries[..n + 1], counts[p := counts[p] + 1])
  {
    assert queries[..n + 1][..n] == queries[..n];
    var after := counts[p := counts[p] + 1];
    forall q | 0 <= q < |after| ensures after[q] == QueriesOf(low, queries[..n + 1], q) {
      if Routes(low, queries[n], q) { RoutesOnce(low, queries[n], p, q); }
    }
  }

  /** Counts every query once, at the partition of its range. */
  method SampleQueries(level: DramLevel, accessNum: array<nat>, queries: seq<int>)
    requires level.Placed() && level.lowBoundKey.Length == level.replicas.Length == accessNum.Length > 0
    requires Strict(level.lowBoundKey[..]) && forall i :: 0 <= i < level.replicas.Length ==> level.replicas[i] >= 1
    requires accessNum != level.replicas && accessNum != level.startDpuId
    requires forall i :: 0 <= i < |queries| ==> level.lowBoundKey[0] <= queries[i]
    modifies accessNum
    ensures level.Placed() && Allocator.Sum(accessNum[..]) == |queries|
    ensures Counted(level.lowBoundKey[..], queries, accessNum[..])
  {
    ghost var low := level.lowBoundKey[..];
    for i := 0 to accessNum.Length
      invariant level.Placed() && forall j :: 0 <= j < i ==> accessNum[j] == 0
    {
      accessNum[i] := 0;
    }
    SumOfZeros(accessNum[..]);
    assert Strict(low);
    assert queries[..0] == [] && Counted(low, queries[..0], accessNum[..]);
    for i := 0 to |queries|
      invariant level.Placed() && Allocator.Sum(accessNum[..]) == i
      invariant Counted(low, queries[..i], accessNum[..])
    {
      ghost var before := accessNum[..];
      var d;
      ghost var p;
      d, p := level.SearchUpperLevel(queries[i], i, true, accessNum);
      SumCounts(before, p);
      CountOneMore(low, queries, i, before, p);
    }
    assert queries[..|queries|] == queries;
  }

  /** Partition p's sampled queries, spread evenly over its replicas, are at most twice the average for each: the
      average of a partition over its even part of the DPUs, or of all queries over the DPUs that are left when
      every partition but one has its first. */
  ghost predicate FairFor(low: seq<int>, queries: seq<int>, p: nat, replicas: nat, nrDpus: nat)
    requires 0 < |low| <= nrDpus
  {
    nrDpus / |low| > 0 ==>
      QueriesOf(low, queries, p) as real
        <= Allocator.MostAccesses(|queries|, |low|, nrDpus, nrDpus / |low|) * replicas as real
  }

  lemma FairRows(low: seq<int>, queries: seq<int>, counts: seq<nat>, rows: seq<Allocator.Row>, nrDpus: nat)
    requires 0 < |low| == |counts| == |rows| <= nrDpus && Counted(low, queries, counts) && nrDpus / |low| > 0
    requires forall p :: 0 <= p < |rows| ==>
      Allocator.FairRow(rows[p], p, counts[p], |queries| / |low|,
                        Allocator.MostAccesses(|queries|, |low|, nrDpus, nrDpus / |low|))
    ensures forall p :: 0 <= p < |rows| ==> FairFor(low, queries, p, rows[p].num, nrDpus)
  {
    hide QueriesOf, Allocator.MostAccesses;
  }

  /** The sampling pass and the allocation after it. */
  method AllocateBySample(level: DramLevel, access: Allocator.PartitionAccess, queries: seq<int>, nrDpus: nat)
    requires level.Placed() && level.lowBoundKey.Length == level.replicas.Length == access.accessNum.Length > 0
    requires access.record.Length == access.accessNum.Length
    requires Strict(level.lowBoundKey[..]) && forall i :: 0 <= i < level.replicas.Length ==> level.replicas[i] >= 1
    requires access.accessNum != level.replicas && access.accessNum != level.startDpuId
    requires forall i :: 0 <= i < |queries| ==> level.lowBoundKey[0] <= queries[i]
    requires |queries| >= level.replicas.Length && nrDpus >= 2 * level.replicas.Length
    modifies access.accessNum, access.record
    ensures Allocator.Total(access.record[..]) == nrDpus
    ensures forall p :: 0 <= p < access.record.Length ==> access.record[..][p].num >= 1
    ensures forall p :: 0 <= p < access.record.Length ==>
      FairFor(level.lowBoundKey[..], queries, p, access.record[..][p].num, nrDpus)
  {
    SampleQueries(level, access.accessNum, queries);
    TwoEach(nrDpus, level.replicas.Length);
    ghost var phases := access.CalculatePartitionSkew(nrDpus, nrDpus / level.replicas.Length, |queries|);
    FairRows(level.lowBoundKey[..], queries, access.accessNum[..], access.record[..], nrDpus);
    hide Allocator.Total, Allocator.Sum, DramLevel.Placed, Strict, FairFor, Counted, Allocator.PhasesOf;
  }

  /** After the replicas are handed out by the sampled load, every DPU holds the partition that the
      router's map says, and every partition has a DPU. */
  method Replicate(level: DramLevel, access: Allocator.PartitionAccess, queries: seq<int>, nrDpus: nat)
      returns (loaded: seq<nat>)
    requires level.Placed() && level.lowBoundKey.Length == level.replicas.Length == access.accessNum.Length > 0
    requires access.record.Length == access.accessNum.Length
    requires Strict(level.lowBoundKey[..]) && forall i :: 0 <= i < level.replicas.Length ==> level.replicas[i] >= 1
    requires access.accessNum != level.replicas && access.accessNum != level.startDpuId
    requires level.replicas != level.startDpuId
    requires forall i :: 0 <= i < |queries| ==> level.lowBoundKey[0] <= queries[i]
    requires |queries| >= level.replicas.Length && nrDpus >= 2 * level.replicas.Length
    modifies level, level.replicas, level.startDpuId, access.accessNum, access.record
    ensures level.Placed() && |loaded| == nrDpus
    ensures forall p :: 0 <= p < level.replicas.Length ==> level.replicas[p] >= 1
    ensures forall p: nat, d: nat :: Owns(level.replicas[..], p, d) <==> d < nrDpus && loaded[d] == p
    ensures forall d :: 0 <= d < nrDpus ==> d in level.dpuIdToPartition && level.dpuIdToPartition[d] == loaded[d]
    ensures forall p :: 0 <= p < level.replicas.Length ==>
      FairFor(level.lowBoundKey[..], queries, p, level.replicas[p], nrDpus)
  {
    assert level.startDpuId.Length == level.replicas.Length;
    hide Allocator.Total, Before, Owns, ReplicasInfo.Ready, DramLevel.Placed, Strict, FairFor;
    AllocateBySample(level, access, queries, nrDpus);
    var info := HotReplicas(access, nrDpus);
    CopyCounts(level, info);
    level.GetStartDpuId();
    loaded := LoadAll(info, nrDpus);
    LoadedIsOwned(level.replicas[..], loaded);
    MapHasLoaded(level, loaded);
  }

  /** The allocator's counts, ready to be walked through. */
  method HotReplicas(access: Allocator.PartitionAccess, nrDpus: nat) returns (info: ReplicasInfo)
    requires access.record.Length > 0 && Allocator.Total(access.record[..]) == nrDpus
    requires forall p :: 0 <= p < access.record.Length ==> access.record[..][p].num >= 1
    ensures fresh(info) && fresh(info.replicas) && fresh(info.cumulative) && info.Ready() && info.curDpu == 0
    ensures info.replicas.Length == access.record.Length && Before(info.replicas[..], info.replicas.Length) == nrDpus
    ensures forall p :: 0 <= p < info.replicas.Length ==> info.replicas[p] == access.record[..][p].num >= 1
  {
    info := new ReplicasInfo(access.record.Length, 1);
    info.LoadHotReplicasInfo(access);
    info.GetCumulativeInfo();
    TotalIsBefore(access.record[..], info.replicas[..]);
    assert forall p :: 0 <= p < info.replicas.Length ==> access.record[..][p].num == info.replicas[p];
  }

  method CopyCounts(level: DramLevel, info: ReplicasInfo)
    requires level.replicas.Length == info.replicas.Length && level.replicas != info.replicas
    modifies level.replicas
    ensures level.replicas[..] == info.replicas[..]
  {
    for p := 0 to level.replicas.Length
      invariant forall q :: 0 <= q < p ==> level.replicas[q] == info.replicas[q]
    {
      level.replicas[p] := info.replicas[p];
    }
  }

  lemma MapHasLoaded(level: DramLevel, loaded: seq<nat>)
    requires level.Placed() && forall d :: 0 <= d < |loaded| ==> Owns(level.replicas[..], loaded[d], d)
    ensures forall d :: 0 <= d < |loaded| ==> d in level.dpuIdToPartition && level.dpuIdToPartition[d] == loaded[d]
  {
  }

  lemma TwoEach(nrDpus: nat, n: nat)
    requires n > 0 && nrDpus >= 2 * n
    ensures nrDpus / n >= 2
  {
  }

  /** Being loaded with p, being one of p's DPUs: the same thing. */
  lemma LoadedIsOwned(counts: seq<nat>, loaded: seq<nat>)
    requires Before(counts, |counts|) == |loaded| && forall d :: 0 <= d < |loaded| ==> Owns(counts, loaded[d], d)
    ensures forall p: nat, d: nat :: Owns(counts, p, d) <==> d < |loaded| && loaded[d] == p
  {
    forall p: nat, d: nat | Owns(counts, p, d) ensures d < |loaded| && loaded[d] == p {
      BeforeGrows(counts, p + 1, |counts|);
      OwnerIsUnique(counts, p, loaded[d], d);
    }
  }
}
