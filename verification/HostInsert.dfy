/** How the host turns a DPU's answer, or its own search, into the page a key is inserted in. */
module HostInsert {
  import opened Levels
  import opened Order
  import opened PgmIndex
  import opened Prediction
  import DpuKernel

  /** The test before the page insert, on the sampled keys. */
  predicate Accepted(partial: seq<int>, page: int, key: int) {
    0 <= page < |partial| - 1 && partial[page] <= key && partial[page + 1] > key
  }

  /** The test accepts the floor of the key and nothing else. */
  lemma AcceptedIsFloor(partial: seq<int>, page: int, key: int)
    requires Strict(partial)
    ensures Accepted(partial, page, key) <==> IsFloor(partial, page, key) && page + 1 < |partial|
  {
  }

  /** From here on keys are turned away, if the partitions end at `end`: from the first sampled key after
      the last partition, or from the last sampled key. */
  function Reach(partial: seq<int>, end: nat): int
    requires |partial| > 0
  {
    if end < |partial| then partial[end] else partial[|partial| - 1]
  }

  /** The host's own search, in the range that the partition's model gives, cut off before the last
      sampled key. A key below all keys ends at position -1, which is no page. A key that is not below the
      first one after the partition ends on the partition's last page, where the test turns it away. */
  method FallbackPage(partial: seq<int>, index: PGMIndex, off: nat, key: int) returns (page: int)
    requires index.Valid() && index.n > 0 && off + index.n <= |partial| && index.data == partial[off..off + index.n]
    requires Strict(partial) && Searchable(index.epsilonRecursive, key)
    requires partial[off] <= key || off == 0
    ensures key < partial[0] ==> page == -1
    ensures partial[0] <= key < Reach(partial, off + index.n) ==> IsFloor(partial, page, key)
    ensures off + index.n < |partial| && partial[off + index.n] <= key ==> page == off + index.n - 1
    ensures key >= partial[|partial| - 1] ==> page >= off + index.n - 2
    ensures Accepted(partial, page, key) <==> partial[0] <= key < Reach(partial, off + index.n)
  {
    var pos, lo, hi := index.Search(key);
    ghost var rank := UpperRank(index.data, key);
    assert lo <= rank <= hi;
    GlobalRank(partial, off, index.n, rank, key);
    var l, r := lo + off, hi + off;
    if r >= |partial| { r := |partial| - 1; }
    ghost var g, top := rank + off, r;
    while l < r
      invariant lo + off <= l && (l <= r || r == top) && r <= top && (l <= g || l <= lo + off)
      invariant r < top ==> g <= r
      decreases r - l
    {
      var m := l + (r - l) / 2;
      if partial[m] <= key { l := m + 1; } else { r := m; }
    }
    page := l - 1;
  }

  /** How many keys are at most k. */
  ghost function UpperRank(keys: seq<int>, k: int): (r: nat)
    requires Strict(keys)
    ensures IsUpperRank(keys, r, k)
  {
    if keys == [] then 0
    else if keys[|keys| - 1] <= k then |keys|
    else UpperRank(keys[..|keys| - 1], k)
  }

  /** The rank in a partition, moved by its start, is the rank among all keys up to the partition's end. */
  lemma GlobalRank(partial: seq<int>, off: nat, n: nat, rank: nat, key: int)
    requires Strict(partial) && off + n <= |partial| && n > 0 && IsUpperRank(partial[off..off + n], rank, key)
    requires partial[off] <= key || off == 0
    ensures forall i :: 0 <= i < off + n ==> if i < off + rank then partial[i] <= key else partial[i] > key
    ensures off + n < |partial| && partial[off + n] <= key ==> rank == n
  {
    forall i | 0 <= i < off + n ensures if i < off + rank then partial[i] <= key else partial[i] > key {
      if off <= i { assert partial[i] == partial[off..off + n][i - off]; }
    }
    if off + n < |partial| && partial[off + n] <= key {
      assert partial[off + n - 1] < key;
    }
  }

  /** The last partition whose low bound is at most the key, or the first one. */
  method PartitionOf(partial: seq<int>, parts: nat, key: int) returns (p: nat)
    requires Strict(partial) && |partial| >= parts > 0
    ensures p < parts && Start(|partial| / parts, p) + |partial| / parts <= |partial| - |partial| % parts
    ensures partial[Start(|partial| / parts, p)] <= key || Start(|partial| / parts, p) == 0
    ensures key < Reach(partial, |partial| - |partial| % parts) <==>
      key < Reach(partial, Start(|partial| / parts, p) + |partial| / parts)
  {
    hide Start;
    var size := |partial| / parts;
    var l, r := 0, parts;
    PartitionEnds(|partial|, parts, 0);
    while l < r
      invariant 0 <= l <= r <= parts
      invariant l > 0 ==> Start(size, l - 1) < |partial| && partial[Start(size, l - 1)] <= key
      invariant r < parts ==> Start(size, r) < |partial| && partial[Start(size, r)] > key
    {
      var m := l + (r - l) / 2;
      PartitionEnds(|partial|, parts, m);
      if partial[Start(size, m)] <= key { l := m + 1; } else { r := m; }
    }
    p := if l > 0 then l - 1 else 0;
    PartitionEnds(|partial|, parts, p);
    if l == 0 { assert partial[0] > key; }
  }

  /** The whole way of a key that the host looks up itself: the partition from the low bounds, the search
      in that partition, the test. All partitions have the same size, so the sampled keys of the division's
      remainder belong to none. */
  method InsertPage(partial: seq<int>, indexes: seq<PGMIndex>, key: int) returns (page: int)
    requires Strict(partial) && |partial| >= |indexes| > 0
    requires forall p :: 0 <= p < |indexes| ==> Covers(indexes[p], partial, |partial| / |indexes|, p)
    requires forall p :: 0 <= p < |indexes| ==> Searchable(indexes[p].epsilonRecursive, key)
    ensures Accepted(partial, page, key) ==> IsFloor(partial, page, key)
    ensures Accepted(partial, page, key) <==>
      partial[0] <= key < Reach(partial, |partial| - |partial| % |indexes|)
  {
    hide PGMIndex.Valid, Strict, Accepted, IsFloor, Reach, Start;
    var p := PartitionOf(partial, |indexes|, key);
    assert Covers(indexes[p], partial, |partial| / |indexes|, p);
    page := FallbackPage(partial, indexes[p], Start(|partial| / |indexes|, p), key);
    AcceptedIsFloor(partial, page, key);
  }

  function Start(size: nat, p: nat): nat { size * p }

  /** The index of partition p, over its keys. */
  ghost predicate Covers(index: PGMIndex, partial: seq<int>, size: nat, p: nat)
    reads index
  {
    && index.Valid() && index.n == size > 0 && Start(size, p) + size <= |partial|
    && index.data == partial[Start(size, p)..Start(size, p) + size]
  }

  lemma PartitionEnds(total: nat, parts: nat, p: nat)
    requires total >= parts > p
    ensures total / parts >= 1 && Start(total / parts, p) + total / parts <= total - total % parts
    ensures p + 1 < parts ==> Start(total / parts, p) + total / parts == Start(total / parts, p + 1)
    ensures p + 1 == parts ==> Start(total / parts, p) + total / parts == total - total % parts
    ensures p == 0 ==> Start(total / parts, p) == 0
  {
    DivBounds(total, parts);
    ProductGrows(total / parts, p + 1, parts);
    if total / parts <= 0 { ProductGrows(parts, total / parts, 0); }
  }

  predicate Sampled(partial: seq<int>, key: int)
    requires |partial| > 0
  {
    partial[0] <= key < partial[|partial| - 1]
  }

  /** No key between the first and the last sampled one is turned away iff the number of partitions divides
      the number of sampled keys, or leaves just the last one over. */
  lemma NothingDropped(partial: seq<int>, parts: nat)
    requires Strict(partial) && |partial| >= parts > 0
    ensures (forall key :: Sampled(partial, key) ==> key < Reach(partial, |partial| - |partial| % parts))
       <==> |partial| % parts <= 1
  {
    var end := |partial| - |partial| % parts;
    if |partial| % parts > 1 {
      assert Sampled(partial, partial[end]);
    }
  }

  /** A DPU's answer leads to the same page: the floor of the key among all sampled keys. A position
      that reads as "not found" sends the host to its own search, which finds that page too. */
  lemma DpuPage(partial: seq<int>, off: nat, n: nat, f: nat, key: int)
    requires Strict(partial) && off + n <= |partial| <= 0x2000_0000 && n > 0
    requires IsFloor(partial[off..off + n], f, key)
    requires DpuKernel.Answer(n, off, f) != DpuKernel.INVALID_POS
    ensures Accepted(partial, DpuKernel.Answer(n, off, f) / 8, key)
    ensures IsFloor(partial, DpuKernel.Answer(n, off, f) / 8, key)
  {
    DpuKernel.AnswerDecodes(n, off, f);
    var s := partial[off..off + n];
    assert s[f] == partial[off + f] && s[f + 1] == partial[off + f + 1];
    AcceptedIsFloor(partial, off + f, key);
  }
}
