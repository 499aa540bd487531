/** The whole merge: threads finishing in any order, and when the result is the sorted union. */
module MergeUnion {
  import opened Merge
  import opened Order
  import opened MergeParallel

  ghost predicate AllDistinct(s: seq<int>) {
    forall i, j :: 0 <= i < j < |s| ==> s[i] != s[j]
  }

  lemma EmittedStays(a: seq<int>, b: seq<int>, start: nat, end: nat, at: nat, r: seq<int>)
    requires OnlyChanged(a, b, start, end) && Emitted(a, at, r) && (at + |r| <= start || end <= at)
    ensures |b| == |a| && Emitted(b, at, r)
  {
  }

  lemma FilledStays(keys: seq<int>, pages: seq<seq<int>>, a: seq<int>, b: seq<int>, t: nat, u: nat)
    requires Index(keys, pages) && t < MERGE_THREAD_NUM && u < MERGE_THREAD_NUM && t != u && Filled(keys, pages, a, u)
    requires FirstPage(|pages|, t) <= |pages| && FirstPage(|pages|, t + 1) <= |pages|
    requires OnlyChanged(a, b, Start(keys, pages, t), Start(keys, pages, t + 1))
    ensures Filled(keys, pages, b, u)
  {
    if t < u { StartsGrow(keys, pages, t + 1, u); } else { StartsGrow(keys, pages, u + 1, t); }
    hide Flat, Index, OnlyChanged, Start, ThreadOutput, Emitted;
    EmittedStays(a, b, Start(keys, pages, t), Start(keys, pages, t + 1),
                 Start(keys, pages, u), ThreadOutput(keys, pages, u));
  }

  ghost predicate FilledFor(keys: seq<int>, pages: seq<seq<int>>, out: seq<int>, done: seq<nat>) {
    forall j :: 0 <= j < |done| ==> Filled(keys, pages, out, done[j])
  }

  lemma OneMoreFilled(keys: seq<int>, pages: seq<seq<int>>, a: seq<int>, b: seq<int>, done: seq<nat>, t: nat)
    requires Index(keys, pages) && t < MERGE_THREAD_NUM && FilledFor(keys, pages, a, done)
    requires FirstPage(|pages|, t) <= |pages| && FirstPage(|pages|, t + 1) <= |pages|
    requires OnlyChanged(a, b, Start(keys, pages, t), Start(keys, pages, t + 1)) && Filled(keys, pages, b, t)
    ensures FilledFor(keys, pages, b, done + [t])
  {
    hide Filled, OnlyChanged, Index;
    forall j | 0 <= j < |done + [t]| ensures Filled(keys, pages, b, (done + [t])[j]) {
      if j < |done| && done[j] != t {
        assert Filled(keys, pages, a, done[j]);
        FilledThread(keys, pages, a, done[j]);
        FilledStays(keys, pages, a, b, t, done[j]);
      }
    }
  }

  lemma FilledThread(keys: seq<int>, pages: seq<seq<int>>, a: seq<int>, t: nat)
    requires Filled(keys, pages, a, t)
    ensures t < MERGE_THREAD_NUM
  {
  }

  lemma EachFilled(keys: seq<int>, pages: seq<seq<int>>, out: seq<int>, order: seq<nat>)
    requires FilledFor(keys, pages, out, order) && forall t :: 0 <= t < MERGE_THREAD_NUM ==> t in order
    ensures forall t :: 0 <= t < MERGE_THREAD_NUM ==> Filled(keys, pages, out, t)
  {
    hide Filled;
    forall t | 0 <= t < MERGE_THREAD_NUM ensures Filled(keys, pages, out, t) {
      assert t in order;
      var j :| 0 <= j < |order| && order[j] == t;
    }
  }

  /** Without a key that is both old and buffered the intervals are full, and make the whole merge. */
  lemma AllFilled(keys: seq<int>, pages: seq<seq<int>>, out: seq<int>)
    requires Index(keys, pages) && |out| == |keys| + |Flat(pages)| && Disjoint(keys, Flat(pages))
    requires forall t :: 0 <= t < MERGE_THREAD_NUM ==> Filled(keys, pages, out, t)
    ensures out == Merged(keys, Flat(pages))
  {
    hide Filled;
    FilledUpTo(keys, pages, out, MERGE_THREAD_NUM);
    Whole(keys, pages, out);
  }

  lemma {:induction false} FilledUpTo(keys: seq<int>, pages: seq<seq<int>>, out: seq<int>, t: nat)
    requires Index(keys, pages) && t <= MERGE_THREAD_NUM && Disjoint(keys, Flat(pages))
    requires forall u :: 0 <= u < MERGE_THREAD_NUM ==> Filled(keys, pages, out, u)
    ensures FirstPage(|pages|, t) <= |pages| && FirstKey(|keys|, |pages|, t) <= |keys| && Start(keys, pages, t) <= |out|
    ensures out[..Start(keys, pages, t)] == UpTo(keys, pages, t)
  {
    hide Filled, UpTo, Flat, Merged, Index, Disjoint;
    if t == 0 {
      StartsTile(keys, pages, 0);
      NothingYet(keys, pages);
    } else {
      FilledUpTo(keys, pages, out, t - 1);
      OneMoreThread(keys, pages, t - 1);
      FilledExtends(keys, pages, out, t - 1);
    }
  }

  lemma NothingYet(keys: seq<int>, pages: seq<seq<int>>)
    ensures UpTo(keys, pages, 0) == []
  {
    assert pages[..0] == [];
  }

  /** A thread without shared keys writes the merge of its range. */
  lemma DisjointOutput(keys: seq<int>, lo: nat, hi: nat, b: seq<int>)
    requires lo <= hi <= |keys| && Disjoint(keys[lo..hi], b)
    ensures Output(keys, lo, hi, b) == Merged(keys[lo..hi], b)
  {
    UnionOfDisjoint(keys[lo..hi], b);
    assert keys[hi..hi] == [];
  }

  lemma FilledExtends(keys: seq<int>, pages: seq<seq<int>>, out: seq<int>, t: nat)
    requires Index(keys, pages) && Filled(keys, pages, out, t) && Disjoint(keys, Flat(pages))
    ensures t < MERGE_THREAD_NUM && FirstPage(|pages|, t) <= FirstPage(|pages|, t + 1) <= |pages|
    ensures FirstKey(|keys|, |pages|, t) <= FirstKey(|keys|, |pages|, t + 1) <= |keys|
    ensures Start(keys, pages, t) <= Start(keys, pages, t + 1) <= |out|
    ensures out[..Start(keys, pages, t + 1)] ==
      out[..Start(keys, pages, t)] + Merged(OldOf(keys, pages, t), BufOf(pages, t))
  {
    StartsTile(keys, pages, t);
    var p, q := FirstPage(|pages|, t), FirstPage(|pages|, t + 1);
    var l, h := FirstKey(|keys|, |pages|, t), FirstKey(|keys|, |pages|, t + 1);
    hide Flat, Output, Merged, Index, Start;
    PartsDisjoint(keys, pages, p, q, l, h);
    DisjointOutput(keys, l, h, Flat(pages[p..q]));
    EmittedIsSlice(out, Start(keys, pages, t), ThreadOutput(keys, pages, t));
    hide Disjoint, Emitted, FirstPage, FirstKey;
    Cut(out, Start(keys, pages, t), Start(keys, pages, t + 1));
  }

  lemma Whole(keys: seq<int>, pages: seq<seq<int>>, out: seq<int>)
    requires Index(keys, pages) && |out| == |keys| + |Flat(pages)|
    requires FirstPage(|pages|, MERGE_THREAD_NUM) <= |pages| && FirstKey(|keys|, |pages|, MERGE_THREAD_NUM) <= |keys|
    requires Start(keys, pages, MERGE_THREAD_NUM) <= |out|
    requires out[..Start(keys, pages, MERGE_THREAD_NUM)] == UpTo(keys, pages, MERGE_THREAD_NUM)
    ensures out == Merged(keys, Flat(pages))
  {
    StartsTile(keys, pages, 0);
    assert pages[..|pages|] == pages && keys[..|keys|] == keys && out[..|out|] == out;
  }

  // ---------------------------------------------------------------------------
  // The union
  // ---------------------------------------------------------------------------

  lemma {:induction false} FlatAscends(keys: seq<int>, pages: seq<seq<int>>, p: nat)
    requires Index(keys, pages) && p <= |pages|
    ensures Ascending(Flat(pages[..p]))
  {
    if p > 0 {
      FlatAscends(keys, pages, p - 1);
      FlatPrefix(pages, p - 1, p);
      OnePage(pages, p - 1);
      assert PageOk(keys, pages, p - 1);
      if PAGE_RATIO * (p - 1) < |keys| {
        PiecesApart(keys, pages, p - 1, p, |keys|);
      } else {
        LastPageEmpty(keys, pages, p - 1);
        NoKeysAfter(keys, pages, p - 1, p);
      }
    }
  }

  /** Without a key that is both old and buffered, the merge is ascending and keeps every copy. */
  lemma MergeKeepsAll(keys: seq<int>, pages: seq<seq<int>>)
    requires Index(keys, pages)
    ensures Ascending(Merged(keys, Flat(pages)))
    ensures multiset(Merged(keys, Flat(pages))) == multiset(keys) + multiset(Flat(pages))
  {
    FlatAscends(keys, pages, |pages|);
    assert pages[..|pages|] == pages;
    MergedAscends(keys, Flat(pages));
    MergedElements(keys, Flat(pages));
  }

  /** As many different keys as positions: no key twice. */
  lemma {:induction false} SizeOfSet(s: seq<int>)
    ensures |SetOf(s)| <= |s|
    ensures |SetOf(s)| == |s| <==> AllDistinct(s)
  {
    if s != [] {
      var front, last := s[..|s| - 1], s[|s| - 1];
      SizeOfSet(front);
      assert s == front + [last];
      assert SetOf(s) == SetOf(front) + {last};
      if last in front {
        var i :| 0 <= i < |front| && front[i] == last;
        assert s[i] == s[|s| - 1];
      }
      assert AllDistinct(s) <==> AllDistinct(front) && last !in front;
    }
  }

  lemma {:induction false} DistinctMeansOnce(s: seq<int>, x: int)
    requires AllDistinct(s)
    ensures multiset(s)[x] <= 1
  {
    if s != [] {
      var front := s[..|s| - 1];
      DistinctMeansOnce(front, x);
      assert s == front + [s[|s| - 1]];
      if x == s[|s| - 1] { assert x !in front; }
    }
  }

  lemma TwiceMeansTwo(s: seq<int>, i: nat, j: nat)
    requires i < j < |s| && s[i] == s[j]
    ensures multiset(s)[s[i]] >= 2
  {
    assert s == s[..j] + [s[j]] + s[j + 1..];
    assert s[i] == s[..j][i];
    assert s[i] in multiset(s[..j]);
  }

  /** The result is strictly ascending and has exactly the old and the buffered keys, if and only
      if no key occurs twice among them. `r` is any array that the merge can leave. */
  lemma UnionIffDistinct(keys: seq<int>, pages: seq<seq<int>>, r: seq<int>)
    requires Index(keys, pages) && |r| == |keys| + |Flat(pages)|
    requires Disjoint(keys, Flat(pages)) ==> r == Merged(keys, Flat(pages))
    ensures Strict(r) && SetOf(r) == SetOf(keys + Flat(pages)) <==> AllDistinct(keys + Flat(pages))
  {
    var all := keys + Flat(pages);
    if AllDistinct(all) {
      DistinctIsDisjoint(keys, Flat(pages));
      MergeKeepsAll(keys, pages);
      DistinctMerge(all, r);
    }
    if Strict(r) && SetOf(r) == SetOf(all) {
      SizeOfSet(r);
      SizeOfSet(all);
    }
  }

  lemma DistinctIsDisjoint(a: seq<int>, b: seq<int>)
    requires AllDistinct(a + b)
    ensures Disjoint(a, b)
  {
    forall i, j | 0 <= i < |a| && 0 <= j < |b| ensures a[i] != b[j] {
      assert (a + b)[i] == a[i] && (a + b)[|a| + j] == b[j];
    }
  }

  lemma DistinctMerge(all: seq<int>, r: seq<int>)
    requires AllDistinct(all) && Ascending(r) && multiset(r) == multiset(all)
    ensures Strict(r) && SetOf(r) == SetOf(all)
  {
    forall i, j | 0 <= i < j < |r| ensures r[i] < r[j] {
      if r[i] == r[j] {
        TwiceMeansTwo(r, i, j);
        DistinctMeansOnce(all, r[i]);
      }
    }
    forall x ensures x in SetOf(r) <==> x in SetOf(all) {
      assert x in r <==> x in multiset(r);
      assert x in all <==> x in multiset(all);
    }
  }

  /** The threads may finish in any order. Every interval starts with its thread's output. The new array is
      strictly ascending with exactly the old and the buffered keys if and only if no key occurs twice among
      them. */
  method MergeAll(keys: seq<int>, pages: seq<seq<int>>, order: seq<nat>) returns (out: array<int>)
    requires Index(keys, pages) && forall i :: 0 <= i < |order| ==> order[i] < MERGE_THREAD_NUM
    requires forall t :: 0 <= t < MERGE_THREAD_NUM ==> t in order
    ensures fresh(out) && out.Length == |keys| + |Flat(pages)|
    ensures forall t :: 0 <= t < MERGE_THREAD_NUM ==> Filled(keys, pages, out[..], t)
    ensures Disjoint(keys, Flat(pages)) ==> out[..] == Merged(keys, Flat(pages))
    ensures Strict(out[..]) && SetOf(out[..]) == SetOf(keys + Flat(pages)) <==> AllDistinct(keys + Flat(pages))
  {
    var counts, offsets, total := Offsets(keys, pages);
    out := new int[total];
    assert FilledFor(keys, pages, out[..], order[..0]);
    hide Flat, Merged, Index, Disjoint, Measured, FilledFor, OnlyChanged, Filled, Start;
    for i := 0 to |order|
      invariant FilledFor(keys, pages, out[..], order[..i])
    {
      var t := order[i];
      ghost var before := out[..];
      assert Measured(keys, pages, t, counts[t], offsets[t]);
      StartsTile(keys, pages, t);
      RunThread(keys, pages, t, counts[t], offsets[t], out);
      OneMoreFilled(keys, pages, before, out[..], order[..i], t);
      assert order[..i + 1] == order[..i] + [t];
    }
    assert order[..|order|] == order;
    EachFilled(keys, pages, out[..], order);
    if Disjoint(keys, Flat(pages)) { AllFilled(keys, pages, out[..]); }
    UnionIffDistinct(keys, pages, out[..]);
  }

  lemma FlatStretchAscends(keys: seq<int>, pages: seq<seq<int>>, p: nat, q: nat)
    requires Index(keys, pages) && p <= q <= |pages|
    ensures Ascending(Flat(pages[p..q]))
  {
    FlatAscends(keys, pages, q);
    FlatPrefix(pages, p, q);
    var a, b := Flat(pages[..p]), Flat(pages[p..q]);
    hide Flat, Index, Ascending;
    SuffixAscends(a, b);
  }

  lemma SuffixAscends(a: seq<int>, b: seq<int>)
    requires Ascending(a + b)
    ensures Ascending(b)
  {
    forall i, j | 0 <= i < j < |b| ensures b[i] <= b[j] {
      assert b[i] == (a + b)[|a| + i] && b[j] == (a + b)[|a| + j];
    }
  }

  /** What the merge leaves in thread t's interval, if a key may be both old and buffered: the union of the
      thread's keys, then as many keys of the next range as it has shared keys, if its old keys go further than its
      buffered ones; otherwise one slot for each shared key is never written. */
  lemma ThreadInterval(keys: seq<int>, pages: seq<seq<int>>, out: seq<int>, t: nat)
    returns (l: nat, h: nat, b: seq<int>, u: seq<int>, f: nat)
    requires Index(keys, pages) && t < MERGE_THREAD_NUM && Filled(keys, pages, out, t)
    requires FirstKey(|keys|, |pages|, t) < FirstKey(|keys|, |pages|, t + 1)
    ensures l == FirstKey(|keys|, |pages|, t) && h == FirstKey(|keys|, |pages|, t + 1) && l < h <= |keys|
    ensures keys[l..h] == OldOf(keys, pages, t) && b == BufOf(pages, t) && h + f <= |keys|
    ensures Emitted(out, Start(keys, pages, t), u + keys[h..h + f])
    ensures SetOf(u) == SetOf(keys[l..h]) + SetOf(b) && (Strict(b) ==> Strict(u))
    ensures |u| + Common(keys[l..h], b) == h - l + |b|
    ensures f == if b == [] || b[|b| - 1] >= keys[h - 1] then 0
                 else if Common(keys[l..h], b) < |keys| - h then Common(keys[l..h], b) else |keys| - h
    ensures Start(keys, pages, t + 1) == Start(keys, pages, t) + |u| + Common(keys[l..h], b)
  {
    l, h, b := ThreadParts(keys, pages, out, t);
    hide *;
    u, f := OutputIsUnion(keys, l, h, b);
  }

  lemma ThreadParts(keys: seq<int>, pages: seq<seq<int>>, out: seq<int>, t: nat)
    returns (l: nat, h: nat, b: seq<int>)
    requires Index(keys, pages) && t < MERGE_THREAD_NUM && Filled(keys, pages, out, t)
    ensures FirstPage(|pages|, t) <= FirstPage(|pages|, t + 1) <= |pages|
    ensures l == FirstKey(|keys|, |pages|, t) && h == FirstKey(|keys|, |pages|, t + 1) && l <= h <= |keys|
    ensures keys[l..h] == OldOf(keys, pages, t) && b == BufOf(pages, t) && Strict(keys) && Ascending(b)
    ensures Start(keys, pages, t + 1) == Start(keys, pages, t) + (h - l) + |b|
    ensures Emitted(out, Start(keys, pages, t), Output(keys, l, h, b))
  {
    StartsTile(keys, pages, t);
    l, h, b := FirstKey(|keys|, |pages|, t), FirstKey(|keys|, |pages|, t + 1), BufOf(pages, t);
    hide Flat, Start, Output, Emitted, FirstKey, FirstPage;
    FlatStretchAscends(keys, pages, FirstPage(|pages|, t), FirstPage(|pages|, t + 1));
  }

  // ---------------------------------------------------------------------------
  // The sampled keys of the new array
  // ---------------------------------------------------------------------------

  const INTERLEAVE: nat := 8

  /** Where thread t starts to sample: a multiple of the sampling distance. */
  function SampleStart(total: nat, t: nat): nat {
    (total / MERGE_THREAD_NUM - (total / MERGE_THREAD_NUM) % INTERLEAVE) * t
  }

  function SampleEnd(total: nat, t: nat): nat {
    if t == MERGE_THREAD_NUM - 1 then total else SampleStart(total, t + 1)
  }

  lemma SampleStarts(total: nat, t: nat)
    requires t < MERGE_THREAD_NUM
    ensures SampleStart(total, t) % INTERLEAVE == 0 && SampleStart(total, t) <= SampleEnd(total, t) <= total
    ensures SampleStart(total, 0) == 0
  {
    var per := total / MERGE_THREAD_NUM;
    var eighth := per / INTERLEAVE;
    assert per - per % INTERLEAVE == INTERLEAVE * eighth;
    var part := INTERLEAVE * eighth;
    assert part * t == INTERLEAVE * (eighth * t) by { Regroup(INTERLEAVE, eighth, t); }
    assert part * (t + 1) == part * t + part;
    assert part * t <= part * (MERGE_THREAD_NUM - 1) by { Scale(part, t, MERGE_THREAD_NUM - 1); }
    if t + 1 < MERGE_THREAD_NUM { Scale(part, t + 1, MERGE_THREAD_NUM - 1); }
  }

  lemma Regroup(a: nat, b: nat, c: nat)
    ensures (a * b) * c == a * (b * c)
  {
  }

  /** One thread's samples. In bounds for every thread when the size is a multiple of the distance. */
  method Sample(newKeys: array<int>, partial: array<int>, t: nat)
    requires t < MERGE_THREAD_NUM && newKeys.Length % INTERLEAVE == 0 && partial.Length == newKeys.Length / INTERLEAVE
    requires newKeys != partial
    modifies partial
    ensures forall j :: 0 <= j < partial.Length ==>
      partial[j] == if SampleStart(newKeys.Length, t) <= INTERLEAVE * j < SampleEnd(newKeys.Length, t)
                    then newKeys[INTERLEAVE * j] else old(partial[j])
  {
    SampleStarts(newKeys.Length, t);
    if t + 1 < MERGE_THREAD_NUM { SampleStarts(newKeys.Length, t + 1); }
    hide SampleStart, SampleEnd;
    var p, end := SampleStart(newKeys.Length, t), SampleEnd(newKeys.Length, t);
    var off := p / INTERLEAVE;
    ghost var first, last := off, end / INTERLEAVE;
    assert p == INTERLEAVE * first && end == INTERLEAVE * last && last <= partial.Length;
    assert newKeys.Length == INTERLEAVE * partial.Length;
    while p < end
      invariant p == INTERLEAVE * off && first <= off <= last
      invariant forall j :: 0 <= j < partial.Length ==>
        partial[j] == if first <= j < off then newKeys[INTERLEAVE * j] else old(partial[j])
    {
      partial[off] := newKeys[p];
      off := off + 1;
      p := p + INTERLEAVE;
    }
  }
}
