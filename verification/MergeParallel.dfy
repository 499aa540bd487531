/** All threads of the merge: their intervals tile the new array, in whatever order they finish, and
    the result is the union exactly when all keys are distinct. */
module MergeParallel {
  import opened Merge
  import opened Order

  const MERGE_THREAD_NUM: nat := 32

  /** Where a page's keys belong: the guard of the page insert. The last two pages never get a key. */
  predicate InPage(keys: seq<int>, i: nat, k: int) {
    PAGE_RATIO * (i + 1) < |keys| && keys[PAGE_RATIO * i] <= k < keys[PAGE_RATIO * (i + 1)]
  }

  ghost predicate PageOk(keys: seq<int>, pages: seq<seq<int>>, i: nat)
    requires i < |pages|
  {
    Ascending(pages[i]) && forall j :: 0 <= j < |pages[i]| ==> InPage(keys, i, pages[i][j])
  }

  ghost predicate Index(keys: seq<int>, pages: seq<seq<int>>) {
    && |keys| > 0 && |keys| % PAGE_RATIO == 0 && |pages| == |keys| / PAGE_RATIO + 1
    && Strict(keys)
    && forall i :: 0 <= i < |pages| ==> PageOk(keys, pages, i)
  }

  // ---------------------------------------------------------------------------
  // The ranges
  // ---------------------------------------------------------------------------

  function FirstPage(numPages: nat, t: nat): nat {
    if t >= MERGE_THREAD_NUM then numPages else numPages / MERGE_THREAD_NUM * t
  }

  function FirstKey(total: nat, numPages: nat, t: nat): nat {
    if t >= MERGE_THREAD_NUM then total else PAGE_RATIO * FirstPage(numPages, t)
  }

  lemma PagesGrow(numPages: nat, t: nat)
    requires t < MERGE_THREAD_NUM
    ensures FirstPage(numPages, t) <= FirstPage(numPages, t + 1) <= numPages
    ensures numPages > 0 ==> FirstPage(numPages, t) < numPages
  {
    var per := numPages / MERGE_THREAD_NUM;
    assert per * (t + 1) == per * t + per;
    assert per * t <= per * (MERGE_THREAD_NUM - 1) by { Scale(per, t, MERGE_THREAD_NUM - 1); }
  }

  lemma Scale(a: nat, x: nat, y: nat)
    requires x <= y
    ensures a * x <= a * y
  {
  }

  lemma KeysGrow(keys: seq<int>, pages: seq<seq<int>>, t: nat)
    requires Index(keys, pages) && t < MERGE_THREAD_NUM
    ensures FirstKey(|keys|, |pages|, t) <= FirstKey(|keys|, |pages|, t + 1) <= |keys|
  {
    PagesGrow(|pages|, t);
    if t + 1 < MERGE_THREAD_NUM { PagesGrow(|pages|, t + 1); }
  }

  /** Where thread t's interval of the new array starts. */
  ghost function Start(keys: seq<int>, pages: seq<seq<int>>, t: nat): nat
    requires FirstPage(|pages|, t) <= |pages|
  {
    FirstKey(|keys|, |pages|, t) + |Flat(pages[..FirstPage(|pages|, t)])|
  }

  lemma FlatPrefix(pages: seq<seq<int>>, p: nat, q: nat)
    requires p <= q <= |pages|
    ensures Flat(pages[..q]) == Flat(pages[..p]) + Flat(pages[p..q])
  {
    assert pages[..q] == pages[..p] + pages[p..q];
    FlatConcat(pages[..p], pages[p..q]);
  }

  ghost function OldOf(keys: seq<int>, pages: seq<seq<int>>, t: nat): seq<int>
    requires t < MERGE_THREAD_NUM && FirstKey(|keys|, |pages|, t) <= FirstKey(|keys|, |pages|, t + 1) <= |keys|
  {
    keys[FirstKey(|keys|, |pages|, t)..FirstKey(|keys|, |pages|, t + 1)]
  }

  ghost function BufOf(pages: seq<seq<int>>, t: nat): seq<int>
    requires t < MERGE_THREAD_NUM && FirstPage(|pages|, t) <= FirstPage(|pages|, t + 1) <= |pages|
  {
    Flat(pages[FirstPage(|pages|, t)..FirstPage(|pages|, t + 1)])
  }

  /** The intervals tile the new array. */
  lemma StartsTile(keys: seq<int>, pages: seq<seq<int>>, t: nat)
    requires Index(keys, pages) && t < MERGE_THREAD_NUM
    ensures FirstPage(|pages|, t) <= FirstPage(|pages|, t + 1) <= |pages|
    ensures FirstKey(|keys|, |pages|, t) <= FirstKey(|keys|, |pages|, t + 1) <= |keys|
    ensures Start(keys, pages, t + 1) == Start(keys, pages, t) + |OldOf(keys, pages, t)| + |BufOf(pages, t)|
    ensures Start(keys, pages, 0) == 0 && Start(keys, pages, MERGE_THREAD_NUM) == |keys| + |Flat(pages)|
  {
    PagesGrow(|pages|, t);
    KeysGrow(keys, pages, t);
    FlatPrefix(pages, FirstPage(|pages|, t), FirstPage(|pages|, t + 1));
    assert pages[..0] == [] && pages[..|pages|] == pages;
  }

  lemma {:induction false} StartsGrow(keys: seq<int>, pages: seq<seq<int>>, t: nat, u: nat)
    requires Index(keys, pages) && t <= u <= MERGE_THREAD_NUM
    ensures FirstPage(|pages|, t) <= |pages| && FirstPage(|pages|, u) <= |pages|
    ensures Start(keys, pages, t) <= Start(keys, pages, u)
    decreases u
  {
    if t < MERGE_THREAD_NUM { StartsTile(keys, pages, t); }
    if t < u {
      StartsTile(keys, pages, u - 1);
      StartsGrow(keys, pages, t, u - 1);
    }
  }

  // ---------------------------------------------------------------------------
  // Pieces do not interleave
  // ---------------------------------------------------------------------------

  lemma {:induction false} FlatBelow(keys: seq<int>, pages: seq<seq<int>>, p: nat, bound: int)
    requires p <= |pages| && forall i, j :: 0 <= i < p && 0 <= j < |pages[i]| ==> pages[i][j] < bound
    ensures Below(Flat(pages[..p]), bound)
  {
    if p > 0 {
      FlatBelow(keys, pages, p - 1, bound);
      FlatPrefix(pages, p - 1, p);
      OnePage(pages, p - 1);
    }
  }

  lemma PageCut(pages: seq<seq<int>>, p: nat, m: nat, q: nat)
    requires p <= m <= q <= |pages|
    ensures pages[p..q] == pages[p..m] + pages[m..q]
  {
  }

  lemma {:induction false} FlatFrom(pages: seq<seq<int>>, p: nat, q: nat, bound: int)
    requires p <= q <= |pages| && forall i, j :: p <= i < q && 0 <= j < |pages[i]| ==> bound <= pages[i][j]
    ensures From(Flat(pages[p..q]), bound)
    decreases q
  {
    if p < q {
      FlatFrom(pages, p, q - 1, bound);
      PageCut(pages, p, q - 1, q);
      FlatConcat(pages[p..q - 1], pages[q - 1..q]);
      OnePage(pages, q - 1);
    }
  }

  lemma OnePage(pages: seq<seq<int>>, p: nat)
    requires p < |pages|
    ensures Flat(pages[p..p + 1]) == pages[p]
  {
    assert pages[p..p + 1] == [pages[p]];
    assert Flat([pages[p]]) == pages[p] + Flat([]);
  }

  /** Keys of earlier pages are below the first key of page p, keys of later ones are not. */
  lemma PageBounds(keys: seq<int>, pages: seq<seq<int>>, p: nat, i: nat, j: nat)
    requires Index(keys, pages) && PAGE_RATIO * p < |keys| && i < |pages| && j < |pages[i]|
    ensures i < p ==> pages[i][j] < keys[PAGE_RATIO * p]
    ensures i >= p ==> pages[i][j] >= keys[PAGE_RATIO * p]
  {
    assert PageOk(keys, pages, i) && InPage(keys, i, pages[i][j]);
  }

  /** The pieces before page p, and those from page p to page q. */
  lemma PiecesApart(keys: seq<int>, pages: seq<seq<int>>, p: nat, q: nat, h: nat)
    requires Index(keys, pages) && p <= q <= |pages| && PAGE_RATIO * p < |keys| && PAGE_RATIO * p <= h <= |keys|
    ensures Below(keys[..PAGE_RATIO * p], keys[PAGE_RATIO * p]) && Below(Flat(pages[..p]), keys[PAGE_RATIO * p])
    ensures From(keys[PAGE_RATIO * p..h], keys[PAGE_RATIO * p]) && From(Flat(pages[p..q]), keys[PAGE_RATIO * p])
  {
    var bound := keys[PAGE_RATIO * p];
    forall i, j | 0 <= i < |pages| && 0 <= j < |pages[i]|
      ensures (i < p ==> pages[i][j] < bound) && (i >= p ==> pages[i][j] >= bound)
    {
      PageBounds(keys, pages, p, i, j);
    }
    FlatBelow(keys, pages, p, bound);
    FlatFrom(pages, p, q, bound);
  }

  lemma UsedPage(keys: seq<int>, pages: seq<seq<int>>, p: nat)
    requires p < |pages| && PageOk(keys, pages, p) && |pages[p]| > 0
    ensures PAGE_RATIO * (p + 1) < |keys|
  {
    assert InPage(keys, p, pages[p][0]);
  }

  /** The last page is empty. */
  lemma LastPageEmpty(keys: seq<int>, pages: seq<seq<int>>, p: nat)
    requires Index(keys, pages) && p < |pages| && PAGE_RATIO * p >= |keys|
    ensures Flat(pages[p..]) == []
  {
    assert p == |pages| - 1 && PageOk(keys, pages, p);
    if |pages[p]| > 0 { UsedPage(keys, pages, p); }
    OnePage(pages, p);
    assert pages[p..p + 1] == pages[p..];
  }

  ghost function UpTo(keys: seq<int>, pages: seq<seq<int>>, t: nat): seq<int>
    requires FirstPage(|pages|, t) <= |pages| && FirstKey(|keys|, |pages|, t) <= |keys|
  {
    Merged(keys[..FirstKey(|keys|, |pages|, t)], Flat(pages[..FirstPage(|pages|, t)]))
  }

  /** The merge up to page q is the merge up to page p followed by the merge of what is between. */
  lemma OneMorePiece(keys: seq<int>, pages: seq<seq<int>>, p: nat, q: nat, h: nat)
    requires Index(keys, pages) && p <= q <= |pages| && p < |pages| && PAGE_RATIO * p <= h <= |keys|
    ensures Merged(keys[..h], Flat(pages[..q]))
         == Merged(keys[..PAGE_RATIO * p], Flat(pages[..p])) + Merged(keys[PAGE_RATIO * p..h], Flat(pages[p..q]))
  {
    var l := PAGE_RATIO * p;
    FlatPrefix(pages, p, q);
    Cut(keys, l, h);
    if l < |keys| {
      PiecesApart(keys, pages, p, q, h);
      hide Index, Flat, Merged;
      MergedInPieces(keys[..l], Flat(pages[..p]), keys[l..h], Flat(pages[p..q]), keys[l]);
    } else {
      LastPageEmpty(keys, pages, p);
      NoKeysAfter(keys, pages, p, q);
      hide Index, Flat;
      assert keys[l..h] == [];
      assert Flat(pages[..q]) == Flat(pages[..p]);
    }
  }

  lemma Cut(keys: seq<int>, l: nat, h: nat)
    requires l <= h <= |keys|
    ensures keys[..h] == keys[..l] + keys[l..h]
  {
  }

  /** The merge up to thread t + 1 is the merge up to t followed by thread t's. */
  lemma OneMoreThread(keys: seq<int>, pages: seq<seq<int>>, t: nat)
    requires Index(keys, pages) && t < MERGE_THREAD_NUM
    ensures FirstPage(|pages|, t) <= FirstPage(|pages|, t + 1) <= |pages|
    ensures FirstKey(|keys|, |pages|, t) <= FirstKey(|keys|, |pages|, t + 1) <= |keys|
    ensures UpTo(keys, pages, t + 1) == UpTo(keys, pages, t) + Merged(OldOf(keys, pages, t), BufOf(pages, t))
  {
    StartsTile(keys, pages, t);
    PagesGrow(|pages|, t);
    hide Flat, Merged;
    OneMorePiece(keys, pages, FirstPage(|pages|, t), FirstPage(|pages|, t + 1), FirstKey(|keys|, |pages|, t + 1));
  }

  lemma NoKeysAfter(keys: seq<int>, pages: seq<seq<int>>, p: nat, q: nat)
    requires p <= q <= |pages| && Flat(pages[p..]) == []
    ensures Flat(pages[p..q]) == []
  {
    assert pages[p..] == pages[p..q] + pages[q..];
    FlatConcat(pages[p..q], pages[q..]);
  }

  // ---------------------------------------------------------------------------
  // The threads
  // ---------------------------------------------------------------------------

  method CountKeys(pages: seq<seq<int>>, first: nat, last: nat) returns (count: nat)
    requires first <= last <= |pages|
    ensures count == |Flat(pages[first..last])|
  {
    count := 0;
    assert pages[first..first] == [];
    for j := first to last
      invariant count == |Flat(pages[first..j])|
    {
      count := count + |pages[j]|;
      PageCut(pages, first, j, j + 1);
      FlatConcat(pages[first..j], pages[j..j + 1]);
      OnePage(pages, j);
    }
  }

  /** Every thread's key count, and their running sums. */
  method Offsets(keys: seq<int>, pages: seq<seq<int>>) returns (counts: seq<nat>, offsets: seq<nat>, total: nat)
    requires Index(keys, pages)
    ensures |counts| == |offsets| == MERGE_THREAD_NUM && total == |keys| + |Flat(pages)|
    ensures forall t :: 0 <= t < MERGE_THREAD_NUM ==> Measured(keys, pages, t, counts[t], offsets[t])
  {
    counts, offsets, total := [], [], 0;
    StartsTile(keys, pages, 0);
    hide Flat;
    for t := 0 to MERGE_THREAD_NUM
      invariant |counts| == |offsets| == t && FirstPage(|pages|, t) <= |pages|
      invariant total == |Flat(pages[..FirstPage(|pages|, t)])|
      invariant forall u :: 0 <= u < t ==> Measured(keys, pages, u, counts[u], offsets[u])
    {
      StartsTile(keys, pages, t);
      FlatPrefix(pages, FirstPage(|pages|, t), FirstPage(|pages|, t + 1));
      var count := CountKeys(pages, FirstPage(|pages|, t), FirstPage(|pages|, t + 1));
      counts, offsets := counts + [count], offsets + [total];
      assert Measured(keys, pages, t, count, total);
      total := total + count;
    }
    assert pages[..|pages|] == pages;
    total := total + |keys|;
  }

  ghost predicate Measured(keys: seq<int>, pages: seq<seq<int>>, t: nat, count: nat, offset: nat) {
    && t < MERGE_THREAD_NUM && FirstPage(|pages|, t) <= FirstPage(|pages|, t + 1) <= |pages|
    && count == |BufOf(pages, t)| && FirstKey(|keys|, |pages|, t) + offset == Start(keys, pages, t)
  }

  /** What thread t writes. */
  ghost function ThreadOutput(keys: seq<int>, pages: seq<seq<int>>, t: nat): (r: seq<int>)
    requires t < MERGE_THREAD_NUM && FirstPage(|pages|, t) <= FirstPage(|pages|, t + 1) <= |pages|
    requires FirstKey(|keys|, |pages|, t) <= FirstKey(|keys|, |pages|, t + 1) <= |keys|
    ensures |r| <= |OldOf(keys, pages, t)| + |BufOf(pages, t)|
  {
    Output(keys, FirstKey(|keys|, |pages|, t), FirstKey(|keys|, |pages|, t + 1), BufOf(pages, t))
  }

  /** Thread t's interval starts with its output. */
  ghost predicate Filled(keys: seq<int>, pages: seq<seq<int>>, out: seq<int>, t: nat) {
    && t < MERGE_THREAD_NUM && FirstPage(|pages|, t) <= FirstPage(|pages|, t + 1) <= |pages|
    && FirstKey(|keys|, |pages|, t) <= FirstKey(|keys|, |pages|, t + 1) <= |keys|
    && Start(keys, pages, t) + |ThreadOutput(keys, pages, t)| <= Start(keys, pages, t + 1) <= |out|
    && Emitted(out, Start(keys, pages, t), ThreadOutput(keys, pages, t))
  }

  lemma HasJob(keys: seq<int>, pages: seq<seq<int>>, t: nat, out: array<int>)
    requires Index(keys, pages) && t < MERGE_THREAD_NUM && out.Length == |keys| + |Flat(pages)|
    ensures FirstPage(|pages|, t) <= FirstPage(|pages|, t + 1) <= |pages|
    ensures Job(keys, pages[FirstPage(|pages|, t)..FirstPage(|pages|, t + 1)], FirstKey(|keys|, |pages|, t),
                FirstKey(|keys|, |pages|, t + 1), out, Start(keys, pages, t))
  {
    StartsTile(keys, pages, t);
    PagesGrow(|pages|, t);
    StartsGrow(keys, pages, t + 1, MERGE_THREAD_NUM);
    var p, q := FirstPage(|pages|, t), FirstPage(|pages|, t + 1);
    if FirstKey(|keys|, |pages|, t) == FirstKey(|keys|, |pages|, t + 1) {
      if t + 1 == MERGE_THREAD_NUM {
        LastPageEmpty(keys, pages, p);
        NoKeysAfter(keys, pages, p, q);
      } else {
        assert p == q && pages[p..q] == [];
      }
    }
  }

  /** What thread t works on. */
  lemma Plan(keys: seq<int>, pages: seq<seq<int>>, t: nat, count: nat, offset: nat, out: array<int>)
      returns (p: nat, q: nat, l: nat, h: nat)
    requires Index(keys, pages) && out.Length == |keys| + |Flat(pages)| && Measured(keys, pages, t, count, offset)
    ensures p == FirstPage(|pages|, t) && q == FirstPage(|pages|, t + 1) && p <= q <= |pages|
    ensures l == FirstKey(|keys|, |pages|, t) && h == FirstKey(|keys|, |pages|, t + 1) && l <= h <= |keys|
    ensures OldOf(keys, pages, t) == keys[l..h] && BufOf(pages, t) == Flat(pages[p..q]) && count == |Flat(pages[p..q])|
    ensures Start(keys, pages, t) == l + offset
    ensures Start(keys, pages, t + 1) == l + offset + (h - l) + count <= out.Length
    ensures Job(keys, pages[p..q], l, h, out, l + offset)
  {
    StartsTile(keys, pages, t);
    HasJob(keys, pages, t, out);
    StartsGrow(keys, pages, t + 1, MERGE_THREAD_NUM);
    p, q := FirstPage(|pages|, t), FirstPage(|pages|, t + 1);
    l, h := FirstKey(|keys|, |pages|, t), FirstKey(|keys|, |pages|, t + 1);
  }

  method RunThread(keys: seq<int>, pages: seq<seq<int>>, t: nat, count: nat, offset: nat, out: array<int>)
    requires Index(keys, pages) && out.Length == |keys| + |Flat(pages)| && Measured(keys, pages, t, count, offset)
    modifies out
    ensures OnlyChanged(old(out[..]), out[..], Start(keys, pages, t), Start(keys, pages, t + 1))
    ensures Filled(keys, pages, out[..], t)
  {
    ghost var p', q', l', h' := Plan(keys, pages, t, count, offset, out);
    hide Flat, Output, Index, OnlyChanged, Measured, Job, Emitted, Filled, OldOf, BufOf, Start;
    var p, q := FirstPage(|pages|, t), FirstPage(|pages|, t + 1);
    var l, h := FirstKey(|keys|, |pages|, t), FirstKey(|keys|, |pages|, t + 1);
    hide FirstPage, FirstKey;
    MergeRange(keys, pages[p..q], l, h, count, out, l + offset);
    EmittedIsFilled(keys, pages, out[..], t, l + offset, p, q, l, h);
  }

  lemma EmittedIsFilled(keys: seq<int>, pages: seq<seq<int>>, out: seq<int>, t: nat, start: nat, p: nat, q: nat,
                        l: nat, h: nat)
    requires t < MERGE_THREAD_NUM && p == FirstPage(|pages|, t) && q == FirstPage(|pages|, t + 1) && p <= q <= |pages|
    requires l == FirstKey(|keys|, |pages|, t) && h == FirstKey(|keys|, |pages|, t + 1) && l <= h <= |keys|
    requires Start(keys, pages, t) == start
    requires Start(keys, pages, t + 1) == start + (h - l) + |Flat(pages[p..q])| <= |out|
    requires Emitted(out, start, Output(keys, l, h, Flat(pages[p..q])))
    ensures Filled(keys, pages, out, t)
  {
    hide Emitted;
  }

  lemma PartsDisjoint(keys: seq<int>, pages: seq<seq<int>>, p: nat, q: nat, l: nat, h: nat)
    requires p <= q <= |pages| && l <= h <= |keys| && Disjoint(keys, Flat(pages))
    ensures Disjoint(keys[l..h], Flat(pages[p..q]))
  {
    FlatPrefix(pages, p, q);
    FlatPrefix(pages, q, |pages|);
    assert pages[..|pages|] == pages;
    var a, b, c := Flat(pages[..p]), Flat(pages[p..q]), Flat(pages[q..|pages|]);
    assert Flat(pages) == (a + b) + c;
    hide Flat;
    forall i, j | 0 <= i < h - l && 0 <= j < |b| ensures keys[l..h][i] != b[j] {
      InTheMiddle(a, b, c, j);
      assert keys[l..h][i] == keys[l + i];
    }
  }

  lemma InTheMiddle(a: seq<int>, b: seq<int>, c: seq<int>, j: nat)
    requires j < |b|
    ensures ((a + b) + c)[|a| + j] == b[j]
  {
  }
}
