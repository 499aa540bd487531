/** Every subtree has a range: the keys of child i are at most the parent's next key. The top of a
    range is closed, because a key equal to keys[i] of a full leaf goes to child i - 1. */
module OverflowRange {
  import opened OverflowTree

  datatype Top = At(limit: int) | Open

  predicate Below(k: int, top: Top) {
    top.At? ==> k <= top.limit
  }

  function TopOf(keys: seq<int>, own: Top, i: nat): Top
    requires i < |keys|
  {
    if i + 1 < |keys| then At(keys[i + 1]) else own
  }

  ghost predicate NodeBounded(t: Tree, tops: seq<Top>, n: nat)
    requires TreeOk(t) && |tops| == |t| && n < |t|
  {
    && (forall k :: k in t[n].keys ==> Below(k, tops[n]))
    && (t[n].Inner? ==>
          NodeOk(t, n) && forall i :: 0 <= i < CHILD_NUM ==> tops[t[n].kids[i]] == TopOf(t[n].keys, tops[n], i))
  }

  ghost predicate Bounded(t: Tree, tops: seq<Top>) {
    && TreeOk(t) && |tops| == |t| && tops[0] == Open
    && forall n :: 0 <= n < |t| ==> NodeBounded(t, tops, n)
  }

  ghost predicate Ranged(t: Tree) {
    exists tops :: Bounded(t, tops)
  }

  /** The descent for k only visits ranges that hold k. */
  lemma {:induction false} DescentStaysBelow(t: Tree, tops: seq<Top>, n: nat, k: int)
    requires Bounded(t, tops) && n < |t| && t[n].keys[0] <= k && Below(k, tops[n])
    ensures Below(k, tops[LeafOf(t, n, k)])
    decreases |t| - n
  {
    if t[n].Inner? {
      assert NodeBounded(t, tops, n) && NodeOk(t, n);
      AtMostAfter(t[n].keys, k);
      var i := AtMost(t[n].keys, k) - 1;
      assert Next(t, n, k) == t[n].kids[i];
      DescentStaysBelow(t, tops, t[n].kids[i], k);
    }
  }

  /** A new key that is below its leaf's top keeps all ranges. */
  lemma PutKeyBounded(t: Tree, tops: seq<Top>, n: nat, k: int)
    requires Bounded(t, tops) && n < |t| && t[n].Leaf? && |t[n].keys| < CHILD_NUM
    requires t[n].keys[0] <= k && k !in t[n].keys && Below(k, tops[n])
    ensures Bounded(PutKey(t, n, k), tops)
  {
    PutKeyFacts(t, n, k);
    assert NodeOk(t, n);
    InsertSortedFacts(t[n].keys, k);
    var u := PutKey(t, n, k);
    forall m | 0 <= m < |u| ensures NodeBounded(u, tops, m) {
      assert NodeBounded(t, tops, m) && NodeOk(u, m);
    }
  }

  /** The tops after a split: each child ends at the next key, the last where its parent ends. */
  ghost function SplitTops(keys: seq<int>, tops: seq<Top>, n: nat): (r: seq<Top>)
    requires n < |tops|
    ensures |r| == |tops| + |keys|
  {
    tops + seq(|keys|, i requires 0 <= i < |keys| => TopOf(keys, tops[n], i))
  }

  lemma SplitTopsAt(keys: seq<int>, tops: seq<Top>, n: nat)
    requires n < |tops|
    ensures forall m :: 0 <= m < |tops| ==> SplitTops(keys, tops, n)[m] == tops[m]
    ensures forall i :: 0 <= i < |keys| ==> SplitTops(keys, tops, n)[|tops| + i] == TopOf(keys, tops[n], i)
  {
  }

  lemma SplitBounded(t: Tree, tops: seq<Top>, n: nat)
    requires Bounded(t, tops) && n < |t| && t[n].Leaf? && |t[n].keys| == CHILD_NUM
    ensures Bounded(Split(t, n), SplitTops(t[n].keys, tops, n))
  {
    SplitFacts(t, n);
    SplitTopsAt(t[n].keys, tops, n);
    var keys, u, r := t[n].keys, Split(t, n), SplitTops(t[n].keys, tops, n);
    assert NodeOk(t, n) && NodeBounded(t, tops, n);
    forall m | 0 <= m < |u| ensures NodeBounded(u, r, m) {
      assert NodeOk(u, m);
      if m < |t| {
        assert NodeBounded(t, tops, m);
        if m != n && t[m].Inner? { assert u[m] == t[m] && NodeOk(t, m); }
      } else {
        assert u[m] == Leaf([keys[m - |t|]]);
        assert keys[m - |t|] in keys;
      }
    }
  }
}
