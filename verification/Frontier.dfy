/** The flattened frontier of an overflow tree: the leaves below inner nodes, left to right, each
    with the key that routes to it. A DPU searches it long after the tree has moved on. */
module Frontier {
  import opened Order
  import opened OverflowTree
  import opened OverflowRange

  /** The leaves that the recursion reports for inner node n from child i on. */
  ghost function LeavesFrom(t: Tree, n: nat, i: nat): (f: seq<nat>)
    requires TreeOk(t) && n < |t| && t[n].Inner? && i <= CHILD_NUM
    ensures forall a :: 0 <= a < |f| ==> f[a] < |t| && t[f[a]].Leaf?
    decreases |t| - n, CHILD_NUM - i
  {
    assert NodeOk(t, n);
    if i == CHILD_NUM then []
    else LeavesUnder(t, n, t[n].kids[i]) + LeavesFrom(t, n, i + 1)
  }

  ghost function LeavesUnder(t: Tree, n: nat, m: nat): (f: seq<nat>)
    requires TreeOk(t) && n < m < |t|
    ensures forall a :: 0 <= a < |f| ==> f[a] < |t| && t[f[a]].Leaf?
    decreases |t| - n, 0
  {
    if t[m].Leaf? then [m] else LeavesFrom(t, m, 0)
  }

  ghost function FirstKeys(t: Tree, f: seq<nat>): (keys: seq<int>)
    requires TreeOk(t) && forall a :: 0 <= a < |f| ==> f[a] < |t|
    ensures |keys| == |f| && forall a :: 0 <= a < |f| ==> keys[a] == t[f[a]].keys[0]
  {
    seq(|f|, a requires 0 <= a < |f| => t[f[a]].keys[0])
  }

  /** Of the frontier's keys at most k, the last belongs to node m. */
  ghost predicate FloorIs(t: Tree, f: seq<nat>, k: int, m: nat)
    requires TreeOk(t) && forall a :: 0 <= a < |f| ==> f[a] < |t|
  {
    FloorOf(FirstKeys(t, f), f, k, m)
  }

  ghost predicate FloorOf(keys: seq<int>, f: seq<nat>, k: int, m: nat)
    requires |keys| == |f|
  {
    var c := AtMost(keys, k);
    c > 0 && f[c - 1] == m
  }

  /** All keys between a low end, which is the first, and a top. */
  ghost predicate Spans(keys: seq<int>, low: int, top: Top) {
    && |keys| > 0 && keys[0] == low && Ascending(keys)
    && forall a :: 0 <= a < |keys| ==> low <= keys[a] && Below(keys[a], top)
  }

  lemma SpansConcat(a: seq<int>, b: seq<int>, low: int, mid: int, top: Top)
    requires Spans(a, low, At(mid)) && Spans(b, mid, top)
    ensures Spans(a + b, low, top)
  {
    assert b[0] == mid;
  }

  lemma FirstKeysConcat(t: Tree, a: seq<nat>, b: seq<nat>)
    requires TreeOk(t) && (forall x :: 0 <= x < |a| ==> a[x] < |t|) && (forall x :: 0 <= x < |b| ==> b[x] < |t|)
    ensures FirstKeys(t, a + b) == FirstKeys(t, a) + FirstKeys(t, b)
  {
    hide TreeOk;
  }

  /** The frontier below child i and after is ascending and starts with key i. */
  lemma {:induction false} LeavesSpan(t: Tree, tops: seq<Top>, n: nat, i: nat)
    requires Bounded(t, tops) && n < |t| && t[n].Inner? && i < CHILD_NUM && |t[n].keys| == CHILD_NUM
    ensures Spans(FirstKeys(t, LeavesFrom(t, n, i)), t[n].keys[i], tops[n])
    decreases |t| - n, CHILD_NUM - i
  {
    assert NodeOk(t, n) && NodeBounded(t, tops, n);
    var m := t[n].kids[i];
    var a, b := LeavesUnder(t, n, m), LeavesFrom(t, n, i + 1);
    assert t[m].keys[0] == t[n].keys[i] && tops[m] == TopOf(t[n].keys, tops[n], i);
    assert i + 1 == CHILD_NUM ==> b == [];
    assert LeavesFrom(t, n, i) == a + b;
    FirstKeysConcat(t, a, b);
    hide TreeOk, NodeOk, NodeBounded, Spans, FirstKeys, LeavesUnder, LeavesFrom;
    UnderSpans(t, tops, n, m);
    if i + 1 < CHILD_NUM {
      LeavesSpan(t, tops, n, i + 1);
      SpansConcat(FirstKeys(t, a), FirstKeys(t, b), t[n].keys[i], t[n].keys[i + 1], tops[n]);
    } else {
      assert a + b == a;
    }
  }

  lemma {:induction false} UnderSpans(t: Tree, tops: seq<Top>, n: nat, m: nat)
    requires Bounded(t, tops) && n < m < |t|
    ensures Spans(FirstKeys(t, LeavesUnder(t, n, m)), t[m].keys[0], tops[m])
    decreases |t| - n, 0
  {
    assert NodeOk(t, m) && NodeBounded(t, tops, m);
    if t[m].Inner? {
      LeavesSpan(t, tops, m, 0);
    } else {
      assert FirstKeys(t, LeavesUnder(t, n, m)) == [t[m].keys[0]] && t[m].keys[0] in t[m].keys;
    }
  }

  lemma AtMostConcat(a: seq<int>, b: seq<int>, k: int)
    requires Ascending(a + b)
    ensures |b| > 0 && b[0] <= k ==> AtMost(a + b, k) == |a| + AtMost(b, k) && AtMost(b, k) > 0
    ensures |b| > 0 && b[0] > k ==> AtMost(a + b, k) == AtMost(a, k)
    ensures |b| == 0 ==> AtMost(a + b, k) == AtMost(a, k)
  {
    var s := a + b;
    var c := if |b| > 0 && b[0] <= k then |a| + AtMost(b, k) else AtMost(a, k);
    AtMostAfter(a, k);
    AtMostAfter(b, k);
    AtMostAfter(s, k);
    assert forall x :: 0 <= x < |a| ==> s[x] == a[x];
    assert forall x :: 0 <= x < |b| ==> s[|a| + x] == b[x];
    assert s[..] == s;
  }

  lemma FirstIsLeast(keys: seq<int>)
    requires Strict(keys)
    ensures forall i :: 0 <= i < |keys| ==> keys[0] <= keys[i]
  {
  }

  lemma DownToChild(t: Tree, n: nat, i: nat, k: int)
    requires TreeOk(t) && n < |t| && t[n].Inner? && i + 1 == AtMost(t[n].keys, k) && t[n].keys[0] <= k
    ensures |t[n].kids| == CHILD_NUM && i < CHILD_NUM && t[n].kids[i] < |t| && t[t[n].kids[i]].keys[0] <= k
    ensures LeafOf(t, n, k) == LeafOf(t, t[n].kids[i], k)
  {
    assert NodeOk(t, n);
  }

  /** The floor of k in the frontier is the leaf where the descent for k ends. */
  lemma {:induction false} FloorIsLeaf(t: Tree, tops: seq<Top>, n: nat, i: nat, k: int)
    requires Bounded(t, tops) && n < |t| && t[n].Inner? && i < AtMost(t[n].keys, k) && |t[n].keys| == CHILD_NUM
    ensures t[n].keys[0] <= k
    ensures FloorIs(t, LeavesFrom(t, n, i), k, LeafOf(t, n, k))
    decreases |t| - n, CHILD_NUM - i
  {
    assert NodeOk(t, n);
    AtMostAfter(t[n].keys, k);
    FirstIsLeast(t[n].keys);
    var m := t[n].kids[i];
    assert TreeOk(t) && n < m < |t| && t[m].keys[0] == t[n].keys[i] <= k;
    LeavesSpan(t, tops, n, i);
    if i + 1 < CHILD_NUM { LeavesSpan(t, tops, n, i + 1); }
    if i + 1 < AtMost(t[n].keys, k) {
      FloorIsLeaf(t, tops, n, i + 1, k);
      assert t[n].keys[i + 1] <= k;
    } else {
      assert i + 1 < CHILD_NUM ==> t[n].keys[i + 1] > k;
      DownToChild(t, n, i, k);
      FloorUnder(t, tops, n, m, k);
    }
    var a, b := LeavesUnder(t, n, m), LeavesFrom(t, n, i + 1);
    assert LeavesFrom(t, n, i) == a + b && (i + 1 == CHILD_NUM ==> b == []);
    assert i + 1 < CHILD_NUM ==> |b| > 0 && FirstKeys(t, b)[0] == t[n].keys[i + 1];
    hide Bounded, Strict, AtMost, LeafOf, NodeOk, TreeOk, LeavesUnder, FloorIs, LeavesFrom, FirstKeys, Ascending;
    PickFloor(t, a, b, k, LeafOf(t, n, k));
  }

  /** The floor in a frontier made of two parts is in the second part if that starts at or below k. */
  lemma PickFloor(t: Tree, a: seq<nat>, b: seq<nat>, k: int, leaf: nat)
    requires TreeOk(t) && (forall x :: 0 <= x < |a| ==> a[x] < |t|) && (forall x :: 0 <= x < |b| ==> b[x] < |t|)
    requires Ascending(FirstKeys(t, a + b))
    requires if |b| > 0 && FirstKeys(t, b)[0] <= k then FloorIs(t, b, k, leaf) else FloorIs(t, a, k, leaf)
    ensures FloorIs(t, a + b, k, leaf)
  {
    FirstKeysConcat(t, a, b);
    var ka, kb := FirstKeys(t, a), FirstKeys(t, b);
    hide TreeOk, AtMost, Ascending, FirstKeys, FloorOf;
    PickFloorOf(ka, kb, a, b, k, leaf);
  }

  lemma PickFloorOf(ka: seq<int>, kb: seq<int>, a: seq<nat>, b: seq<nat>, k: int, leaf: nat)
    requires |ka| == |a| && |kb| == |b| && Ascending(ka + kb)
    requires if |b| > 0 && kb[0] <= k then FloorOf(kb, b, k, leaf) else FloorOf(ka, a, k, leaf)
    ensures FloorOf(ka + kb, a + b, k, leaf)
  {
    hide AtMost, Ascending;
    AtMostConcat(ka, kb, k);
    if |b| > 0 && kb[0] <= k {
      InSecond(a, b, AtMost(kb, k) - 1);
    } else {
      InFirst(a, b, AtMost(ka, k) - 1);
    }
  }

  lemma InFirst(a: seq<nat>, b: seq<nat>, i: nat)
    requires i < |a|
    ensures (a + b)[i] == a[i]
  {
  }

  lemma InSecond(a: seq<nat>, b: seq<nat>, i: nat)
    requires i < |b|
    ensures (a + b)[|a| + i] == b[i]
  {
  }

  lemma {:induction false} FloorUnder(t: Tree, tops: seq<Top>, n: nat, m: nat, k: int)
    requires Bounded(t, tops) && n < m < |t| && t[m].keys[0] <= k
    ensures FloorIs(t, LeavesUnder(t, n, m), k, LeafOf(t, m, k))
    decreases |t| - n, 0
  {
    if t[m].Inner? {
      assert NodeOk(t, m);
      AtMostAfter(t[m].keys, k);
      FloorIsLeaf(t, tops, m, 0, k);
    }
  }

  datatype Answer = Invalid | Pointer(node: nat)

  /** The pointer beside the last key that is at most k, unless its position is beyond the number of sampled
      keys in the partition, which is the bound that the kernel tests it against. */
  function AnswerFor(keys: seq<int>, pointers: seq<nat>, inputSize: nat, k: int): Answer
    requires |keys| == |pointers|
  {
    var c := AtMost(keys, k);
    if 0 < c <= inputSize then Pointer(pointers[c - 1]) else Invalid
  }

  /** The DPU's search of a shipped frontier. A floor of -1 is a huge number in the unsigned
      comparison with the partition size, so a key below all of them is answered like one that is
      too far right. */
  method FloorSearch(keys: seq<int>, pointers: seq<nat>, overflowLen: nat, inputSize: nat, k: int)
    returns (answer: Answer)
    requires 0 < overflowLen <= |keys| && overflowLen <= |pointers| && inputSize > 0
    requires Ascending(keys[..overflowLen])
    ensures answer == AnswerFor(keys[..overflowLen], pointers[..overflowLen], inputSize, k)
  {
    var l, r := 0, overflowLen - 1;
    while l <= r
      invariant 0 <= l <= r + 1 <= overflowLen
      invariant forall j :: 0 <= j < l ==> keys[j] <= k
      invariant forall j :: r < j < overflowLen ==> keys[j] > k
    {
      var mid := l + (r - l) / 2;
      assert forall j :: 0 <= j < overflowLen ==> keys[j] == keys[..overflowLen][j];
      if keys[mid] > k {
        r := mid - 1;
      } else {
        l := mid + 1;
      }
    }
    AtMostUnique(keys[..overflowLen], k, l);
    answer := if r == -1 || r > inputSize - 1 then Invalid else Pointer(pointers[r]);
  }
}
