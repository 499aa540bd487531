/** A frontier stays usable: at any later time, however many inserts have run since, the node that
    an old frontier names for k is on k's path from the root. */
module FrontierRuns {
  import opened Order
  import opened OverflowTree
  import opened OverflowRange
  import opened OverflowConcurrent
  import opened OverflowInvariant
  import opened OverflowSteps
  import opened OverflowRuns
  import opened Frontier

  ghost predicate OwedBelow(tops: seq<Top>, th: Thread) {
    th.InsChild? || th.InsChildCount? ==> th.c < |tops| && Below(th.k, tops[th.c])
  }

  /** The tree has ranges, and a splitter's key fits the child it still has to write. */
  ghost predicate RangesHold(s: State, tops: seq<Top>) {
    Bounded(s.tree, tops) && forall t :: 0 <= t < |s.threads| ==> OwedBelow(tops, s.threads[t])
  }

  lemma OthersStayBelow(s: State, s': State, t: nat, tops: seq<Top>, tops': seq<Top>)
    requires RangesHold(s, tops) && OnlyThread(s, s', t) && Bounded(s'.tree, tops')
    requires |tops| <= |tops'| && (forall c :: 0 <= c < |tops| ==> tops'[c] == tops[c])
    requires OwedBelow(tops', s'.threads[t])
    ensures RangesHold(s', tops')
  {
    hide Bounded;
    forall u | 0 <= u < |s'.threads| ensures OwedBelow(tops', s'.threads[u]) {
      assert OwedBelow(tops, s.threads[u]);
    }
  }

  lemma PathIsBelow(t: Tree, tops: seq<Top>, n: nat, k: int)
    requires Bounded(t, tops) && n < |t| && t[n].Leaf? && OnPath(t, n, k)
    ensures Below(k, tops[n])
  {
    DescentStaysBelow(t, tops, 0, k);
  }

  lemma FinishRanges(s: State, s': State, t: nat, tops: seq<Top>)
    requires Inv(s) && WellSized(s) && t < |s.threads| && Finish(s, s', t) && RangesHold(s, tops)
    ensures RangesHold(s', tops)
  {
    hide Bounded, Valid, NodeOk, Strict;
    var th := s.threads[t];
    assert ThreadOk(s, t, th) && MemOk(s, th.n);
    ShiftedIsInsertSorted(th.orig, th.cnt, th.k);
    PathIsBelow(s.tree, tops, th.n, th.k);
    PutKeyBounded(s.tree, tops, th.n, th.k);
    OthersStayBelow(s, s', t, tops, tops);
  }

  lemma ChildCountRanges(s: State, s': State, t: nat, tops: seq<Top>)
    requires Inv(s) && WellSized(s) && t < |s.threads| && ChildCount(s, s', t) && RangesHold(s, tops)
    ensures RangesHold(s', tops)
  {
    hide Bounded, Valid, NodeOk, Strict;
    var th := s.threads[t];
    var keys, w := s.tree[th.c].keys, s.mem[th.c].words;
    assert ThreadOk(s, t, th) && MemOk(s, th.c) && OwedBelow(tops, th);
    assert w[..1] == [w[0]] && AtMost(keys, th.k) == 1;
    assert w[..2] == InsertSorted(keys, th.k);
    PutKeyBounded(s.tree, tops, th.c, th.k);
    OthersStayBelow(s, s', t, tops, tops);
  }

  lemma PublishRanges(s: State, s': State, t: nat, i: nat, kidMem: seq<Mem>, tops: seq<Top>) returns (tops': seq<Top>)
    requires Inv(s) && WellSized(s) && t < |s.threads| && Publish(s, s', t, i, kidMem) && RangesHold(s, tops)
    ensures RangesHold(s', tops')
  {
    hide Bounded, Valid, NodeOk, Strict, Split;
    var k, n := s.threads[t].k, s.threads[t].n;
    var keys := s.tree[n].keys;
    assert |tops| == |s.tree| by { BoundedSize(s.tree, tops); }
    tops' := SplitTops(keys, tops, n);
    SplitTopsAt(keys, tops, n);
    assert ThreadOk(s, t, s.threads[t]);
    PathIsBelow(s.tree, tops, n, k);
    SplitBounded(s.tree, tops, n);
    assert tops'[|tops| + i] == TopOf(keys, tops[n], i);
    OthersStayBelow(s, s', t, tops, tops');
  }

  lemma BoundedSize(t: Tree, tops: seq<Top>)
    requires Bounded(t, tops)
    ensures |tops| == |t|
  {
  }

  /** The steps that leave the tree alone. */
  lemma OtherRanges(s: State, s': State, t: nat, tops: seq<Top>)
    requires Inv(s) && WellSized(s) && t < |s.threads| && s'.tree == s.tree && RangesHold(s, tops)
    requires Work(s, s', t, true) || exists k, n :: BeginInsert(s, s', t, k, n)
    ensures RangesHold(s', tops)
  {
    hide Bounded, Inv, WellSized, Split, Keys, Shifted, Next, Quiet, AtMost, OnPath;
    hide ReadDown, ReadVersion, ReadCount, Probe, Confirm, CheckVersion, BeginLookup;
    if ReaderWork(s, s', t) { ReaderStaysReader(s, s', t); }
    assert OwedBelow(tops, s.threads[t]);
    OthersStayBelow(s, s', t, tops, tops);
  }

  lemma StepRanges(s: State, s': State, bound: nat, tops: seq<Top>) returns (tops': seq<Top>)
    requires Inv(s) && Step(s, s', true, bound) && RangesHold(s, tops)
    ensures RangesHold(s', tops')
  {
    hide Inv, WellSized, RangesHold, Split;
    var t :| NextState(s, s', t, true, bound);
    if Finish(s, s', t) {
      FinishRanges(s, s', t, tops);
      tops' := tops;
    } else if ChildCount(s, s', t) {
      ChildCountRanges(s, s', t, tops);
      tops' := tops;
    } else if i, kidMem :| Publish(s, s', t, i, kidMem) {
      tops' := PublishRanges(s, s', t, i, kidMem, tops);
    } else {
      OtherRanges(s, s', t, tops);
      tops' := tops;
    }
  }

  /** Ranges hold all along a run. */
  lemma {:induction false} RunRanges(run: seq<State>, bound: nat, i: nat) returns (tops: seq<Top>)
    requires Run(run, true, bound) && i < |run| && Ranged(run[0].tree)
    ensures RangesHold(run[i], tops)
    decreases i
  {
    hide Inv, Step, Bounded, Valid;
    if i == 0 {
      tops :| Bounded(run[0].tree, tops);
    } else {
      tops := RunRanges(run, bound, i - 1);
      RunKeeps(run, bound, i - 1);
      assert Step(run[i - 1], run[i - 1 + 1], true, bound);
      tops := StepRanges(run[i - 1], run[i], bound, tops);
    }
  }

  lemma StepPath(s: State, s': State, bound: nat, n: nat, k: int)
    requires Inv(s) && Step(s, s', true, bound) && OnPath(s.tree, n, k)
    ensures TreeOk(s'.tree) && OnPath(s'.tree, n, k)
  {
    hide Inv, WellSized, Split, OnPath, TreeOk;
    StepKeeps(s, s', bound);
    var t :| NextState(s, s', t, true, bound);
    if Finish(s, s', t) {
      FinishKeeps(s, s', t);
    } else if ChildCount(s, s', t) {
      ChildCountKeeps(s, s', t);
    } else if i, kidMem :| Publish(s, s', t, i, kidMem) {
      PublishRely(s, s', t, i, kidMem);
    } else {
      assert s'.tree == s.tree;
    }
    InvTree(s');
  }

  lemma InvTree(s: State)
    requires Inv(s)
    ensures TreeOk(s.tree)
  {
  }

  lemma {:induction false} PathsStay(run: seq<State>, bound: nat, i: nat, j: nat, n: nat, k: int)
    requires Run(run, true, bound) && i <= j < |run| && TreeOk(run[i].tree) && OnPath(run[i].tree, n, k)
    ensures TreeOk(run[j].tree) && OnPath(run[j].tree, n, k)
    decreases j
  {
    hide Inv, Step, OnPath, TreeOk, Init;
    if i < j {
      PathsStay(run, bound, i, j - 1, n, k);
      RunKeeps(run, bound, j - 1);
      assert Step(run[j - 1], run[j - 1 + 1], true, bound);
      StepPath(run[j - 1], run[j], bound, n, k);
    }
  }

  /** What a frontier promises when it is taken. */
  lemma FrontierNow(t: Tree, tops: seq<Top>, k: int)
    requires Bounded(t, tops) && t[0].Inner? && t[0].keys[0] <= k
    ensures var f := LeavesFrom(t, 0, 0);
      var c := AtMost(FirstKeys(t, f), k);
      Ascending(FirstKeys(t, f)) && 0 < c <= |f| && OnPath(t, f[c - 1], k)
  {
    assert NodeOk(t, 0);
    AtMostAfter(t[0].keys, k);
    LeavesSpan(t, tops, 0, 0);
    FloorIsLeaf(t, tops, 0, 0, k);
  }

  /** The frontier of an inner root, taken at time i, is ascending, and at every time j from then on
      the node it names for k leads to the same leaf as the root does. */
  lemma StaleFrontier(run: seq<State>, bound: nat, i: nat, j: nat, k: int)
    requires Run(run, true, bound) && Ranged(run[0].tree) && i <= j < |run|
    requires TreeOk(run[i].tree) && run[i].tree[0].Inner? && run[i].tree[0].keys[0] <= k
    ensures var t, u := run[i].tree, run[j].tree;
      var f := LeavesFrom(t, 0, 0);
      var c := AtMost(FirstKeys(t, f), k);
      && Ascending(FirstKeys(t, f)) && 0 < c <= |f|
      && TreeOk(u) && OnPath(u, f[c - 1], k) && LeafOf(u, f[c - 1], k) == LeafOf(u, 0, k)
  {
    var t := run[i].tree;
    var tops := RunRanges(run, bound, i);
    assert Bounded(t, tops);
    FrontierNow(t, tops, k);
    hide Bounded, Run, RangesHold, LeavesFrom, FirstKeys, AtMost, TreeOk, Ranged;
    var f := LeavesFrom(t, 0, 0);
    PathsStay(run, bound, i, j, f[AtMost(FirstKeys(t, f), k) - 1], k);
  }
}
