/** What the host does with a DPU's answer about an old frontier: starting from the node in the answer is as
    good as starting from the root. */
module FrontierAnswers {
  import opened OverflowTree
  import opened OverflowConcurrent
  import opened OverflowInvariant
  import opened OverflowRange
  import opened OverflowRuns
  import opened OverflowBTree
  import opened Frontier
  import opened FrontierRuns

  /** A new key is inserted at the leaf of its descent, from wherever on its path the insert starts. */
  lemma {:induction false} InsertAtLeafOf(t: Tree, n: nat, k: int)
    requires TreeOk(t) && n < |t| && t[n].keys[0] <= k && k !in Keys(t)
    ensures InsertFrom(t, n, k) == InsertAt(t, LeafOf(t, n, k), k)
    decreases |t| - n
  {
    if t[n].Inner? {
      assert t[n].keys[0] in t[n].keys;
      InsertAtLeafOf(t, Next(t, n, k), k);
    }
  }

  /** Looking up and inserting from a node on the key's path against the same from the root. */
  ghost predicate AsFromRoot(t: Tree, n: nat, k: int)
    requires TreeOk(t)
  {
    && OnPath(t, n, k)
    && (k in t[LeafOf(t, n, k)].keys <==> k in Keys(t))
    && (k !in Keys(t) ==> InsertFrom(t, n, k) == InsertFrom(t, 0, k))
    && Keys(InsertFrom(t, n, k)) == Keys(InsertFrom(t, 0, k)) == Keys(t) + iset{k}
  }

  lemma PathIsAsRoot(t: Tree, n: nat, k: int)
    requires Sound(t) && OnPath(t, n, k)
    ensures AsFromRoot(t, n, k)
  {
    hide Ranged, LeafOf, InsertFrom, InsertAt, Keys, Routed, NodeOk;
    LookupDecides(t, k);
    InsertFromSound(t, n, k);
    InsertFromSound(t, 0, k);
    if k !in Keys(t) {
      InsertAtLeafOf(t, n, k);
      InsertAtLeafOf(t, 0, k);
    }
  }

  lemma SoundInRun(run: seq<State>, bound: nat, j: nat)
    requires Run(run, true, bound) && j < |run| && Ranged(run[0].tree)
    ensures Sound(run[j].tree)
  {
    hide Step, Bounded;
    RunKeeps(run, bound, j);
    var tops := RunRanges(run, bound, j);
    assert Bounded(run[j].tree, tops);
  }

  /** A frontier was taken at time i and is searched for k with the tree as it is at time j. The answer is a
      node exactly when k's floor among the frontier's keys is not too far right; then starting from that node
      is as good as starting from the root. */
  lemma StaleAnswer(run: seq<State>, bound: nat, i: nat, j: nat, inputSize: nat, k: int)
    requires Run(run, true, bound) && Ranged(run[0].tree) && i <= j < |run|
    requires TreeOk(run[i].tree) && run[i].tree[0].Inner? && run[i].tree[0].keys[0] <= k
    ensures var f := LeavesFrom(run[i].tree, 0, 0);
      var keys := FirstKeys(run[i].tree, f);
      var answer := AnswerFor(keys, f, inputSize, k);
      && (answer.Pointer? <==> AtMost(keys, k) <= inputSize)
      && TreeOk(run[j].tree) && (answer.Pointer? ==> AsFromRoot(run[j].tree, answer.node, k))
  {
    StaleFrontier(run, bound, i, j, k);
    SoundInRun(run, bound, j);
    hide Sound, Run, LeafOf, OnPath, AtMost, AsFromRoot, Ranged, LeavesFrom, FirstKeys;
    var f := LeavesFrom(run[i].tree, 0, 0);
    var answer := AnswerFor(FirstKeys(run[i].tree, f), f, inputSize, k);
    if answer.Pointer? { PathIsAsRoot(run[j].tree, answer.node, k); }
  }
}
