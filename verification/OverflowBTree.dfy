/** The overflow tree as a mutable structure: what insert and lookup do, from the root or from a
    node of an older frontier, against the tree as a value. */
module OverflowBTree {
  import opened Order
  import opened OverflowTree
  import opened OverflowRange
  import opened OverflowNode
  import opened Frontier

  // ---------------------------------------------------------------------------
  // What an insert makes of a tree
  // ---------------------------------------------------------------------------

  /** The last child whose key is below k. */
  function ChildBelow(keys: seq<int>, k: int): (i: nat)
    ensures i < |keys| || i == 0
  {
    var c := AtMost(keys, k - 1);
    if c == 0 then 0 else c - 1
  }

  ghost function InsertAt(t: Tree, n: nat, k: int): Tree
    requires TreeOk(t) && n < |t| && t[n].Leaf? && t[n].keys[0] <= k
  {
    var keys := t[n].keys;
    if |keys| < CHILD_NUM then (if k in keys then t else PutKey(t, n, k))
    else if keys[0] < k then PutKey(Split(t, n), |t| + ChildBelow(keys, k), k)
    else Split(t, n)
  }

  /** Stops early at an inner node whose first key is k. */
  ghost function InsertFrom(t: Tree, n: nat, k: int): Tree
    requires TreeOk(t) && n < |t| && t[n].keys[0] <= k
    decreases |t| - n
  {
    if t[n].Leaf? then InsertAt(t, n, k)
    else if t[n].keys[0] == k then t
    else InsertFrom(t, Next(t, n, k), k)
  }

  /** The descent for k meets an inner node whose first key is k. */
  ghost predicate StopsEarly(t: Tree, n: nat, k: int)
    requires TreeOk(t) && n < |t| && t[n].keys[0] <= k
    decreases |t| - n
  {
    t[n].Inner? && (t[n].keys[0] == k || StopsEarly(t, Next(t, n, k), k))
  }

  lemma InsertFromStep(t: Tree, n: nat, k: int)
    requires TreeOk(t) && n < |t| && t[n].Inner? && OnPath(t, n, k)
    ensures t[n].keys[0] <= k
    ensures t[n].keys[0] == k ==> InsertFrom(t, n, k) == t && k in Keys(t)
    ensures t[n].keys[0] < k ==> InsertFrom(t, n, k) == InsertFrom(t, Next(t, n, k), k)
    ensures StopsEarly(t, n, k) <==> t[n].keys[0] == k || StopsEarly(t, Next(t, n, k), k)
  {
    assert t[n].keys[0] in t[n].keys;
  }

  lemma LeafStops(t: Tree, n: nat, k: int)
    requires TreeOk(t) && n < |t| && t[n].Leaf? && t[n].keys[0] <= k
    ensures !StopsEarly(t, n, k)
  {
  }

  lemma InsertFromLeaf(t: Tree, n: nat, k: int)
    requires TreeOk(t) && n < |t| && t[n].Leaf? && OnPath(t, n, k)
    ensures t[n].keys[0] <= k && InsertFrom(t, n, k) == InsertAt(t, n, k)
  {
  }

  ghost predicate Sound(t: Tree) {
    OverflowTree.Valid(t) && Ranged(t)
  }

  lemma PutKeySound(t: Tree, tops: seq<Top>, n: nat, k: int)
    requires OverflowTree.Valid(t) && Bounded(t, tops) && n < |t| && t[n].Leaf? && |t[n].keys| < CHILD_NUM
    requires t[n].keys[0] <= k && k !in t[n].keys && t[0].keys[0] <= k && Below(k, tops[n])
    requires k in Keys(t) || LeafOf(t, 0, k) == n
    ensures Sound(PutKey(t, n, k)) && Keys(PutKey(t, n, k)) == Keys(t) + iset{k}
  {
    hide Bounded, OverflowTree.Valid;
    PutKeyValid(t, n, k);
    PutKeyBounded(t, tops, n, k);
  }

  lemma PutKeyValid(t: Tree, n: nat, k: int)
    requires OverflowTree.Valid(t) && n < |t| && t[n].Leaf? && |t[n].keys| < CHILD_NUM
    requires t[n].keys[0] <= k && k !in t[n].keys && t[0].keys[0] <= k
    requires k in Keys(t) || LeafOf(t, 0, k) == n
    ensures OverflowTree.Valid(PutKey(t, n, k)) && Keys(PutKey(t, n, k)) == Keys(t) + iset{k}
  {
    PutKeyFacts(t, n, k);
    PutKeyKeepsValid(t, n, k);
  }

  lemma SplitSound(t: Tree, tops: seq<Top>, n: nat)
    requires OverflowTree.Valid(t) && Bounded(t, tops) && n < |t| && t[n].Leaf? && |t[n].keys| == CHILD_NUM
    ensures OverflowTree.Valid(Split(t, n)) && Bounded(Split(t, n), SplitTops(t[n].keys, tops, n))
    ensures Keys(Split(t, n)) == Keys(t) && |tops| == |t|
  {
    SplitKeepsValid(t, n);
    SplitFacts(t, n);
    SplitBounded(t, tops, n);
  }

  lemma ChildBelowFacts(keys: seq<int>, k: int)
    requires Strict(keys) && |keys| > 0 && keys[0] < k
    ensures var i := ChildBelow(keys, k);
      && i < |keys| && keys[i] < k && (forall j :: 0 <= j <= i ==> keys[j] < k)
      && (forall j :: i < j < |keys| ==> k <= keys[j])
      && (k !in keys ==> AtMost(keys, k) == i + 1)
  {
    AtMostAfter(keys, k - 1);
    var i := ChildBelow(keys, k);
    if k !in keys { AtMostUnique(keys, k, i + 1); }
  }

  lemma TopOfChild(t: Tree, tops: seq<Top>, n: nat, k: int, i: nat)
    requires Bounded(t, tops) && OnPath(t, n, k) && t[n].Leaf? && i < |t[n].keys|
    requires i + 1 < |t[n].keys| ==> k <= t[n].keys[i + 1]
    ensures n < |tops| && Below(k, SplitTops(t[n].keys, tops, n)[|tops| + i])
  {
    DescentStaysBelow(t, tops, 0, k);
    SplitTopsAt(t[n].keys, tops, n);
  }

  lemma ChildOnPath(t: Tree, n: nat, k: int, i: nat)
    requires TreeOk(t) && OnPath(t, n, k) && t[n].Leaf? && |t[n].keys| == CHILD_NUM && TreeOk(Split(t, n))
    requires k !in t[n].keys ==> AtMost(t[n].keys, k) == i + 1
    ensures Split(t, n)[0].keys[0] <= k && (k in Keys(t) || LeafOf(Split(t, n), 0, k) == |t| + i)
  {
    assert k in t[n].keys ==> k in Keys(t);
    assert Split(t, n)[0].keys == t[0].keys;
    hide TreeOk, AtMost, Keys, Split;
    SplitLeafOf(t, n, 0, k);
  }

  lemma SplitForInsert(t: Tree, tops: seq<Top>, n: nat, k: int) returns (u: Tree, tops': seq<Top>, c: nat)
    requires OverflowTree.Valid(t) && Bounded(t, tops) && OnPath(t, n, k) && t[n].Leaf?
    requires |t[n].keys| == CHILD_NUM && t[n].keys[0] < k
    ensures c < |u| && u[c].Leaf? && InsertAt(t, n, k) == PutKey(u, c, k)
    ensures OverflowTree.Valid(u) && Bounded(u, tops') && Keys(u) == Keys(t) && |tops'| == |u|
    ensures |u[c].keys| == 1 && u[c].keys[0] < k && u[0].keys[0] <= k && Below(k, tops'[c])
    ensures k in Keys(u) || LeafOf(u, 0, k) == c
  {
    hide TreeOk, NodeOk, Routed, Strict, Bounded, AtMost, ChildBelow, Below, Split, LeafOf, Keys, SplitTops;
    hide InsertAt, PutKey;
    var keys := t[n].keys;
    var i := ChildBelow(keys, k);
    LeafIsStrict(t, n);
    ChildBelowFacts(keys, k);
    SplitSound(t, tops, n);
    TopOfChild(t, tops, n, k, i);
    ChildOfSplit(t, n, i);
    ChildOnPath(t, n, k, i);
    InsertAtIsPut(t, n, k, i);
    u, tops', c := Split(t, n), SplitTops(keys, tops, n), |t| + i;
  }

  lemma InsertAtIsPut(t: Tree, n: nat, k: int, i: nat)
    requires TreeOk(t) && n < |t| && t[n].Leaf? && |t[n].keys| == CHILD_NUM && t[n].keys[0] < k
    requires i == ChildBelow(t[n].keys, k) && i < CHILD_NUM && Split(t, n)[|t| + i].Leaf?
    ensures InsertAt(t, n, k) == PutKey(Split(t, n), |t| + i, k)
  {
    hide TreeOk, Split, PutKey, ChildBelow;
  }

  lemma LeafIsStrict(t: Tree, n: nat)
    requires TreeOk(t) && n < |t|
    ensures 1 <= |t[n].keys| <= CHILD_NUM && Strict(t[n].keys)
  {
    assert NodeOk(t, n);
  }

  /** Writing k into the child that a full leaf's split makes for it. */
  lemma SplitInsertSound(t: Tree, tops: seq<Top>, n: nat, k: int)
    requires OverflowTree.Valid(t) && Bounded(t, tops) && OnPath(t, n, k) && t[n].Leaf?
    requires |t[n].keys| == CHILD_NUM && t[n].keys[0] < k
    ensures Sound(InsertAt(t, n, k)) && Keys(InsertAt(t, n, k)) == Keys(t) + iset{k}
  {
    var u, tops', c := SplitForInsert(t, tops, n, k);
    PutKeySound(u, tops', c, k);
  }

  /** Inserting at the leaf of k's path keeps everything and adds exactly k. */
  lemma InsertAtSound(t: Tree, n: nat, k: int)
    requires Sound(t) && OnPath(t, n, k) && t[n].Leaf?
    ensures Sound(InsertAt(t, n, k)) && Keys(InsertAt(t, n, k)) == Keys(t) + iset{k}
  {
    var tops :| Bounded(t, tops);
    assert NodeOk(t, n);
    if |t[n].keys| < CHILD_NUM {
      if k in t[n].keys {
        assert Keys(t) == Keys(t) + iset{k};
      } else {
        DescentStaysBelow(t, tops, 0, k);
        PutKeySound(t, tops, n, k);
      }
    } else if t[n].keys[0] < k {
      SplitInsertSound(t, tops, n, k);
    } else {
      SplitSound(t, tops, n);
      assert k in t[n].keys;
      assert Keys(t) == Keys(t) + iset{k};
    }
  }

  /** From any node of k's path, so from the root as from a stale frontier node, an insert keeps
      everything and adds exactly k. */
  lemma {:induction false} InsertFromSound(t: Tree, n: nat, k: int)
    requires Sound(t) && OnPath(t, n, k)
    ensures Sound(InsertFrom(t, n, k)) && Keys(InsertFrom(t, n, k)) == Keys(t) + iset{k}
    decreases |t| - n
  {
    hide Sound, Ranged;
    assert OverflowTree.Valid(t) by { SoundIsValid(t); }
    if t[n].Leaf? {
      InsertAtSound(t, n, k);
    } else if t[n].keys[0] == k {
      assert k in t[n].keys;
      assert Keys(t) == Keys(t) + iset{k};
    } else {
      InsertFromSound(t, Next(t, n, k), k);
    }
  }

  lemma PutKeyPath(t: Tree, m: nat, x: int, n: nat, k: int)
    requires TreeOk(t) && m < |t| && t[m].Leaf? && |t[m].keys| < CHILD_NUM && t[m].keys[0] <= x && x !in t[m].keys
    requires OnPath(t, n, k)
    ensures TreeOk(PutKey(t, m, x)) && OnPath(PutKey(t, m, x), n, k)
  {
    PutKeyFacts(t, m, x);
    SameShapeSameLeaf(t, PutKey(t, m, x), 0, k);
    SameShapeSameLeaf(t, PutKey(t, m, x), n, k);
  }

  lemma InsertAtPath(t: Tree, m: nat, x: int, n: nat, k: int)
    requires TreeOk(t) && m < |t| && t[m].Leaf? && t[m].keys[0] <= x && OnPath(t, n, k)
    ensures TreeOk(InsertAt(t, m, x)) && OnPath(InsertAt(t, m, x), n, k)
  {
    assert NodeOk(t, m);
    if |t[m].keys| < CHILD_NUM {
      if x !in t[m].keys { PutKeyPath(t, m, x, n, k); }
    } else {
      SplitPath(t, m, n, k);
      if t[m].keys[0] < x {
        SplitInsertPath(t, m, x, n, k);
      }
    }
  }

  lemma SplitInsertPath(t: Tree, m: nat, x: int, n: nat, k: int)
    requires TreeOk(t) && m < |t| && t[m].Leaf? && |t[m].keys| == CHILD_NUM && t[m].keys[0] < x
    requires TreeOk(Split(t, m)) && OnPath(Split(t, m), n, k)
    ensures TreeOk(InsertAt(t, m, x)) && OnPath(InsertAt(t, m, x), n, k)
  {
    assert NodeOk(t, m);
    var u, i := Split(t, m), ChildBelow(t[m].keys, x);
    ChildBelowFacts(t[m].keys, x);
    assert u[|t| + i] == Leaf([t[m].keys[i]]);
    hide TreeOk, OnPath, Split, NodeOk, Strict;
    PutKeyPath(u, |t| + i, x, n, k);
  }

  /** An insert, from wherever, leaves every node on the paths it was on: an old frontier stays good. */
  lemma {:induction false} PathsSurviveInsert(t: Tree, m: nat, x: int, n: nat, k: int)
    requires Sound(t) && OnPath(t, m, x) && OnPath(t, n, k)
    ensures TreeOk(InsertFrom(t, m, x)) && OnPath(InsertFrom(t, m, x), n, k)
    decreases |t| - m
  {
    SoundIsValid(t);
    if t[m].Inner? {
      if t[m].keys[0] != x {
        NextOnPath(t, m, x);
        hide Sound, OnPath, LeafOf, TreeOk;
        PathsSurviveInsert(t, Next(t, m, x), x, n, k);
      }
    } else {
      hide Sound, TreeOk, LeafOf;
      InsertAtPath(t, m, x, n, k);
    }
  }

  lemma SoundIsValid(t: Tree)
    requires Sound(t)
    ensures OverflowTree.Valid(t)
  {
  }

  // ---------------------------------------------------------------------------
  // The objects
  // ---------------------------------------------------------------------------

  ghost predicate Matches(nd: OptNodeBase, v: NodeVal, all: seq<OptNodeBase>)
    reads nd, nd.keys, nd.pointers
  {
    && nd.Valid() && nd.keys[..nd.count] == v.keys && nd.leaf == v.Leaf?
    && (v.Inner? ==> |v.kids| == CHILD_NUM && PointsTo(nd, v.kids, all))
  }

  ghost predicate PointsTo(nd: OptNodeBase, kids: seq<nat>, all: seq<OptNodeBase>)
    reads nd.pointers
  {
    nd.pointers.Length == |kids| && forall i :: 0 <= i < |kids| ==> kids[i] < |all| && nd.pointers[i] == all[kids[i]]
  }

  ghost predicate Separate(a: OptNodeBase, b: OptNodeBase) {
    a != b && a.keys != b.keys && a.pointers != b.pointers
  }

  ghost predicate AllSeparate(all: seq<OptNodeBase>) {
    forall i, j :: 0 <= i < |all| && 0 <= j < |all| && i != j ==> Separate(all[i], all[j])
  }

  ghost function Footprint(all: seq<OptNodeBase>): (r: set<object>)
    ensures forall i :: 0 <= i < |all| ==> all[i] in r && all[i].keys in r && all[i].pointers in r
  {
    (set i | 0 <= i < |all| :: all[i] as object) + (set i | 0 <= i < |all| :: all[i].keys as object)
    + (set i | 0 <= i < |all| :: all[i].pointers as object)
  }

  class OptBTree {
    var root: OptNodeBase
    ghost var nodes: seq<OptNodeBase>
    ghost var tree: Tree

    /** The objects are the numbered nodes of `tree`; a tree without its seed key is []. */
    ghost predicate Valid()
      reads this, Footprint(nodes)
    {
      && |nodes| > 0 && nodes[0] == root && AllSeparate(nodes)
      && if tree == [] then |nodes| == 1 && root.Valid() && root.leaf && root.count == 0
         else Sound(tree) && Linked()
    }

    ghost predicate Linked()
      reads this, Footprint(nodes)
    {
      AllMatch(tree, nodes)
    }

    constructor ()
      ensures Valid() && tree == [] && fresh(Footprint(nodes))
    {
      root := new OptNodeBase();
      tree := [];
      new;
      nodes := [root];
    }

    lemma AtNode(n: nat)
      requires Valid() && tree != [] && n < |nodes|
      ensures |nodes| == |tree| && TreeOk(tree) && NodeOk(tree, n) && nodes[n].Valid()
      ensures nodes[n].leaf == tree[n].Leaf? && nodes[n].keys[..nodes[n].count] == tree[n].keys
      ensures nodes[n].count > 0 && nodes[n].keys[0] == tree[n].keys[0]
      ensures tree[n].Inner? ==> PointsTo(nodes[n], tree[n].kids, nodes)
    {
      assert Matches(nodes[n], tree[n], nodes) && NodeOk(tree, n);
      assert nodes[n].keys[..nodes[n].count][0] == nodes[n].keys[0];
    }

    /** The child on k's path. No position is negative, because the first key is at most k. */
    method ChildFor(node: OptNodeBase, ghost n: nat, k: int) returns (child: OptNodeBase, ghost c: nat)
      requires Valid() && tree != [] && n < |nodes| && nodes[n] == node && !node.leaf && OnPath(tree, n, k)
      ensures Valid() && tree[n].Inner? && c == Next(tree, n, k) && c < |nodes| && nodes[c] == child
      ensures OnPath(tree, c, k)
    {
      AtNode(n);
      AtMostAfter(tree[n].keys, k);
      hide Valid, Routed, Strict, AtMost;
      c := Next(tree, n, k);
      var pos := node.LowerBoundInner(k);
      child := node.pointers[pos - 1];
    }

    /** Whether k is in the tree, starting from any node of k's path. */
    method LookupFromNode(k: int, start: OptNodeBase, ghost s: nat) returns (found: bool)
      requires Valid() && tree != [] && OnPath(tree, s, k) && nodes[s] == start
      ensures found == (k in Keys(tree))
    {
      var node := start;
      ghost var n := s;
      LookupDecides(tree, k);
      assert TreeOk(tree) && |nodes| == |tree|;
      hide Valid, OverflowTree.Valid, NodeOk, Strict;
      while !node.leaf
        invariant Valid() && TreeOk(tree) && |nodes| == |tree| && OnPath(tree, n, k) && nodes[n] == node
        decreases |tree| - n
      {
        AtNode(n);
        node, n := ChildFor(node, n, k);
      }
      AtNode(n);
      found := node.SearchLeaf(k);
    }

    /** Gives every key of a full leaf a new child, in place. Returns the child to insert k into. */
    method SplitNode(node: OptNodeBase, ghost n: nat, k: int) returns (child: OptNodeBase, ghost c: nat)
      requires Linked() && AllSeparate(nodes) && n < |nodes| && nodes[n] == node
      requires tree[n].Leaf? && |tree[n].keys| == CHILD_NUM
      modifies this`nodes, this`tree, node`leaf, node.pointers
      ensures Grown(old(nodes), nodes) && AllSeparate(nodes) && Linked() && tree == Split(old(tree), n)
      ensures c == |old(tree)| + ChildBelow(old(tree)[n].keys, k) && c < |nodes| && nodes[c] == child && IsFresh(child)
      ensures tree[c] == Leaf([old(tree)[n].keys[c - |old(tree)|]])
    {
      ghost var all;
      child, c, all := SplitObjects(node, tree, nodes, n, k);
      nodes, tree := all, Split(tree, n);
    }

    /** Adds k to a leaf that has room. */
    method LeafInsert(node: OptNodeBase, ghost n: nat, k: int)
      requires Linked() && AllSeparate(nodes) && n < |nodes| && nodes[n] == node
      requires tree[n].Leaf? && |tree[n].keys| < CHILD_NUM
      modifies this`tree, node`count, node.keys
      ensures tree == (if k in old(tree)[n].keys then old(tree) else PutKey(old(tree), n, k)) && Linked()
    {
      ghost var t := tree;
      assert Matches(nodes[n], tree[n], nodes);
      hide Strict, PointsTo;
      var ok := node.InsertLeaf(k);
      tree := if ok then PutKey(tree, n, k) else tree;
      forall m | 0 <= m < |tree| ensures Matches(nodes[m], tree[m], nodes) {
        assert m != n ==> Matches(nodes[m], t[m], nodes);
      }
    }

    lemma FirstKeyAt(n: nat)
      requires Linked() && n < |nodes| && |tree[n].keys| > 0
      ensures nodes[n].keys.Length > 0 && nodes[n].keys[0] == tree[n].keys[0]
    {
      assert Matches(nodes[n], tree[n], nodes);
      assert nodes[n].keys[..nodes[n].count][0] == nodes[n].keys[0];
    }

    /** A full leaf is split, and k goes into one of the new children unless it is the first key. */
    method SplitAndInsert(node: OptNodeBase, ghost n: nat, k: int)
      requires Linked() && AllSeparate(nodes) && n < |nodes| && nodes[n] == node
      requires tree[n].Leaf? && |tree[n].keys| == CHILD_NUM && tree[n].keys[0] <= k
      modifies this`nodes, this`tree, node`leaf, node.pointers
      ensures tree == InsertFull(old(tree), n, k)
      ensures Linked() && AllSeparate(nodes) && Grown(old(nodes), nodes)
    {
      hide Strict, Matches, ChildBelow, Split, PutKey, AllSeparate, Footprint, OptBTree.Linked, Grown;
      ghost var t := tree;
      FirstKeyAt(n);
      var child;
      ghost var c;
      child, c := SplitNode(node, n, k);
      if k > node.keys[0] {
        LeafInsert(child, c, k);
      }
    }

    /** What insert does once it has the leaf. */
    method InsertIntoLeaf(node: OptNodeBase, ghost n: nat, k: int)
      requires TreeOk(tree) && Linked() && AllSeparate(nodes) && n < |nodes| && nodes[n] == node
      requires tree[n].Leaf? && tree[n].keys[0] <= k
      modifies this`nodes, this`tree, node, node.keys, node.pointers
      ensures tree == InsertAt(old(tree), n, k)
      ensures Linked() && AllSeparate(nodes) && Grown(old(nodes), nodes)
    {
      assert Matches(nodes[n], tree[n], nodes) && NodeOk(tree, n);
      if node.count == CHILD_NUM {
        InsertFullIsInsertAt(tree, n, k);
        SplitAndInsert(node, n, k);
      } else {
        LeafInsert(node, n, k);
      }
    }

    /** The descent of an insert: null if it stops early at an inner node whose first key is k. */
    method DescendToInsert(k: int, start: OptNodeBase, ghost s: nat) returns (leaf: OptNodeBase?, ghost n: nat)
      requires Valid() && tree != [] && OnPath(tree, s, k) && nodes[s] == start
      ensures Valid() && n < |nodes| && OnPath(tree, n, k)
      ensures leaf == null <==> StopsEarly(tree, s, k)
      ensures leaf != null ==> nodes[n] == leaf && tree[n].Leaf? && InsertFrom(tree, s, k) == InsertAt(tree, n, k)
      ensures leaf == null ==> InsertFrom(tree, s, k) == tree && k in Keys(tree)
    {
      var node := start;
      n := s;
      assert TreeOk(tree) && |nodes| == |tree|;
      hide Valid, OverflowTree.Valid, NodeOk, Strict, LeafOf, InsertFrom, InsertAt, TreeOk, OnPath, StopsEarly;
      while !node.leaf
        invariant Valid() && TreeOk(tree) && |nodes| == |tree| && OnPath(tree, n, k) && nodes[n] == node
        invariant InsertFrom(tree, n, k) == InsertFrom(tree, s, k) && StopsEarly(tree, n, k) == StopsEarly(tree, s, k)
        decreases |tree| - n
      {
        AtNode(n);
        InsertFromStep(tree, n, k);
        if k <= node.keys[0] {
          return null, n;
        }
        node, n := ChildFor(node, n, k);
      }
      AtNode(n);
      InsertFromLeaf(tree, n, k);
      assert !StopsEarly(tree, n, k) by { LeafStops(tree, n, k); }
      leaf := node;
    }

    /** The part of insert under the lock. */
    method InsertAtLeaf(node: OptNodeBase, ghost n: nat, k: int)
      requires Valid() && tree != [] && OnPath(tree, n, k) && nodes[n] == node && tree[n].Leaf?
      modifies this`nodes, this`tree, node, node.keys, node.pointers
      ensures Valid() && tree != [] && tree == InsertAt(old(tree), n, k) && Grown(old(nodes), nodes)
    {
      InsertAtSound(tree, n, k);
      InsertIntoLeaf(node, n, k);
      assert Sound(tree);
      hide Sound, Matches, InsertAt, OnPath;
    }

    /** Adds exactly k, starting from any node of k's path. */
    method InsertFromNode(k: int, start: OptNodeBase, ghost s: nat) returns (ok: bool)
      requires Valid() && tree != [] && OnPath(tree, s, k) && nodes[s] == start
      modifies this`nodes, this`tree, Footprint(nodes)
      ensures Valid() && tree != [] && tree == InsertFrom(old(tree), s, k) && Keys(tree) == old(Keys(tree)) + iset{k}
      ensures Grown(old(nodes), nodes)
      ensures ok <==> !StopsEarly(old(tree), s, k)
      ensures !ok ==> k in old(Keys(tree)) && tree == old(tree)
    {
      InsertFromSound(tree, s, k);
      hide OptBTree.Valid, Keys, OnPath, Footprint, InsertFrom, InsertAt, Sound, Grown, StopsEarly;
      var leaf;
      ghost var n;
      NotGrown(nodes);
      leaf, n := DescendToInsert(k, start, s);
      if leaf == null { return false; }
      InsertAtLeaf(leaf, n, k);
      return true;
    }

    /** Insert from the root, for keys not below the seed. */
    method Insert(k: int) returns (ok: bool)
      requires Valid() && tree != [] && tree[0].keys[0] <= k
      modifies this`nodes, this`tree, Footprint(nodes)
      ensures Valid() && tree != [] && Keys(tree) == old(Keys(tree)) + iset{k}
      ensures Grown(old(nodes), nodes)
      ensures ok <==> !StopsEarly(old(tree), 0, k)
      ensures !ok ==> k in old(Keys(tree)) && tree == old(tree)
    {
      ok := InsertFromNode(k, root, 0);
    }

    /** The first insert finds an empty root leaf. */
    method Seed(k: int)
      requires Valid() && tree == []
      modifies this`tree, root`count, root.keys
      ensures Valid() && tree == [Leaf([k])] && nodes == old(nodes)
    {
      var ok := root.InsertLeaf(k);
      tree := [Leaf([k])];
      SeedSound(k);
      assert Matches(nodes[0], tree[0], nodes);
    }

    method Lookup(k: int) returns (found: bool)
      requires Valid() && tree != [] && tree[0].keys[0] <= k
      ensures found == (k in Keys(tree))
    {
      found := LookupFromNode(k, root, 0);
    }

    /** Appends the leaves below node, left to right, each with its parent's key. */
    method HelpGetAllInner(node: OptNodeBase, ghost n: nat, keys0: seq<int>, points0: seq<OptNodeBase>)
      returns (keys: seq<int>, points: seq<OptNodeBase>)
      requires Valid() && tree != [] && n < |nodes| && nodes[n] == node && tree[n].Inner?
      ensures Valid() && TreeOk(tree) && Collected(LeavesFrom(tree, n, 0), keys0, points0, keys, points)
      decreases |tree| - n, 1
    {
      AtNode(n);
      keys, points := keys0, points0;
      ghost var ids := [];
      hide Valid, OverflowTree.Valid, Strict, NodeOk, Collected, LeavesUnder, TreeOk;
      CollectedNothing(keys0, points0);
      for i := 0 to node.count
        invariant Valid() && Collected(ids, keys0, points0, keys, points)
        invariant ids + LeavesFrom(tree, n, i) == LeavesFrom(tree, n, 0)
      {
        ghost var more := LeavesUnder(tree, n, tree[n].kids[i]);
        ghost var keys1, points1 := keys, points;
        keys, points := GetAllUnder(node, n, i, keys, points);
        CollectedConcat(ids, more, keys0, points0, keys1, points1, keys, points);
        LeavesStep(tree, n, i, ids);
        ids := ids + more;
      }
      assert ids + LeavesFrom(tree, n, CHILD_NUM) == ids;
    }

    /** One round of the loop: a leaf child is listed, an inner one is searched. */
    method GetAllUnder(node: OptNodeBase, ghost n: nat, i: nat, keys0: seq<int>, points0: seq<OptNodeBase>)
      returns (keys: seq<int>, points: seq<OptNodeBase>)
      requires Valid() && tree != [] && n < |nodes| == |tree| && nodes[n] == node && tree[n].Inner? && i < node.count
      requires TreeOk(tree) && NodeOk(tree, n) && i < CHILD_NUM
      ensures Valid() && Collected(LeavesUnder(tree, n, tree[n].kids[i]), keys0, points0, keys, points)
      decreases |tree| - n, 0
    {
      AtNode(n);
      ghost var m := tree[n].kids[i];
      var nextnode := node.pointers[i];
      AtNode(m);
      hide Valid, OverflowTree.Valid, Strict;
      if !nextnode.leaf {
        keys, points := HelpGetAllInner(nextnode, m, keys0, points0);
      } else {
        assert node.keys[i] == node.keys[..node.count][i] == tree[m].keys[0];
        keys := keys0 + [node.keys[i]];
        points := points0 + [nextnode];
      }
    }

    lemma CollectedNothing(keys0: seq<int>, points0: seq<OptNodeBase>)
      requires TreeOk(tree) && |nodes| == |tree|
      ensures Collected([], keys0, points0, keys0, points0)
    {
    }

    /** The lists end with the given leaves and their first keys. */
    ghost predicate Collected(ids: seq<nat>, keys0: seq<int>, points0: seq<OptNodeBase>, keys: seq<int>,
                              points: seq<OptNodeBase>)
      reads this
    {
      && TreeOk(tree) && |nodes| == |tree| && (forall a :: 0 <= a < |ids| ==> ids[a] < |tree|)
      && keys == keys0 + FirstKeys(tree, ids) && |points| == |points0| + |ids| && points[..|points0|] == points0
      && forall a :: 0 <= a < |ids| ==> points[|points0| + a] == nodes[ids[a]]
    }

    lemma CollectedConcat(a: seq<nat>, b: seq<nat>, keys0: seq<int>, points0: seq<OptNodeBase>,
                          keys1: seq<int>, points1: seq<OptNodeBase>, keys: seq<int>, points: seq<OptNodeBase>)
      requires Collected(a, keys0, points0, keys1, points1) && Collected(b, keys1, points1, keys, points)
      ensures Collected(a + b, keys0, points0, keys, points)
    {
      FirstKeysConcat(tree, a, b);
      assert points[..|points0|] == points[..|points1|][..|points0|];
      forall x | 0 <= x < |a + b| ensures points[|points0| + x] == nodes[(a + b)[x]] {
        if x < |a| { assert points[|points0| + x] == points[..|points1|][|points0| + x]; }
      }
    }

    /** The frontier with its keys; false for a tree that is a single leaf. */
    method GetAllInner() returns (ok: bool, keys: seq<int>, points: seq<OptNodeBase>)
      requires Valid()
      ensures ok == (tree != [] && tree[0].Inner?)
      ensures ok ==> TreeOk(tree) && Collected(LeavesFrom(tree, 0, 0), [], [], keys, points) && Ascending(keys)
      ensures !ok ==> keys == [] && points == []
    {
      if tree != [] { AtNode(0); }
      if root.leaf { return false, [], []; }
      ok := true;
      keys, points := HelpGetAllInner(root, 0, [], []);
      assert Sound(tree);
      ghost var tops :| Bounded(tree, tops);
      LeavesSpan(tree, tops, 0, 0);
      assert keys == FirstKeys(tree, LeavesFrom(tree, 0, 0));
    }
  }

  lemma LeavesStep(t: Tree, n: nat, i: nat, ids: seq<nat>)
    requires TreeOk(t) && n < |t| && NodeOk(t, n) && t[n].Inner? && i < CHILD_NUM
    ensures ids + LeavesFrom(t, n, i) == (ids + LeavesUnder(t, n, t[n].kids[i])) + LeavesFrom(t, n, i + 1)
  {
  }

  lemma SeedSound(k: int)
    ensures Sound([Leaf([k])])
  {
    var t: Tree := [Leaf([k])];
    assert NodeOk(t, 0);
    forall x | x in Keys(t) ensures t[0].keys[0] <= x && Member(t, x) {
      assert LeafOf(t, 0, x) == 0;
    }
    assert NodeBounded(t, [Open], 0);
    assert Bounded(t, [Open]);
  }

  /** Old nodes keep their numbers, new ones are new objects. */
  twostate predicate Grown(before: seq<OptNodeBase>, new after: seq<OptNodeBase>) {
    && |before| <= |after| && after[..|before|] == before
    && forall j :: |before| <= j < |after| ==> IsFresh(after[j])
  }

  twostate lemma NotGrown(all: seq<OptNodeBase>)
    ensures Grown(all, all)
  {
  }

  ghost function InsertFull(t: Tree, n: nat, k: int): Tree
    requires n < |t| && t[n].Leaf? && |t[n].keys| == CHILD_NUM && t[n].keys[0] <= k
  {
    var u, c := Split(t, n), |t| + ChildBelow(t[n].keys, k);
    if t[n].keys[0] < k then (if k in u[c].keys then u else PutKey(u, c, k)) else u
  }

  lemma InsertFullIsInsertAt(t: Tree, n: nat, k: int)
    requires TreeOk(t) && n < |t| && t[n].Leaf? && |t[n].keys| == CHILD_NUM && t[n].keys[0] <= k
    ensures InsertFull(t, n, k) == InsertAt(t, n, k)
  {
    assert NodeOk(t, n);
    if t[n].keys[0] < k { ChildBelowFacts(t[n].keys, k); }
  }

  twostate lemma FreshSeparate(all: seq<OptNodeBase>, new kids: seq<OptNodeBase>)
    requires AllSeparate(all) && AllSeparate(kids) && forall j :: 0 <= j < |kids| ==> IsFresh(kids[j])
    ensures AllSeparate(all + kids)
  {
    SeparateConcat(all, kids);
  }

  twostate predicate IsFresh(new x: OptNodeBase) {
    fresh(x) && fresh(x.keys) && fresh(x.pointers)
  }

  ghost predicate NewLeaf(nd: OptNodeBase, key: int)
    reads nd, nd.keys
  {
    nd.Valid() && nd.leaf && nd.count == 1 && nd.keys[0] == key
  }

  lemma SeparateConcat(a: seq<OptNodeBase>, b: seq<OptNodeBase>)
    requires AllSeparate(a) && AllSeparate(b) && forall x, y :: x in a && y in b ==> Separate(x, y)
    ensures AllSeparate(a + b)
  {
    var s := a + b;
    forall i, j | 0 <= i < |s| && 0 <= j < |s| && i != j ensures Separate(s[i], s[j]) {
      if i < |a| && j >= |a| { assert a[i] in a && b[j - |a|] in b; }
      if j < |a| && i >= |a| { assert a[j] in a && b[i - |a|] in b; }
    }
  }

  method MakeChild(node: OptNodeBase, i: nat) returns (newnode: OptNodeBase)
    requires i < node.keys.Length && i < node.pointers.Length
    modifies node.pointers
    ensures IsFresh(newnode) && NewLeaf(newnode, node.keys[i])
    ensures node.pointers[..] == old(node.pointers[..])[i := newnode]
  {
    newnode := new OptNodeBase();
    newnode.keys[0] := node.keys[i];
    newnode.count := 1;
    node.pointers[i] := newnode;
  }

  ghost predicate ChildSoFar(keys: seq<int>, k: int, i: nat, next: nat)
    requires i <= |keys|
  {
    && next <= i && (next == i ==> i == 0) && (next > 0 ==> k > keys[next])
    && forall j :: next < j < i ==> k <= keys[j]
  }

  lemma ChildFound(keys: seq<int>, k: int, next: nat)
    requires |keys| > 0 && ChildSoFar(keys, k, |keys|, next)
    ensures next == ChildBelow(keys, k)
  {
    AtMostUnique(keys, k - 1, if next > 0 || k > keys[0] then next + 1 else 0);
  }

  twostate predicate Made(node: OptNodeBase, new kids: seq<OptNodeBase>)
    reads node, node.keys, node.pointers, Footprint(kids)
  {
    && |kids| <= node.keys.Length && |kids| <= node.pointers.Length && AllSeparate(kids)
    && (forall j :: 0 <= j < |kids| ==> IsFresh(kids[j]))
    && (forall j :: 0 <= j < |kids| ==> NewLeaf(kids[j], node.keys[j]))
    && (forall j :: 0 <= j < |kids| ==> node.pointers[j] == kids[j])
  }

  method MakeChildren(node: OptNodeBase, k: int) returns (next: nat, ghost kids: seq<OptNodeBase>)
    requires node.Valid() && node.count == CHILD_NUM
    modifies node`leaf, node.pointers
    ensures |kids| == CHILD_NUM && Made(node, kids) && !node.leaf && node.Valid()
    ensures next == ChildBelow(node.keys[..], k) && next < CHILD_NUM
  {
    assert node.keys.Length == CHILD_NUM && node.pointers.Length == CHILD_NUM;
    hide Strict;
    next, kids := 0, [];
    ghost var keys := node.keys[..];
    for i := 0 to CHILD_NUM
      invariant |kids| == i && Made(node, kids) && ChildSoFar(keys, k, i, next)
    {
      var newnode := MakeChild(node, i);
      SeparateConcat(kids, [newnode]);
      kids := kids + [newnode];
      if k > node.keys[i] { next := i; }
    }
    ChildFound(keys, k, next);
    node.leaf := false;
  }

  ghost predicate AllMatch(t: Tree, all: seq<OptNodeBase>)
    reads Footprint(all)
  {
    |all| == |t| && forall n :: 0 <= n < |t| ==> Matches(all[n], t[n], all)
  }

  /** The objects before and after a split. */
  method SplitObjects(node: OptNodeBase, ghost t: Tree, ghost before: seq<OptNodeBase>, ghost n: nat, k: int)
      returns (child: OptNodeBase, ghost c: nat, ghost all: seq<OptNodeBase>)
    requires AllMatch(t, before) && AllSeparate(before) && n < |before| && before[n] == node
    requires t[n].Leaf? && |t[n].keys| == CHILD_NUM
    modifies node`leaf, node.pointers
    ensures Grown(before, all) && AllSeparate(all) && AllMatch(Split(t, n), all)
    ensures c == |t| + ChildBelow(t[n].keys, k) && c < |all| && all[c] == child && IsFresh(child)
    ensures Split(t, n)[c] == Leaf([t[n].keys[c - |t|]])
  {
    assert Matches(before[n], t[n], before);
    assert node.count == CHILD_NUM && node.keys[..] == t[n].keys;
    hide Strict, AtMost, NewLeaf, PointsTo, ChildBelow, Split, Footprint;
    var next;
    ghost var kids;
    next, kids := MakeChildren(node, k);
    child, c := node.pointers[next], |t| + next;
    ChildOfSplit(t, n, next);
    FreshSeparate(before, kids);
    all := before + kids;
    LinkedAfterSplit(t, before, n, kids);
  }

  lemma ChildOfSplit(t: Tree, n: nat, i: nat)
    requires n < |t| && t[n].Leaf? && i < |t[n].keys|
    ensures Split(t, n)[|t| + i] == Leaf([t[n].keys[i]])
  {
  }

  lemma LinkedAfterSplit(t: Tree, before: seq<OptNodeBase>, n: nat, kids: seq<OptNodeBase>)
    requires |before| == |t| && n < |t| && t[n].Leaf? && |t[n].keys| == CHILD_NUM == |kids|
    requires forall m :: 0 <= m < |t| && m != n ==> Matches(before[m], t[m], before)
    requires before[n].Valid() && before[n].keys[..before[n].count] == t[n].keys && !before[n].leaf
    requires forall j :: 0 <= j < CHILD_NUM ==> NewLeaf(kids[j], t[n].keys[j]) && before[n].pointers[j] == kids[j]
    ensures var u := Split(t, n);
      |before + kids| == |u| && forall m :: 0 <= m < |u| ==> Matches((before + kids)[m], u[m], before + kids)
  {
    var all, u := before + kids, Split(t, n);
    forall m | 0 <= m < |u| ensures Matches(all[m], u[m], all) {
      if m >= |t| {
        assert u[m] == Leaf([t[n].keys[m - |t|]]);
        assert NewLeaf(all[m], t[n].keys[m - |t|]);
      } else if m != n {
        assert Matches(before[m], t[m], before);
      }
    }
  }
}
