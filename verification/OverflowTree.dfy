/** The overflow tree as a value: nodes are numbered, a full leaf turns into an inner node
    with one child per key. */
module OverflowTree {
  import opened Order

  const CHILD_NUM: nat := 32

  /** Both kinds hold keys; an inner node also holds the number of the child of every key. */
  datatype NodeVal = Leaf(keys: seq<int>) | Inner(keys: seq<int>, kids: seq<nat>)

  type Tree = seq<NodeVal>

  /** How many leading keys are at most k, which is what lowerBoundInner returns. */
  function AtMost(keys: seq<int>, k: int): (c: nat)
    ensures c <= |keys|
    ensures c > 0 ==> keys[c - 1] <= k
  {
    if |keys| == 0 then 0
    else if keys[|keys| - 1] <= k then |keys|
    else AtMost(keys[..|keys| - 1], k)
  }

  lemma {:induction false} AtMostAfter(keys: seq<int>, k: int)
    ensures forall i :: AtMost(keys, k) <= i < |keys| ==> keys[i] > k
  {
    if |keys| > 0 && keys[|keys| - 1] > k {
      AtMostAfter(keys[..|keys| - 1], k);
      forall i | AtMost(keys, k) <= i < |keys| ensures keys[i] > k {
        if i < |keys| - 1 { assert keys[i] == keys[..|keys| - 1][i]; }
      }
    }
  }

  lemma AtMostUnique(keys: seq<int>, k: int, c: nat)
    requires c <= |keys| && (c > 0 ==> keys[c - 1] <= k)
    requires forall i :: c <= i < |keys| ==> keys[i] > k
    ensures AtMost(keys, k) == c
  {
    AtMostAfter(keys, k);
  }

  ghost predicate NodeOk(t: Tree, n: nat)
    requires n < |t|
  {
    && 1 <= |t[n].keys| <= CHILD_NUM && Strict(t[n].keys)
    && (t[n].Inner? ==>
          && |t[n].keys| == CHILD_NUM && |t[n].kids| == CHILD_NUM
          && forall i :: 0 <= i < CHILD_NUM ==>
               n < t[n].kids[i] < |t| && |t[t[n].kids[i]].keys| > 0 && t[t[n].kids[i]].keys[0] == t[n].keys[i])
  }

  ghost predicate TreeOk(t: Tree) {
    && |t| > 0
    && (forall n :: 0 <= n < |t| ==> |t[n].keys| > 0)
    && (forall n :: 0 <= n < |t| ==> NodeOk(t, n))
  }

  /** The leaf where the descent for k from node n ends. */
  ghost function LeafOf(t: Tree, n: nat, k: int): (leaf: nat)
    requires TreeOk(t) && n < |t| && t[n].keys[0] <= k
    ensures n <= leaf < |t| && t[leaf].Leaf? && t[leaf].keys[0] <= k
    decreases |t| - n
  {
    if t[n].Leaf? then n else LeafOf(t, Next(t, n, k), k)
  }

  /** One step of the descent. */
  ghost function Next(t: Tree, n: nat, k: int): (m: nat)
    requires TreeOk(t) && n < |t| && t[n].Inner? && t[n].keys[0] <= k
    ensures n < m < |t| && t[m].keys[0] <= k
  {
    assert NodeOk(t, n);
    AtMostAfter(t[n].keys, k);
    t[n].kids[AtMost(t[n].keys, k) - 1]
  }

  /** The descent for k from the root passes through n. */
  ghost predicate OnPath(t: Tree, n: nat, k: int)
    requires TreeOk(t)
  {
    n < |t| && t[0].keys[0] <= k && t[n].keys[0] <= k && LeafOf(t, 0, k) == LeafOf(t, n, k)
  }

  ghost function Keys(t: Tree): iset<int> {
    iset n, k | 0 <= n < |t| && k in t[n].keys :: k
  }

  ghost predicate Member(t: Tree, k: int)
    requires TreeOk(t) && t[0].keys[0] <= k
  {
    k in t[LeafOf(t, 0, k)].keys
  }

  /** Every key anywhere in the tree is at least the root's first key and sits where the descent looks. */
  ghost predicate Routed(t: Tree)
    requires TreeOk(t)
  {
    forall k :: k in Keys(t) ==> t[0].keys[0] <= k && Member(t, k)
  }

  ghost predicate Valid(t: Tree) {
    TreeOk(t) && Routed(t)
  }

  /** In a valid tree the descent decides membership, at any depth. */
  lemma LookupDecides(t: Tree, k: int)
    requires Valid(t) && t[0].keys[0] <= k
    ensures Member(t, k) <==> k in Keys(t)
  {
  }

  // ---------------------------------------------------------------------------
  // The two changes
  // ---------------------------------------------------------------------------

  function InsertSorted(keys: seq<int>, k: int): (r: seq<int>)
    ensures |r| == |keys| + 1
  {
    var c := AtMost(keys, k);
    keys[..c] + [k] + keys[c..]
  }

  /** Where the keys of the result come from. */
  lemma InsertSortedIndex(keys: seq<int>, k: int)
    ensures var c, r := AtMost(keys, k), InsertSorted(keys, k);
      && r[c] == k
      && (forall i :: 0 <= i < c ==> r[i] == keys[i])
      && (forall i :: c < i < |r| ==> r[i] == keys[i - 1])
  {
    hide AtMost;
  }

  lemma InsertSortedFacts(keys: seq<int>, k: int)
    requires Strict(keys) && k !in keys
    ensures var r := InsertSorted(keys, k);
      && Strict(r) && (forall x :: x in r <==> x in keys || x == k)
      && (|keys| > 0 && keys[0] <= k ==> r[0] == keys[0])
  {
    var c, r := AtMost(keys, k), InsertSorted(keys, k);
    AtMostAfter(keys, k);
    InsertSortedIndex(keys, k);
    assert |keys| > 0 && keys[0] <= k ==> c > 0;
    hide AtMost, InsertSorted;
    assert forall i :: 0 <= i < c ==> keys[i] < k by { if c > 0 { assert keys[c - 1] in keys; } }
    SpliceStrict(keys, k, c, r);
    SpliceMembers(keys, k, c, r);
  }

  lemma SpliceStrict(keys: seq<int>, k: int, c: nat, r: seq<int>)
    requires Strict(keys) && c <= |keys| && |r| == |keys| + 1 && r[c] == k
    requires forall i :: 0 <= i < c ==> r[i] == keys[i] < k
    requires forall i :: c < i < |r| ==> r[i] == keys[i - 1]
    requires forall i :: c <= i < |keys| ==> keys[i] > k
    ensures Strict(r)
  {
    forall i, j | 0 <= i < j < |r| ensures r[i] < r[j] {
    }
  }

  lemma SpliceMembers(keys: seq<int>, k: int, c: nat, r: seq<int>)
    requires c <= |keys| && |r| == |keys| + 1 && r[c] == k
    requires forall i :: 0 <= i < c ==> r[i] == keys[i]
    requires forall i :: c < i < |r| ==> r[i] == keys[i - 1]
    ensures forall x :: x in r <==> x in keys || x == k
  {
    forall x | x in keys ensures x in r {
      var i :| 0 <= i < |keys| && keys[i] == x;
      assert r[if i < c then i else i + 1] == x;
    }
  }

  function PutKey(t: Tree, n: nat, k: int): Tree
    requires n < |t| && t[n].Leaf?
  {
    t[n := Leaf(InsertSorted(t[n].keys, k))]
  }

  /** Only leaf contents differ, so every descent is the same. */
  ghost predicate SameShape(t: Tree, u: Tree) {
    && |t| == |u|
    && (forall n :: 0 <= n < |t| ==> t[n].Leaf? == u[n].Leaf? && (t[n].Inner? ==> t[n] == u[n]))
    && (forall n :: 0 <= n < |t| ==> |t[n].keys| > 0 && |u[n].keys| > 0 && t[n].keys[0] == u[n].keys[0])
  }

  lemma {:induction false} SameShapeSameLeaf(t: Tree, u: Tree, n: nat, k: int)
    requires TreeOk(t) && TreeOk(u) && SameShape(t, u) && n < |t| && t[n].keys[0] <= k
    ensures LeafOf(t, n, k) == LeafOf(u, n, k)
    decreases |t| - n
  {
    if t[n].Inner? {
      SameShapeSameLeaf(t, u, Next(t, n, k), k);
    }
  }

  lemma PutKeyFacts(t: Tree, n: nat, k: int)
    requires TreeOk(t) && n < |t| && t[n].Leaf? && |t[n].keys| < CHILD_NUM
    requires t[n].keys[0] <= k && k !in t[n].keys
    ensures TreeOk(PutKey(t, n, k)) && SameShape(t, PutKey(t, n, k))
    ensures Keys(PutKey(t, n, k)) == Keys(t) + iset{k}
  {
    assert NodeOk(t, n);
    InsertSortedFacts(t[n].keys, k);
    var u := PutKey(t, n, k);
    forall m | 0 <= m < |u| ensures NodeOk(u, m) {
      assert NodeOk(t, m);
    }
    forall x ensures x in Keys(u) <==> x in Keys(t) || x == k {
      if x in Keys(t) {
        var m :| 0 <= m < |t| && x in t[m].keys;
        assert x in u[m].keys;
      }
      if x in Keys(u) {
        var m :| 0 <= m < |u| && x in u[m].keys;
        assert m != n ==> x in t[m].keys;
      }
      assert k in u[n].keys;
    }
  }

  /** Writing a key into the leaf its descent reaches, or a second copy anywhere, keeps the tree valid. */
  lemma PutKeyKeepsValid(t: Tree, n: nat, k: int)
    requires Valid(t) && n < |t| && t[n].Leaf? && |t[n].keys| < CHILD_NUM
    requires t[n].keys[0] <= k && k !in t[n].keys && t[0].keys[0] <= k
    requires k in Keys(t) || LeafOf(t, 0, k) == n
    ensures Valid(PutKey(t, n, k))
  {
    PutKeyFacts(t, n, k);
    assert NodeOk(t, n);
    InsertSortedFacts(t[n].keys, k);
    var u := PutKey(t, n, k);
    forall x | x in Keys(u) ensures u[0].keys[0] <= x && Member(u, x) {
      assert t[0].keys[0] <= x;
      SameShapeSameLeaf(t, u, 0, x);
      assert x in Keys(t) ==> Member(t, x);
    }
  }

  /** Splitting: the children get the next numbers, one key each. */
  function Children(keys: seq<int>): (c: seq<NodeVal>)
    ensures |c| == |keys| && forall i :: 0 <= i < |keys| ==> c[i] == Leaf([keys[i]])
  {
    seq(|keys|, i requires 0 <= i < |keys| => Leaf([keys[i]]))
  }

  function KidIds(base: nat, count: nat): (ids: seq<nat>)
    ensures |ids| == count && forall i :: 0 <= i < count ==> ids[i] == base + i
  {
    seq(count, i => base + i)
  }

  function Split(t: Tree, n: nat): (u: Tree)
    requires n < |t| && t[n].Leaf?
    ensures |u| == |t| + |t[n].keys|
  {
    t[n := Inner(t[n].keys, KidIds(|t|, |t[n].keys|))] + Children(t[n].keys)
  }

  lemma SplitFacts(t: Tree, n: nat)
    requires TreeOk(t) && n < |t| && t[n].Leaf? && |t[n].keys| == CHILD_NUM
    ensures TreeOk(Split(t, n)) && Keys(Split(t, n)) == Keys(t)
    ensures forall m :: 0 <= m < |t| ==> Split(t, n)[m].keys == t[m].keys
  {
    assert NodeOk(t, n);
    var u := Split(t, n);
    forall m | 0 <= m < |u| ensures NodeOk(u, m) {
      if m < |t| { assert NodeOk(t, m); }
    }
    forall x ensures x in Keys(u) <==> x in Keys(t) {
      if x in Keys(t) {
        var m :| 0 <= m < |t| && x in t[m].keys;
        assert x in u[m].keys;
      }
      if x in Keys(u) {
        var m :| 0 <= m < |u| && x in u[m].keys;
        if m < |t| {
          assert x in t[m].keys;
        } else {
          assert u[m] == Leaf([t[n].keys[m - |t|]]);
          assert x in t[n].keys;
        }
      }
    }
  }

  /** A descent that ended in the split leaf goes one step further; all others are unchanged. */
  lemma {:induction false} SplitLeafOf(t: Tree, n: nat, m: nat, k: int)
    requires TreeOk(t) && n < |t| && t[n].Leaf? && |t[n].keys| == CHILD_NUM
    requires TreeOk(Split(t, n)) && m < |t| && t[m].keys[0] <= k && Split(t, n)[m].keys == t[m].keys
    ensures LeafOf(Split(t, n), m, k) ==
      if LeafOf(t, m, k) == n then |t| + AtMost(t[n].keys, k) - 1 else LeafOf(t, m, k)
    ensures LeafOf(t, m, k) == n ==> AtMost(t[n].keys, k) >= 1
    decreases |t| - m
  {
    var u := Split(t, n);
    if m == n {
      AtMostAfter(t[n].keys, k);
      var c := AtMost(t[n].keys, k);
      assert c >= 1;
      assert Next(u, n, k) == |t| + c - 1;
      assert u[|t| + c - 1] == Leaf([t[n].keys[c - 1]]);
    } else if t[m].Inner? {
      assert u[m] == t[m];
      var c := Next(t, m, k);
      assert u[c].keys == t[c].keys;
      SplitLeafOf(t, n, c, k);
    }
  }

  lemma OtherLeafStays(t: Tree, n: nat, m: nat)
    requires n < |t| && t[n].Leaf? && m < |t| && m != n
    ensures Split(t, n)[m] == t[m]
  {
  }

  lemma KeyOfChild(t: Tree, n: nat, x: int)
    requires TreeOk(t) && n < |t| && t[n].Leaf? && x in t[n].keys
    ensures AtMost(t[n].keys, x) > 0 && Split(t, n)[|t| + AtMost(t[n].keys, x) - 1] == Leaf([x])
  {
    var keys := t[n].keys;
    var i :| 0 <= i < |keys| && keys[i] == x;
    assert NodeOk(t, n);
    AtMostUnique(keys, x, i + 1);
    hide TreeOk;
  }

  lemma MemberAfterSplit(t: Tree, n: nat, x: int)
    requires TreeOk(t) && n < |t| && t[n].Leaf? && |t[n].keys| == CHILD_NUM
    requires TreeOk(Split(t, n)) && t[0].keys[0] <= x && Split(t, n)[0].keys == t[0].keys && Member(t, x)
    ensures Member(Split(t, n), x)
  {
    hide LeafOf, AtMost, Split;
    SplitLeafOf(t, n, 0, x);
    if LeafOf(t, 0, x) == n {
      KeyOfChild(t, n, x);
    } else {
      OtherLeafStays(t, n, LeafOf(t, 0, x));
    }
  }

  lemma SplitKeepsValid(t: Tree, n: nat)
    requires Valid(t) && n < |t| && t[n].Leaf? && |t[n].keys| == CHILD_NUM
    ensures Valid(Split(t, n))
  {
    SplitFacts(t, n);
    hide Member, Keys, Split;
    forall x | x in Keys(Split(t, n)) ensures Split(t, n)[0].keys[0] <= x && Member(Split(t, n), x) {
      MemberAfterSplit(t, n, x);
    }
  }

  /** Going down one level stays on the path. */
  lemma NextOnPath(t: Tree, n: nat, k: int)
    requires TreeOk(t) && n < |t| && t[n].Inner? && t[n].keys[0] <= k && OnPath(t, n, k)
    ensures OnPath(t, Next(t, n, k), k)
  {
  }

  /** A split keeps every path. */
  lemma SplitPath(t: Tree, n: nat, m: nat, k: int)
    requires TreeOk(t) && n < |t| && t[n].Leaf? && |t[n].keys| == CHILD_NUM && OnPath(t, m, k)
    ensures TreeOk(Split(t, n)) && OnPath(Split(t, n), m, k)
  {
    SplitFacts(t, n);
    SplitLeafOf(t, n, 0, k);
    SplitLeafOf(t, n, m, k);
  }
}
