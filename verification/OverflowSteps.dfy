/** Every step of the concurrent overflow tree keeps the invariant, provided nobody locks a child
    that its splitter has not finished. */
module OverflowSteps {
  import opened Order
  import opened OverflowTree
  import opened OverflowConcurrent
  import opened OverflowInvariant

  ghost predicate ChildOf(th: Thread, c: nat) {
    (th.InsChild? || th.InsChildCount?) && th.c == c
  }

  /** Unfinished children keep their owner, or become t's. */
  ghost predicate OwnerStep(s: State, s': State, t: nat, c: nat)
    requires t < |s'.threads| && c < |s'.mem|
  {
    s'.mem[c].appender.Some? ==>
      || (s'.mem[c].appender == Some(t) && ChildOf(s'.threads[t], c))
      || (c < |s.mem| && s.mem[c].appender == s'.mem[c].appender && s.mem[c].appender != Some(t))
  }

  ghost predicate OnlyThread(s: State, s': State, t: nat) {
    && t < |s.threads| == |s'.threads|
    && forall u :: 0 <= u < |s.threads| && u != t ==> s'.threads[u] == s.threads[u]
  }

  /** The frame of the induction step: what t has to show for the whole invariant to hold again. */
  lemma Frame(s: State, s': State, t: nat)
    requires Inv(s) && OnlyThread(s, s', t) && Shape(s') && Rely(s, s', t)
    requires ThreadOk(s', t, s'.threads[t])
    requires forall c :: 0 <= c < |s'.mem| ==> OwnerStep(s, s', t, c)
    ensures Inv(s')
  {
    hide Shape, Rely, ThreadOk;
    forall u | 0 <= u < |s'.threads| ensures ThreadOk(s', u, s'.threads[u]) {
      if u != t {
        assert ThreadOk(s, u, s.threads[u]);
        OthersKeep(s, s', t, u, s.threads[u]);
      }
    }
    forall c | 0 <= c < |s'.mem| ensures Owed(s', c) {
      assert OwnerStep(s, s', t, c);
      assert c < |s.mem| ==> Owed(s, c);
    }
  }

  /** A thread that owes no child is nobody's owner. */
  lemma OwnersStay(s: State, s': State, t: nat)
    requires Inv(s) && OnlyThread(s, s', t) && |s'.mem| == |s.mem|
    requires !s.threads[t].InsChild? && !s.threads[t].InsChildCount?
    requires forall c :: 0 <= c < |s.mem| ==> s'.mem[c].appender == s.mem[c].appender
    ensures forall c :: 0 <= c < |s'.mem| ==> OwnerStep(s, s', t, c)
  {
    hide Shape, ThreadOk;
    forall c | 0 <= c < |s'.mem| ensures OwnerStep(s, s', t, c) {
      assert Owed(s, c);
    }
  }

  // ---------------------------------------------------------------------------
  // Steps that leave the shared memory alone
  // ---------------------------------------------------------------------------

  lemma SameMemory(s: State, s': State, t: nat)
    requires Inv(s) && s'.tree == s.tree && s'.mem == s.mem
    ensures Shape(s') && Rely(s, s', t)
  {
    forall n | 0 <= n < |s'.mem| ensures MemOk(s', n) && NodeRely(s, s', t, n) {
      assert MemOk(s, n);
      assert s.tree[n].keys == s.tree[n].keys[..|s.tree[n].keys|];
      assert TreeOk(s.tree) && NodeOk(s.tree, n);
    }
    assert Shape(s');
  }

  lemma MovedKeeps(s: State, s': State, t: nat, th: Thread)
    requires Inv(s) && t < |s.threads| && Moved(s, s', t, th)
    requires !s.threads[t].InsChild? && !s.threads[t].InsChildCount? && ThreadOk(s, t, th)
    ensures Inv(s')
  {
    SameMemory(s, s', t);
    OwnersStay(s, s', t);
    assert ThreadOk(s', t, th);
    Frame(s, s', t);
  }

  lemma DescendKeeps(s: State, s': State, t: nat)
    requires Inv(s) && WellSized(s) && t < |s.threads| && Descend(s, s', t)
    ensures Inv(s')
  {
    var k, n := s.threads[t].k, s.threads[t].n;
    assert ThreadOk(s, t, s.threads[t]);
    var th := s'.threads[t];
    if s.tree[n].Inner? {
      if k <= s.tree[n].keys[0] {
        assert s.tree[n].keys[0] in s.tree[n].keys;
        assert k in Keys(s.tree);
      } else {
        NextOnPath(s.tree, n, k);
      }
    }
    assert ThreadOk(s, t, th);
    MovedKeeps(s, s', t, th);
  }

  lemma BeginKeeps(s: State, s': State, t: nat, k: int, n: nat)
    requires Inv(s) && WellSized(s) && t < |s.threads|
    requires BeginInsert(s, s', t, k, n) || BeginLookup(s, s', t, k, n)
    ensures Inv(s')
  {
    assert ThreadOk(s, t, s'.threads[t]);
    MovedKeeps(s, s', t, s'.threads[t]);
  }

  lemma ReadDownKeeps(s: State, s': State, t: nat)
    requires Inv(s) && WellSized(s) && t < |s.threads| && ReadDown(s, s', t)
    ensures Inv(s')
  {
    var k, n, start := s.threads[t].k, s.threads[t].n, s.threads[t].start;
    assert ThreadOk(s, t, s.threads[t]);
    if s.tree[n].Leaf? {
      assert LeafOf(s.tree, 0, k) == n;
      assert k in start ==> Member(s.tree, k);
      assert SawLeaf(s, k, n, start);
    } else {
      NextOnPath(s.tree, n, k);
    }
    assert ThreadOk(s, t, s'.threads[t]);
    MovedKeeps(s, s', t, s'.threads[t]);
  }

  lemma ReadVersionKeeps(s: State, s': State, t: nat)
    requires Inv(s) && WellSized(s) && t < |s.threads| && ReadVersion(s, s', t)
    ensures Inv(s')
  {
    hide Valid, TreeOk, OnPath, Keys, NodeOk;
    assert ThreadOk(s, t, s.threads[t]);
    assert ThreadOk(s, t, s'.threads[t]);
    MovedKeeps(s, s', t, s'.threads[t]);
  }

  lemma ReadCountKeeps(s: State, s': State, t: nat)
    requires Inv(s) && WellSized(s) && t < |s.threads| && ReadCount(s, s', t)
    ensures Inv(s')
  {
    var th := s.threads[t];
    assert ThreadOk(s, t, th);
    assert MemOk(s, th.n);
    var keys := s.tree[th.n].keys;
    assert keys == keys[..|keys|];
    assert s.mem[th.n].count > 0 ==> Searching(keys, keys, th.k, th.start, 0, |keys|);
    assert ThreadOk(s, t, s'.threads[t]);
    MovedKeeps(s, s', t, s'.threads[t]);
  }

  /** One probe of a strictly increasing snapshot narrows the search. */
  lemma ProbeNarrows(keys: seq<int>, snap: seq<int>, k: int, start: iset<int>, lower: nat, upper: nat, mid: nat)
    requires Strict(keys) && Searching(keys, snap, k, start, lower, upper) && lower <= mid < upper
    ensures snap[mid] == keys[mid]
    ensures k < keys[mid] ==> Searching(keys, snap, k, start, lower, mid)
    ensures k > keys[mid] ==> Searching(keys, snap, k, start, mid + 1, upper)
  {
    assert forall j :: 0 <= j < |snap| ==> snap[j] == keys[j];
  }

  lemma SearchedOut(keys: seq<int>, snap: seq<int>, k: int, start: iset<int>, lower: nat)
    requires Searching(keys, snap, k, start, lower, lower)
    ensures k !in start
  {
  }

  lemma QuietWords(s: State, n: nat, v: nat)
    requires Shape(s) && n < |s.mem| && Quiet(s, n, v)
    ensures s.mem[n].count == |s.tree[n].keys| && Strict(s.tree[n].keys) && |s.mem[n].words| == CHILD_NUM
    ensures forall j :: 0 <= j < s.mem[n].count ==> j < |s.mem[n].words| && s.mem[n].words[j] == s.tree[n].keys[j]
  {
    assert MemOk(s, n) && NodeOk(s.tree, n);
    var m := s.mem[n];
    assert forall j :: 0 <= j < m.count ==> m.words[j] == m.words[..m.count][j];
  }

  lemma ProbeKeeps(s: State, s': State, t: nat)
    requires Inv(s) && WellSized(s) && t < |s.threads| && Probe(s, s', t)
    ensures Inv(s')
  {
    hide Valid, TreeOk, OnPath, Keys, NodeOk, MemOk, Strict;
    var th := s.threads[t];
    assert ThreadOk(s, t, th);
    var keys := s.tree[th.n].keys;
    var mid := (th.upper - th.lower) / 2 + th.lower;
    if Quiet(s, th.n, th.v) {
      QuietWords(s, th.n, th.v);
      ProbeNarrows(keys, th.snap, th.k, th.start, th.lower, th.upper, mid);
      assert s.mem[th.n].words[mid] == keys[mid];
      if th.k < keys[mid] && th.lower == mid { SearchedOut(keys, th.snap, th.k, th.start, mid); }
      if th.k > keys[mid] && mid + 1 == th.upper { SearchedOut(keys, th.snap, th.k, th.start, mid + 1); }
    }
    assert ThreadOk(s, t, s'.threads[t]);
    MovedKeeps(s, s', t, s'.threads[t]);
  }

  lemma ConfirmKeeps(s: State, s': State, t: nat)
    requires Inv(s) && WellSized(s) && t < |s.threads| && Confirm(s, s', t)
    ensures Inv(s')
  {
    hide Valid, TreeOk, OnPath, Keys, NodeOk, MemOk, Strict;
    var th := s.threads[t];
    assert ThreadOk(s, t, th);
    if Quiet(s, th.n, th.v) { QuietWords(s, th.n, th.v); }
    assert ThreadOk(s, t, s'.threads[t]);
    MovedKeeps(s, s', t, s'.threads[t]);
  }

  lemma CheckVersionKeeps(s: State, s': State, t: nat)
    requires Inv(s) && WellSized(s) && t < |s.threads| && CheckVersion(s, s', t)
    ensures Inv(s')
  {
    hide Valid, TreeOk, OnPath, NodeOk, MemOk, Strict;
    var th := s.threads[t];
    assert ThreadOk(s, t, th);
    assert th.k in s.tree[th.n].keys ==> th.k in Keys(s.tree);
    assert ThreadOk(s, t, s'.threads[t]);
    MovedKeeps(s, s', t, s'.threads[t]);
  }

  // ---------------------------------------------------------------------------
  // Steps that change one node's memory and no key
  // ---------------------------------------------------------------------------

  ghost predicate Harmless(s: State, t: nat, n: nat, m': Mem)
    requires n < |s.mem| == |s.tree|
  {
    var m := s.mem[n];
    && |m'.words| == CHILD_NUM && m'.count == m.count <= CHILD_NUM && m.version <= m'.version
    && (!m'.dirty ==> m'.words[..m.count] == s.tree[n].keys)
    && (m'.dirty ==> m'.holder.Some? && s.tree[n].Leaf?)
    && (m'.appender.Some? ==> m'.holder.None? && s.tree[n].Leaf? && m'.count == 1)
    && (m'.holder.None? && m'.version == m.version ==> m.holder.None?)
    && (m.holder.Some? ==> m.holder == Some(t))
    && (m.appender.Some? ==> m.appender == Some(t))
  }

  lemma MemStep(s: State, s': State, t: nat, n: nat, m': Mem)
    requires Inv(s) && n < |s.mem| && Harmless(s, t, n, m') && s'.tree == s.tree && s'.mem == s.mem[n := m']
    ensures Shape(s') && Rely(s, s', t)
  {
    forall c | 0 <= c < |s'.mem| ensures MemOk(s', c) && NodeRely(s, s', t, c) {
      assert MemOk(s, c);
      assert s.tree[c].keys == s.tree[c].keys[..|s.tree[c].keys|];
      assert TreeOk(s.tree) && NodeOk(s.tree, c);
    }
    assert Shape(s');
  }

  lemma LockKeeps(s: State, s': State, t: nat)
    requires Inv(s) && WellSized(s) && t < |s.threads| && Lock(s, s', t, true)
    ensures Inv(s')
  {
    var n := s.threads[t].n;
    assert ThreadOk(s, t, s.threads[t]) && MemOk(s, n);
    MemStep(s, s', t, n, s'.mem[n]);
    assert ThreadOk(s', t, s'.threads[t]);
    OwnersStay(s, s', t);
    Frame(s, s', t);
  }

  lemma RecheckKeeps(s: State, s': State, t: nat)
    requires Inv(s) && WellSized(s) && t < |s.threads| && Recheck(s, s', t)
    ensures Inv(s')
  {
    hide Valid, TreeOk, OnPath, NodeOk, Strict;
    var k, n := s.threads[t].k, s.threads[t].n;
    assert ThreadOk(s, t, s.threads[t]) && MemOk(s, n);
    assert k in s.tree[n].keys ==> k in Keys(s.tree);
    if s.tree[n].Leaf? && k !in s.mem[n].words[..s.mem[n].count] {
      MemStep(s, s', t, n, s'.mem[n]);
      assert ThreadOk(s', t, s'.threads[t]);
      OwnersStay(s, s', t);
      Frame(s, s', t);
    } else {
      assert ThreadOk(s, t, s'.threads[t]);
      MovedKeeps(s, s', t, s'.threads[t]);
    }
  }

  lemma ScribbleKeeps(s: State, s': State, t: nat, words: seq<int>)
    requires Inv(s) && WellSized(s) && t < |s.threads| && Scribble(s, s', t, words)
    ensures Inv(s')
  {
    hide Valid, TreeOk, OnPath, NodeOk, Strict, Keys;
    var n := s.threads[t].n;
    assert ThreadOk(s, t, s.threads[t]) && MemOk(s, n);
    MemStep(s, s', t, n, s'.mem[n]);
    assert ThreadOk(s', t, s'.threads[t]);
    OwnersStay(s, s', t);
    Frame(s, s', t);
  }

  lemma ReleaseKeeps(s: State, s': State, t: nat)
    requires Inv(s) && WellSized(s) && t < |s.threads| && Release(s, s', t)
    ensures Inv(s')
  {
    hide Valid, TreeOk, OnPath, NodeOk, Strict, Keys;
    var n := s.threads[t].n;
    assert ThreadOk(s, t, s.threads[t]) && MemOk(s, n);
    MemStep(s, s', t, n, s'.mem[n]);
    assert ThreadOk(s', t, s'.threads[t]);
    OwnersStay(s, s', t);
    Frame(s, s', t);
  }

  lemma ChildWriteKeeps(s: State, s': State, t: nat)
    requires Inv(s) && WellSized(s) && t < |s.threads| && ChildWrite(s, s', t)
    ensures Inv(s')
  {
    hide Valid, TreeOk, OnPath, NodeOk, Strict, Keys;
    var k, n, c := s.threads[t].k, s.threads[t].n, s.threads[t].c;
    assert ThreadOk(s, t, s.threads[t]) && MemOk(s, c);
    var w := s.mem[c].words;
    assert w[..1] == [w[0]] && s.tree[c].keys == [w[0]];
    assert AtMost(w[..1], k) == 1;
    assert s'.mem[c].words == w[..1] + [k] + w[1..1] + w[2..];
    assert s'.mem[c].words[..1] == w[..1];
    MemStep(s, s', t, c, s'.mem[c]);
    assert s'.mem[n] == s.mem[n];
    assert ThreadOk(s', t, s'.threads[t]);
    forall d | 0 <= d < |s'.mem| ensures OwnerStep(s, s', t, d) {
      assert Owed(s, d);
    }
    Frame(s, s', t);
  }

  // ---------------------------------------------------------------------------
  // Steps that change the tree
  // ---------------------------------------------------------------------------

  /** A key written into a leaf of its descent: the tree and every path stay. */
  lemma PutStep(s: State, s': State, t: nat, n: nat, k: int, m': Mem)
    requires Inv(s) && n < |s.tree| && s.tree[n].Leaf? && |s.tree[n].keys| < CHILD_NUM
    requires s.tree[n].keys[0] <= k && k !in s.tree[n].keys && s.tree[0].keys[0] <= k
    requires k in Keys(s.tree) || OnPath(s.tree, n, k)
    requires s'.tree == PutKey(s.tree, n, k) && s'.mem == s.mem[n := m']
    requires |m'.words| == CHILD_NUM && m'.count == |s.tree[n].keys| + 1 && m'.version == s.mem[n].version
    requires !m'.dirty && m'.words[..m'.count] == InsertSorted(s.tree[n].keys, k)
    requires m'.appender.None? && m'.holder == s.mem[n].holder
    requires s.mem[n].appender.Some? ==> s.mem[n].appender == Some(t) && k > s.tree[n].keys[0]
    requires s.mem[n].appender.None? ==> s.mem[n].holder == Some(t)
    ensures Shape(s') && Rely(s, s', t) && Keys(s'.tree) == Keys(s.tree) + iset{k}
  {
    PutKeyFacts(s.tree, n, k);
    PutKeyKeepsValid(s.tree, n, k);
    PutRely(s, s', t, n, k, m');
    assert Shape(s') by {
      forall c | 0 <= c < |s'.mem| ensures MemOk(s', c) { assert MemOk(s, c); }
    }
    forall c, x | OnPath(s.tree, c, x) ensures OnPath(s'.tree, c, x) {
      SameShapeSameLeaf(s.tree, s'.tree, 0, x);
      SameShapeSameLeaf(s.tree, s'.tree, c, x);
    }
  }

  lemma PutRely(s: State, s': State, t: nat, n: nat, k: int, m': Mem)
    requires Inv(s) && n < |s.tree| && s.tree[n].Leaf? && |s.tree[n].keys| < CHILD_NUM
    requires s.tree[n].keys[0] <= k && k !in s.tree[n].keys
    requires s'.tree == PutKey(s.tree, n, k) && s'.mem == s.mem[n := m']
    requires m'.version == s.mem[n].version && m'.holder == s.mem[n].holder
    requires s.mem[n].appender.Some? ==> s.mem[n].appender == Some(t) && k > s.tree[n].keys[0]
    requires s.mem[n].appender.None? ==> s.mem[n].holder == Some(t)
    ensures forall c :: 0 <= c < |s.tree| ==> NodeRely(s, s', t, c)
  {
    var a := s.tree[n].keys;
    assert NodeOk(s.tree, n) && MemOk(s, n);
    InsertSortedFacts(a, k);
    if s.mem[n].appender.Some? {
      assert |a| == 1 && AtMost(a, k) == 1;
      assert InsertSorted(a, k)[..1] == a;
    }
    forall c | 0 <= c < |s.tree| ensures NodeRely(s, s', t, c) {
      assert MemOk(s, c);
      assert s.tree[c].keys == s.tree[c].keys[..|s.tree[c].keys|];
      assert TreeOk(s.tree) && NodeOk(s.tree, c);
    }
  }

  lemma ShiftedIsInsertSorted(orig: seq<int>, cnt: nat, k: int)
    requires cnt < |orig|
    ensures Shifted(orig, cnt, k)[..cnt + 1] == InsertSorted(orig[..cnt], k)
  {
    var pos := AtMost(orig[..cnt], k);
    assert orig[..cnt][..pos] == orig[..pos] && orig[..cnt][pos..] == orig[pos..cnt];
  }

  lemma FinishKeeps(s: State, s': State, t: nat)
    requires Inv(s) && WellSized(s) && t < |s.threads| && Finish(s, s', t)
    ensures Inv(s') && Rely(s, s', t) && Keys(s'.tree) == Keys(s.tree) + iset{s.threads[t].k}
  {
    hide Valid, Routed, NodeOk, Strict, NodeRely, Rely;
    var th := s.threads[t];
    var k, n := th.k, th.n;
    assert ThreadOk(s, t, th) && MemOk(s, n);
    ShiftedIsInsertSorted(th.orig, th.cnt, k);
    PutStep(s, s', t, n, k, s'.mem[n]);
    assert ThreadOk(s', t, s'.threads[t]);
    OwnersStay(s, s', t);
    Frame(s, s', t);
  }

  lemma ChildCountKeeps(s: State, s': State, t: nat)
    requires Inv(s) && WellSized(s) && t < |s.threads| && ChildCount(s, s', t)
    ensures Inv(s') && Rely(s, s', t) && Keys(s'.tree) == Keys(s.tree) + iset{s.threads[t].k}
  {
    hide Valid, Routed, NodeOk, Strict, NodeRely, Rely;
    var k, n, c := s.threads[t].k, s.threads[t].n, s.threads[t].c;
    assert ThreadOk(s, t, s.threads[t]) && MemOk(s, c);
    var keys, w := s.tree[c].keys, s.mem[c].words;
    assert w[..1] == [w[0]] && AtMost(keys, k) == 1;
    assert w[..2] == InsertSorted(keys, k);
    PutStep(s, s', t, c, k, s'.mem[c]);
    assert s'.mem[n] == s.mem[n];
    assert ThreadOk(s', t, s'.threads[t]);
    forall d | 0 <= d < |s'.mem| ensures OwnerStep(s, s', t, d) {
      assert Owed(s, d);
    }
    Frame(s, s', t);
  }

  /** The child that the splitter picks is the one the descent for its key reaches. */
  lemma PickedChild(t: Tree, n: nat, k: int, i: nat)
    requires TreeOk(t) && n < |t| && t[n].Leaf? && |t[n].keys| == CHILD_NUM && OnPath(t, n, k)
    requires k > t[n].keys[0] && k !in t[n].keys && InsertChild(t[n].keys, k, i)
    ensures TreeOk(Split(t, n)) && OnPath(Split(t, n), |t| + i, k)
  {
    var keys := t[n].keys;
    assert NodeOk(t, n);
    SplitFacts(t, n);
    SplitLeafOf(t, n, 0, k);
    assert forall j :: i < j < |keys| ==> keys[j] > k;
    AtMostUnique(keys, k, i + 1);
    assert Split(t, n)[|t| + i] == Leaf([keys[i]]);
  }

  lemma PublishRely(s: State, s': State, t: nat, i: nat, kidMem: seq<Mem>)
    requires Inv(s) && WellSized(s) && t < |s.threads| && Publish(s, s', t, i, kidMem)
    ensures Shape(s') && Rely(s, s', t) && Keys(s'.tree) == Keys(s.tree)
  {
    hide Routed, Strict;
    var n := s.threads[t].n;
    assert ThreadOk(s, t, s.threads[t]);
    SplitKeepsValid(s.tree, n);
    SplitFacts(s.tree, n);
    forall c | 0 <= c < |s.tree| ensures NodeRely(s, s', t, c) && MemOk(s', c) {
      assert MemOk(s, c) && NodeOk(s.tree, c);
      assert s.tree[c].keys == s.tree[c].keys[..|s.tree[c].keys|];
    }
    forall c | |s.tree| <= c < |s'.mem| ensures MemOk(s', c) {
      var j := c - |s.tree|;
      assert s'.mem[c] == kidMem[j] && s'.tree[c] == Leaf([s.tree[n].keys[j]]);
      assert kidMem[j].words[..1] == [kidMem[j].words[0]];
    }
    assert Shape(s');
    forall c, x | OnPath(s.tree, c, x) ensures OnPath(s'.tree, c, x) {
      SplitPath(s.tree, n, c, x);
    }
  }

  lemma PublishKeeps(s: State, s': State, t: nat, i: nat, kidMem: seq<Mem>)
    requires Inv(s) && WellSized(s) && t < |s.threads| && Publish(s, s', t, i, kidMem)
    ensures Inv(s')
  {
    hide Valid, Routed, NodeOk, Strict, NodeRely, Rely, Split, LeafOf;
    var k, n := s.threads[t].k, s.threads[t].n;
    var keys := s.tree[n].keys;
    assert ThreadOk(s, t, s.threads[t]);
    PublishRely(s, s', t, i, kidMem);
    assert k in keys ==> k in Keys(s.tree);
    if k > keys[0] && k !in keys { PickedChild(s.tree, n, k, i); }
    PublishThread(s, s', t, i, kidMem);
    forall d | 0 <= d < |s'.mem| ensures OwnerStep(s, s', t, d) {
      if d < |s.mem| { assert Owed(s, d); } else { assert s'.mem[d] == kidMem[d - |s.mem|]; }
    }
    Frame(s, s', t);
  }

  lemma PublishThread(s: State, s': State, t: nat, i: nat, kidMem: seq<Mem>)
    requires Inv(s) && WellSized(s) && t < |s.threads| && Publish(s, s', t, i, kidMem) && Shape(s')
    requires var th := s.threads[t]; OnPath(s.tree, th.n, th.k) && Keys(s'.tree) == Keys(s.tree)
    requires var th := s.threads[t]; th.k in s.tree[th.n].keys ==> th.k in Keys(s.tree)
    requires var th := s.threads[t];
      th.k > s.tree[th.n].keys[0] && th.k !in s.tree[th.n].keys ==> OnPath(s'.tree, |s.tree| + i, th.k)
    ensures ThreadOk(s', t, s'.threads[t])
  {
    hide Valid, Routed, NodeOk, Strict, Keys, LeafOf, AtMost, Shifted, Next, KidIds, Children;
    var k, n := s.threads[t].k, s.threads[t].n;
    var keys := s.tree[n].keys;
    assert ThreadOk(s, t, s.threads[t]) && MemOk(s, n);
    assert s'.tree == Split(s.tree, n) && s'.mem[n] == s.mem[n];
    assert s'.tree[0].keys[0] == s.tree[0].keys[0];
    if k > keys[0] {
      var c := |s.tree| + i;
      assert s'.mem[c] == kidMem[i] && s'.tree[c] == Leaf([keys[i]]);
      assert Owes(s', t, k, n, c);
    } else {
      assert k == keys[0] && keys[0] in keys;
    }
  }
}
