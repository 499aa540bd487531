/** What every reachable state of the concurrent overflow tree satisfies. */
module OverflowInvariant {
  import opened OverflowTree
  import opened OverflowConcurrent

  // ---------------------------------------------------------------------------
  // The invariant
  // ---------------------------------------------------------------------------

  ghost predicate MemOk(s: State, n: nat)
    requires n < |s.tree| == |s.mem|
  {
    var m := s.mem[n];
    && |m.words| == CHILD_NUM && m.count == |s.tree[n].keys| <= CHILD_NUM
    && (!m.dirty ==> m.words[..m.count] == s.tree[n].keys)
    && (m.dirty ==> m.holder.Some? && s.tree[n].Leaf?)
    && (m.appender.Some? ==> m.holder.None? && s.tree[n].Leaf? && m.count == 1)
  }

  ghost predicate Shape(s: State) {
    && Valid(s.tree) && |s.mem| == |s.tree|
    && forall n :: 0 <= n < |s.mem| ==> MemOk(s, n)
  }

  ghost predicate Holds(s: State, t: nat, n: nat, dirty: bool) {
    n < |s.mem| && s.mem[n].holder == Some(t) && s.mem[n].dirty == dirty
  }

  /** t is the splitter that still owes child c its key. */
  ghost predicate Owes(s: State, t: nat, k: int, n: nat, c: nat)
    requires Shape(s)
  {
    && Holds(s, t, n, false) && c < |s.mem| && c != n && s.mem[c].appender == Some(t) && |s.mem[c].words| == CHILD_NUM
    && s.tree[c].Leaf? && |s.tree[c].keys| == 1 && s.tree[c].keys[0] < k && s.tree[0].keys[0] <= k
    && (k in Keys(s.tree) || OnPath(s.tree, c, k))
  }

  /** The reader saw n as a leaf of k's descent after it started. */
  ghost predicate SawLeaf(s: State, k: int, n: nat, start: iset<int>)
    requires Shape(s)
  {
    n < |s.tree| && OnPath(s.tree, n, k) && start <= Keys(s.tree) && (k in start ==> k in s.tree[n].keys)
  }

  ghost predicate Searching(keys: seq<int>, snap: seq<int>, k: int, start: iset<int>, lower: nat, upper: nat) {
    && |snap| <= |keys| && snap == keys[..|snap|]
    && (k in start ==> k in snap)
    && lower <= upper <= |snap|
    && (forall j :: 0 <= j < lower ==> snap[j] < k)
    && (forall j :: upper <= j < |snap| ==> snap[j] > k)
  }

  ghost predicate ThreadOk(s: State, t: nat, th: Thread)
    requires Shape(s)
  {
    match th
    case Idle => true
    case InsDescend(k, n) => OnPath(s.tree, n, k)
    case InsWantLock(k, n) => OnPath(s.tree, n, k)
    case InsLocked(k, n) => OnPath(s.tree, n, k) && Holds(s, t, n, false)
    case InsRetry(k, n) => OnPath(s.tree, n, k) && Holds(s, t, n, false)
    case InsWriting(k, n, orig, cnt) =>
      && OnPath(s.tree, n, k) && Holds(s, t, n, true) && s.tree[n].Leaf?
      && cnt == |s.tree[n].keys| < |orig| == CHILD_NUM && orig[..cnt] == s.tree[n].keys && k !in s.tree[n].keys
    case InsChild(k, n, c) => Owes(s, t, k, n, c)
    case InsChildCount(k, n, c) => Owes(s, t, k, n, c) && s.mem[c].words[1] == k
    case InsRelease(k, n) => Holds(s, t, n, false) && k in Keys(s.tree)
    case InsDone(k) => k in Keys(s.tree)
    case RdDescend(k, n, start) => OnPath(s.tree, n, k) && start <= Keys(s.tree)
    case RdVersion(k, n, start) => SawLeaf(s, k, n, start)
    case RdCount(k, n, start, v) => SawLeaf(s, k, n, start) && v <= s.mem[n].version
    case RdSearch(k, n, start, v, lower, upper, snap) =>
      && SawLeaf(s, k, n, start) && v <= s.mem[n].version && lower < upper <= CHILD_NUM
      && (Quiet(s, n, v) ==> Searching(s.tree[n].keys, snap, k, start, lower, upper))
    case RdConfirm(k, n, start, v, pos) =>
      && SawLeaf(s, k, n, start) && v <= s.mem[n].version
      && (Quiet(s, n, v) && k in start ==> pos < |s.tree[n].keys| && s.tree[n].keys[pos] == k)
    case RdCheck(k, n, start, v, res) =>
      && SawLeaf(s, k, n, start) && v <= s.mem[n].version
      && (Quiet(s, n, v) ==> (k in start ==> res) && (res ==> k in s.tree[n].keys))
    case RdDone(k, start, res) => (k in start ==> res) && (res ==> k in Keys(s.tree))
  }

  /** An unfinished child belongs to a thread that is about to finish it. */
  ghost predicate Owed(s: State, c: nat)
    requires c < |s.mem|
  {
    s.mem[c].appender.Some? ==>
      var u := s.mem[c].appender.value;
      u < |s.threads| && (s.threads[u].InsChild? || s.threads[u].InsChildCount?) && s.threads[u].c == c
  }

  ghost predicate Inv(s: State) {
    && Shape(s)
    && (forall t :: 0 <= t < |s.threads| ==> ThreadOk(s, t, s.threads[t]))
    && (forall c :: 0 <= c < |s.mem| ==> Owed(s, c))
  }

  // ---------------------------------------------------------------------------
  // What a step of thread t leaves to the others
  // ---------------------------------------------------------------------------

  ghost predicate NodeRely(s: State, s': State, t: nat, n: nat)
    requires n < |s.tree| == |s.mem| && n < |s'.tree| == |s'.mem|
  {
    var a, b, m, m' := s.tree[n], s'.tree[n], s.mem[n], s'.mem[n];
    && |a.keys| > 0 && |b.keys| > 0 && b.keys[0] == a.keys[0]
    && (forall x :: x in a.keys ==> x in b.keys)
    && (a.Inner? ==> b == a)
    && m.version <= m'.version
    && (m'.holder.None? && m'.version == m.version ==>
          m.holder.None? && |a.keys| <= |b.keys| && a.keys == b.keys[..|a.keys|])
    && (m.holder.Some? && m.holder != Some(t) ==> m'.holder == m.holder && m'.dirty == m.dirty && b == a)
    && (m.appender.Some? && m.appender != Some(t) ==> m' == m && b == a)
  }

  ghost predicate Rely(s: State, s': State, t: nat)
    requires Shape(s) && Shape(s')
  {
    && |s.tree| <= |s'.tree|
    && (forall n :: 0 <= n < |s.tree| ==> NodeRely(s, s', t, n))
    && Keys(s.tree) <= Keys(s'.tree)
    && (forall n, k :: OnPath(s.tree, n, k) ==> OnPath(s'.tree, n, k))
  }

  lemma OwesKept(s: State, s': State, t: nat, u: nat, k: int, n: nat, c: nat)
    requires Shape(s) && Shape(s') && Rely(s, s', t) && u != t && Owes(s, u, k, n, c)
    ensures Owes(s', u, k, n, c) && s'.mem[c] == s.mem[c]
  {
    hide Valid, TreeOk, OnPath, Keys, MemOk;
    assert NodeRely(s, s', t, n) && NodeRely(s, s', t, c) && NodeRely(s, s', t, 0);
  }

  /** A step that other threads may rely on keeps what they know. */
  lemma OthersKeep(s: State, s': State, t: nat, u: nat, th: Thread)
    requires Shape(s) && Shape(s') && Rely(s, s', t) && u != t && ThreadOk(s, u, th)
    ensures ThreadOk(s', u, th)
  {
    hide Valid, TreeOk, OnPath, Keys, Owes;
    match th
    case InsLocked(k, n) => assert NodeRely(s, s', t, n);
    case InsRetry(k, n) => assert NodeRely(s, s', t, n);
    case InsWriting(k, n, orig, cnt) => assert NodeRely(s, s', t, n);
    case InsChild(k, n, c) => OwesKept(s, s', t, u, k, n, c);
    case InsChildCount(k, n, c) => OwesKept(s, s', t, u, k, n, c);
    case InsRelease(k, n) => assert NodeRely(s, s', t, n);
    case RdVersion(k, n, start) => assert NodeRely(s, s', t, n);
    case RdCount(k, n, start, v) => assert NodeRely(s, s', t, n);
    case RdSearch(k, n, start, v, lower, upper, snap) => assert NodeRely(s, s', t, n);
    case RdConfirm(k, n, start, v, pos) => assert NodeRely(s, s', t, n);
    case RdCheck(k, n, start, v, res) => assert NodeRely(s, s', t, n);
    case _ =>
  }
}
