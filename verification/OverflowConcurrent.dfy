/** The overflow tree under any interleaving of inserters and optimistic readers.
    Every step below is one access to shared memory, or several that no other thread can tell
    apart from one: a leaf being rewritten under its lock shows arbitrary words in between, and
    the fields that a split leaves fixed are read in one go. */
module OverflowConcurrent {
  import opened OverflowTree

  datatype Option<+T> = None | Some(value: T)

  /** A node's memory: the key words, the count, and the lock word as version and holder.
      `appender` names the splitter that is still to put its key into this new child. */
  datatype Mem = Mem(words: seq<int>, count: nat, version: nat, holder: Option<nat>, appender: Option<nat>, dirty: bool)

  /** Where a thread is. k is the key, n the node; readers carry the keys that were in the tree
      when they started, and what the leaf held when they read its count. */
  datatype Thread =
    | Idle
    | InsDescend(k: int, n: nat)
    | InsWantLock(k: int, n: nat)
    | InsLocked(k: int, n: nat)
    | InsRetry(k: int, n: nat)
    | InsWriting(k: int, n: nat, orig: seq<int>, cnt: nat)
    | InsChild(k: int, n: nat, c: nat)
    | InsChildCount(k: int, n: nat, c: nat)
    | InsRelease(k: int, n: nat)
    | InsDone(k: int)
    | RdDescend(k: int, n: nat, start: iset<int>)
    | RdVersion(k: int, n: nat, start: iset<int>)
    | RdCount(k: int, n: nat, start: iset<int>, v: nat)
    | RdSearch(k: int, n: nat, start: iset<int>, v: nat, lower: nat, upper: nat, snap: seq<int>)
    | RdConfirm(k: int, n: nat, start: iset<int>, v: nat, pos: nat)
    | RdCheck(k: int, n: nat, start: iset<int>, v: nat, res: bool)
    | RdDone(k: int, start: iset<int>, res: bool)

  datatype State = State(tree: Tree, mem: seq<Mem>, threads: seq<Thread>)

  predicate Inserting(th: Thread) {
    th.InsDescend? || th.InsWantLock? || th.InsLocked? || th.InsRetry? || th.InsWriting? || th.InsChild?
    || th.InsChildCount? || th.InsRelease?
  }

  predicate Resting(th: Thread) { th.Idle? || th.InsDone? || th.RdDone? }

  ghost predicate WellSized(s: State) {
    && TreeOk(s.tree) && |s.mem| == |s.tree|
    && forall n :: 0 <= n < |s.mem| ==> |s.mem[n].words| == CHILD_NUM && s.mem[n].count <= CHILD_NUM
  }

  /** The words of a leaf after its new key has been shifted in. */
  function Shifted(words: seq<int>, cnt: nat, k: int): (r: seq<int>)
    requires cnt < |words|
    ensures |r| == |words|
  {
    var pos := AtMost(words[..cnt], k);
    words[..pos] + [k] + words[pos..cnt] + words[cnt + 1..]
  }

  // ---------------------------------------------------------------------------
  // Steps
  // ---------------------------------------------------------------------------

  ghost predicate Moved(s: State, s': State, t: nat, th: Thread)
    requires t < |s.threads|
  {
    s' == s.(threads := s.threads[t := th])
  }

  ghost predicate MemMoved(s: State, s': State, t: nat, th: Thread, n: nat, m: Mem)
    requires t < |s.threads| && n < |s.mem|
  {
    s' == s.(mem := s.mem[n := m], threads := s.threads[t := th])
  }

  /** An operation starts at the root, or at a node that a search of an older frontier named. */
  ghost predicate BeginInsert(s: State, s': State, t: nat, k: int, n: nat)
    requires WellSized(s) && t < |s.threads|
  {
    Resting(s.threads[t]) && OnPath(s.tree, n, k) && Moved(s, s', t, InsDescend(k, n))
  }

  ghost predicate BeginLookup(s: State, s': State, t: nat, k: int, n: nat)
    requires WellSized(s) && t < |s.threads|
  {
    Resting(s.threads[t]) && OnPath(s.tree, n, k) && Moved(s, s', t, RdDescend(k, n, Keys(s.tree)))
  }

  ghost predicate Descend(s: State, s': State, t: nat)
    requires WellSized(s) && t < |s.threads|
  {
    && s.threads[t].InsDescend?
    && var k, n := s.threads[t].k, s.threads[t].n;
    && n < |s.tree|
    && if s.tree[n].Leaf? then Moved(s, s', t, InsWantLock(k, n))
       else if k <= s.tree[n].keys[0] then Moved(s, s', t, InsDone(k))
       else Moved(s, s', t, InsDescend(k, Next(s.tree, n, k)))
  }

  /** With `guarded`, nobody locks a child that its splitter has not finished. */
  ghost predicate Lock(s: State, s': State, t: nat, guarded: bool)
    requires WellSized(s) && t < |s.threads|
  {
    && s.threads[t].InsWantLock?
    && var k, n := s.threads[t].k, s.threads[t].n;
    && n < |s.tree| && s.mem[n].holder.None? && (guarded ==> s.mem[n].appender.None?)
    && MemMoved(s, s', t, InsLocked(k, n), n, s.mem[n].(holder := Some(t)))
  }

  /** The type test under the lock, and what follows for a leaf that is not full. */
  ghost predicate Recheck(s: State, s': State, t: nat)
    requires WellSized(s) && t < |s.threads|
  {
    && s.threads[t].InsLocked?
    && var k, n := s.threads[t].k, s.threads[t].n;
    && n < |s.tree|
    && if s.tree[n].Inner? then Moved(s, s', t, InsRetry(k, n))
       else
         var m := s.mem[n];
         && m.count < CHILD_NUM
         && if k in m.words[..m.count] then Moved(s, s', t, InsRelease(k, n))
            else MemMoved(s, s', t, InsWriting(k, n, m.words, m.count), n, m.(dirty := true))
  }

  /** While the leaf is rewritten its words can be anything. */
  ghost predicate Scribble(s: State, s': State, t: nat, words: seq<int>)
    requires WellSized(s) && t < |s.threads|
  {
    && s.threads[t].InsWriting? && s.threads[t].n < |s.mem| && |words| == CHILD_NUM
    && MemMoved(s, s', t, s.threads[t], s.threads[t].n, s.mem[s.threads[t].n].(words := words))
  }

  ghost predicate Finish(s: State, s': State, t: nat)
    requires WellSized(s) && t < |s.threads|
  {
    && s.threads[t].InsWriting?
    && var k, n := s.threads[t].k, s.threads[t].n;
    && n < |s.tree| && s.tree[n].Leaf? && s.mem[n].count < CHILD_NUM
    && s.threads[t].cnt < |s.threads[t].orig| == CHILD_NUM
    && var words, count := Shifted(s.threads[t].orig, s.threads[t].cnt, k), s.mem[n].count + 1;
    && s' == State(s.tree[n := Leaf(words[..count])],
                   s.mem[n := s.mem[n].(words := words, count := count, dirty := false)],
                   s.threads[t := InsRelease(k, n)])
  }

  /** The last child whose first key is below k, the first child if there is none. */
  ghost predicate InsertChild(keys: seq<int>, k: int, i: nat) {
    && i < |keys| && (i > 0 ==> k > keys[i])
    && forall j :: i < j < |keys| ==> k <= keys[j]
  }

  /** Splitting a full leaf: the new children are not visible before the type changes. */
  ghost predicate Publish(s: State, s': State, t: nat, i: nat, kidMem: seq<Mem>)
    requires WellSized(s) && t < |s.threads|
  {
    && s.threads[t].InsLocked?
    && var k, n := s.threads[t].k, s.threads[t].n;
    && n < |s.tree| && s.tree[n].Leaf? && s.mem[n].count == CHILD_NUM && |s.tree[n].keys| == CHILD_NUM
    && InsertChild(s.tree[n].keys, k, i)
    && var grows := k > s.tree[n].keys[0];
    && |kidMem| == CHILD_NUM
    && (forall j :: 0 <= j < CHILD_NUM ==>
          && |kidMem[j].words| == CHILD_NUM && kidMem[j].words[0] == s.tree[n].keys[j] && kidMem[j].count == 1
          && kidMem[j].version == 0 && kidMem[j].holder.None? && !kidMem[j].dirty
          && kidMem[j].appender == if grows && j == i then Some(t) else None)
    && s' == State(Split(s.tree, n), s.mem + kidMem,
                   s.threads[t := if grows then InsChild(k, n, |s.tree| + i) else InsRelease(k, n)])
  }

  /** The splitter writes into its child without locking it: the word first, then the count. */
  ghost predicate ChildWrite(s: State, s': State, t: nat)
    requires WellSized(s) && t < |s.threads|
  {
    && s.threads[t].InsChild?
    && var k, n, c := s.threads[t].k, s.threads[t].n, s.threads[t].c;
    && c < |s.tree| && s.mem[c].count < CHILD_NUM
    && if s.tree[c].Inner? || k in s.mem[c].words[..s.mem[c].count] then
         MemMoved(s, s', t, InsRelease(k, n), c, s.mem[c].(appender := None))
       else
         MemMoved(s, s', t, InsChildCount(k, n, c), c, s.mem[c].(words := Shifted(s.mem[c].words, s.mem[c].count, k)))
  }

  ghost predicate ChildCount(s: State, s': State, t: nat)
    requires WellSized(s) && t < |s.threads|
  {
    && s.threads[t].InsChildCount?
    && var k, n, c := s.threads[t].k, s.threads[t].n, s.threads[t].c;
    && c < |s.tree| && s.tree[c].Leaf? && s.mem[c].count < CHILD_NUM
    && var m := s.mem[c];
    && s' == State(s.tree[c := Leaf(m.words[..m.count + 1])],
                   s.mem[c := m.(count := m.count + 1, appender := None)],
                   s.threads[t := InsRelease(k, n)])
  }

  ghost predicate Release(s: State, s': State, t: nat)
    requires WellSized(s) && t < |s.threads|
  {
    && (s.threads[t].InsRelease? || s.threads[t].InsRetry?)
    && var k, n := s.threads[t].k, s.threads[t].n;
    && n < |s.mem|
    && MemMoved(s, s', t, if s.threads[t].InsRetry? then InsDescend(k, n) else InsDone(k),
                n, s.mem[n].(holder := None, version := s.mem[n].version + 1))
  }

  ghost predicate ReadDown(s: State, s': State, t: nat)
    requires WellSized(s) && t < |s.threads|
  {
    && s.threads[t].RdDescend?
    && var k, n, start := s.threads[t].k, s.threads[t].n, s.threads[t].start;
    && n < |s.tree| && s.tree[n].keys[0] <= k
    && if s.tree[n].Leaf? then Moved(s, s', t, RdVersion(k, n, start))
       else Moved(s, s', t, RdDescend(k, Next(s.tree, n, k), start))
  }

  /** Waits for an unlocked word and remembers its version. */
  ghost predicate ReadVersion(s: State, s': State, t: nat)
    requires WellSized(s) && t < |s.threads|
  {
    && s.threads[t].RdVersion?
    && var k, n, start := s.threads[t].k, s.threads[t].n, s.threads[t].start;
    && n < |s.mem| && s.mem[n].holder.None?
    && Moved(s, s', t, RdCount(k, n, start, s.mem[n].version))
  }

  ghost predicate ReadCount(s: State, s': State, t: nat)
    requires WellSized(s) && t < |s.threads|
  {
    && s.threads[t].RdCount?
    && var th := s.threads[t];
    && th.n < |s.mem|
    && var count := s.mem[th.n].count;
    && if count == 0 then Moved(s, s', t, RdCheck(th.k, th.n, th.start, th.v, false))
       else Moved(s, s', t, RdSearch(th.k, th.n, th.start, th.v, 0, count, s.tree[th.n].keys))
  }

  /** One probe of the binary search. */
  ghost predicate Probe(s: State, s': State, t: nat)
    requires WellSized(s) && t < |s.threads|
  {
    && s.threads[t].RdSearch?
    && var th := s.threads[t];
    && th.n < |s.mem| && th.lower < th.upper <= CHILD_NUM
    && var mid := (th.upper - th.lower) / 2 + th.lower;
    && var key := s.mem[th.n].words[mid];
    && if th.k == key then Moved(s, s', t, RdConfirm(th.k, th.n, th.start, th.v, mid))
       else
         var lower, upper := if th.k < key then th.lower else mid + 1, if th.k < key then mid else th.upper;
         if lower < upper then Moved(s, s', t, th.(lower := lower, upper := upper))
         else Moved(s, s', t, RdConfirm(th.k, th.n, th.start, th.v, lower))
  }

  ghost predicate Confirm(s: State, s': State, t: nat)
    requires WellSized(s) && t < |s.threads|
  {
    && s.threads[t].RdConfirm?
    && var th := s.threads[t];
    && th.n < |s.mem|
    && var m := s.mem[th.n];
    && Moved(s, s', t, RdCheck(th.k, th.n, th.start, th.v, th.pos < m.count && m.words[th.pos] == th.k))
  }

  /** Compares the lock word with the remembered one; any difference sends the reader back. */
  ghost predicate CheckVersion(s: State, s': State, t: nat)
    requires WellSized(s) && t < |s.threads|
  {
    && s.threads[t].RdCheck?
    && var th := s.threads[t];
    && th.n < |s.mem|
    && if Quiet(s, th.n, th.v) then Moved(s, s', t, RdDone(th.k, th.start, th.res))
       else Moved(s, s', t, RdDescend(th.k, th.n, th.start))
  }

  ghost predicate Quiet(s: State, n: nat, v: nat)
    requires n < |s.mem|
  {
    s.mem[n].holder.None? && s.mem[n].version == v
  }

  /** One step of thread t, other than starting an insert. */
  ghost predicate Work(s: State, s': State, t: nat, guarded: bool)
    requires WellSized(s) && t < |s.threads|
  {
    || Descend(s, s', t) || Lock(s, s', t, guarded) || Recheck(s, s', t) || Finish(s, s', t)
    || ChildWrite(s, s', t) || ChildCount(s, s', t) || Release(s, s', t)
    || ReadDown(s, s', t) || ReadVersion(s, s', t) || ReadCount(s, s', t) || Probe(s, s', t)
    || Confirm(s, s', t) || CheckVersion(s, s', t)
    || (exists words :: Scribble(s, s', t, words))
    || (exists i, kidMem :: Publish(s, s', t, i, kidMem))
    || (exists k, n :: BeginLookup(s, s', t, k, n))
  }

  ghost function Active(s: State): set<nat> {
    set t | 0 <= t < |s.threads| && Inserting(s.threads[t])
  }

  /** `bound` limits how many inserts may run at the same time. */
  ghost predicate NextState(s: State, s': State, t: nat, guarded: bool, bound: nat) {
    && WellSized(s) && t < |s.threads|
    && (Work(s, s', t, guarded) || (|Active(s)| < bound && exists k, n :: BeginInsert(s, s', t, k, n)))
  }
}
