/** Whole runs of the concurrent overflow tree: what holds in every reachable state, and for how
    many simultaneous inserters. */
module OverflowRuns {
  import opened OverflowTree
  import opened OverflowConcurrent
  import opened OverflowInvariant
  import opened OverflowSteps

  /** A valid tree at rest: the seeded root leaf, or anything a sequential history left. */
  ghost predicate Init(s: State) {
    && Valid(s.tree) && |s.mem| == |s.tree|
    && (forall n :: 0 <= n < |s.mem| ==> AtRest(s, n))
    && (forall t :: 0 <= t < |s.threads| ==> s.threads[t] == Idle)
  }

  ghost predicate AtRest(s: State, n: nat)
    requires n < |s.mem| == |s.tree|
  {
    var m := s.mem[n];
    && |m.words| == CHILD_NUM && m.count == |s.tree[n].keys| <= CHILD_NUM && m.words[..m.count] == s.tree[n].keys
    && m.holder.None? && m.appender.None? && !m.dirty
  }

  ghost predicate Step(s: State, s': State, guarded: bool, bound: nat) {
    exists t :: NextState(s, s', t, guarded, bound)
  }

  ghost predicate Run(run: seq<State>, guarded: bool, bound: nat) {
    && |run| > 0 && Init(run[0])
    && forall i :: 0 <= i < |run| - 1 ==> Step(run[i], run[i + 1], guarded, bound)
  }

  ghost predicate Reachable(s: State, guarded: bool, bound: nat) {
    exists run :: Run(run, guarded, bound) && run[|run| - 1] == s
  }

  /** What inserts and lookups promise when they return: the key of a finished insert is in the
      tree; a lookup finds every key that was there when it started and only keys of the tree. */
  ghost predicate Kept(s: State, t: nat)
    requires t < |s.threads|
  {
    match s.threads[t]
    case InsDone(k) => k in Keys(s.tree)
    case RdDone(k, start, res) => (k in start ==> res) && (res ==> k in Keys(s.tree))
    case _ => true
  }

  ghost predicate Good(s: State) {
    forall t :: 0 <= t < |s.threads| ==> Kept(s, t)
  }

  // ---------------------------------------------------------------------------
  // Safety of guarded runs
  // ---------------------------------------------------------------------------

  lemma InitIsInv(s: State)
    requires Init(s)
    ensures Inv(s)
  {
    hide Valid, TreeOk;
    forall n | 0 <= n < |s.mem| ensures MemOk(s, n) && Owed(s, n) {
      assert AtRest(s, n);
    }
    assert Shape(s);
  }

  lemma InvIsGood(s: State)
    requires Inv(s)
    ensures Good(s)
  {
    hide Shape, OnPath, Keys;
    forall t | 0 <= t < |s.threads| ensures Kept(s, t) {
      assert ThreadOk(s, t, s.threads[t]);
    }
  }

  lemma WorkKeeps(s: State, s': State, t: nat)
    requires Inv(s) && WellSized(s) && t < |s.threads| && Work(s, s', t, true)
    ensures Inv(s')
  {
    hide Inv, WellSized, Descend, Lock, Recheck, Finish, ChildWrite, ChildCount, Release, ReadDown, ReadVersion;
    hide ReadCount, Probe, Confirm, CheckVersion, Scribble, Publish, BeginLookup;
    if Descend(s, s', t) { DescendKeeps(s, s', t); }
    else if Lock(s, s', t, true) { LockKeeps(s, s', t); }
    else if Recheck(s, s', t) { RecheckKeeps(s, s', t); }
    else if Finish(s, s', t) { FinishKeeps(s, s', t); }
    else if ChildWrite(s, s', t) { ChildWriteKeeps(s, s', t); }
    else if ChildCount(s, s', t) { ChildCountKeeps(s, s', t); }
    else if Release(s, s', t) { ReleaseKeeps(s, s', t); }
    else if ReadDown(s, s', t) { ReadDownKeeps(s, s', t); }
    else if ReadVersion(s, s', t) { ReadVersionKeeps(s, s', t); }
    else if ReadCount(s, s', t) { ReadCountKeeps(s, s', t); }
    else if Probe(s, s', t) { ProbeKeeps(s, s', t); }
    else if Confirm(s, s', t) { ConfirmKeeps(s, s', t); }
    else if CheckVersion(s, s', t) { CheckVersionKeeps(s, s', t); }
    else if words :| Scribble(s, s', t, words) { ScribbleKeeps(s, s', t, words); }
    else if i, kidMem :| Publish(s, s', t, i, kidMem) { PublishKeeps(s, s', t, i, kidMem); }
    else { var k, n :| BeginLookup(s, s', t, k, n); BeginKeeps(s, s', t, k, n); }
  }

  lemma StepKeeps(s: State, s': State, bound: nat)
    requires Inv(s) && Step(s, s', true, bound)
    ensures Inv(s')
  {
    hide Inv, WellSized, Work, BeginInsert;
    var t :| NextState(s, s', t, true, bound);
    if Work(s, s', t, true) {
      WorkKeeps(s, s', t);
    } else {
      var k, n :| BeginInsert(s, s', t, k, n);
      BeginKeeps(s, s', t, k, n);
    }
  }

  lemma {:induction false} RunKeeps(run: seq<State>, bound: nat, i: nat)
    requires Run(run, true, bound) && i < |run|
    ensures Inv(run[i])
    decreases i
  {
    hide Inv, Init, Step;
    if i == 0 {
      InitIsInv(run[0]);
    } else {
      RunKeeps(run, bound, i - 1);
      assert Step(run[i - 1], run[i - 1 + 1], true, bound);
      StepKeeps(run[i - 1], run[i], bound);
    }
  }

  /** However many threads insert and look up: while nobody locks a child that its splitter has
      not finished, every finished insert is in the tree and every lookup answers right. */
  lemma GuardedRunsAreSafe(s: State, bound: nat)
    requires Reachable(s, true, bound)
    ensures Good(s) && Valid(s.tree)
  {
    hide Inv, Good, Init, Step;
    var run :| Run(run, true, bound) && run[|run| - 1] == s;
    RunKeeps(run, bound, |run| - 1);
    InvIsGood(s);
    InvIsValid(s);
  }

  lemma InvIsValid(s: State)
    requires Inv(s)
    ensures Valid(s.tree)
  {
    hide Valid;
  }

  // ---------------------------------------------------------------------------
  // What a step does to the keys
  // ---------------------------------------------------------------------------

  /** Thread t is writing k into the tree. */
  ghost predicate Writes(s: State, t: nat, k: int) {
    t < |s.threads| && (s.threads[t].InsWriting? || s.threads[t].InsChildCount?) && s.threads[t].k == k
  }

  lemma WorkAddsOwnKey(s: State, s': State, t: nat)
    requires Inv(s) && WellSized(s) && t < |s.threads| && Work(s, s', t, true)
    ensures Keys(s.tree) <= Keys(s'.tree)
    ensures forall k :: k in Keys(s'.tree) && k !in Keys(s.tree) ==> Writes(s, t, k)
  {
    hide Inv, Keys, WellSized, Split;
    if Finish(s, s', t) {
      FinishKeeps(s, s', t);
    } else if ChildCount(s, s', t) {
      ChildCountKeeps(s, s', t);
    } else if i, kidMem :| Publish(s, s', t, i, kidMem) {
      PublishRely(s, s', t, i, kidMem);
    } else {
      assert s'.tree == s.tree;
    }
  }

  /** No key is ever lost, and a key that appears was written by an insert of that key. */
  lemma {:induction false} KeysHaveWriters(run: seq<State>, bound: nat, i: nat, j: nat, k: int)
    requires Run(run, true, bound) && i <= j < |run|
    ensures k in Keys(run[i].tree) ==> k in Keys(run[j].tree)
    ensures k in Keys(run[j].tree) && k !in Keys(run[i].tree) ==> exists m, t :: i <= m < j && Writes(run[m], t, k)
    decreases j
  {
    hide Inv, Init, Keys, WellSized, Work, BeginInsert, Writes;
    if i < j {
      KeysHaveWriters(run, bound, i, j - 1, k);
      RunKeeps(run, bound, j - 1);
      var s, s' := run[j - 1], run[j];
      assert Step(run[j - 1], run[j - 1 + 1], true, bound);
      var t :| NextState(s, s', t, true, bound);
      if Work(s, s', t, true) {
        WorkAddsOwnKey(s, s', t);
        if k in Keys(s'.tree) && k !in Keys(s.tree) { assert Writes(run[j - 1], t, k); }
      } else {
        BeginSameTree(s, s', t);
      }
    }
  }

  lemma BeginSameTree(s: State, s': State, t: nat)
    requires WellSized(s) && t < |s.threads| && exists k, n :: BeginInsert(s, s', t, k, n)
    ensures s'.tree == s.tree
  {
  }

  // ---------------------------------------------------------------------------
  // How many inserters
  // ---------------------------------------------------------------------------

  lemma SubsetSize(a: set<nat>, b: set<nat>)
    requires a <= b
    ensures |a| <= |b|
  {
    if a != {} {
      var x :| x in a;
      SubsetSize(a - {x}, b - {x});
    }
  }

  /** With at most one insert at a time there is no unfinished child to lock. */
  lemma LoneInserterIsGuarded(s: State, s': State, t: nat)
    requires Inv(s) && WellSized(s) && t < |s.threads| && |Active(s)| <= 1 && Lock(s, s', t, false)
    ensures Lock(s, s', t, true)
  {
    hide Shape, TreeOk, ThreadOk;
    var n := s.threads[t].n;
    assert Owed(s, n);
    if s.mem[n].appender.Some? {
      var u := s.mem[n].appender.value;
      assert u != t && |{u, t}| == 2 && {u, t} <= Active(s);
      SubsetSize({u, t}, Active(s));
    }
  }

  ghost predicate ReaderWork(s: State, s': State, t: nat)
    requires WellSized(s) && t < |s.threads|
  {
    || ReadDown(s, s', t) || ReadVersion(s, s', t) || ReadCount(s, s', t) || Probe(s, s', t)
    || Confirm(s, s', t) || CheckVersion(s, s', t) || (exists k, n :: BeginLookup(s, s', t, k, n))
  }

  lemma ReaderStaysReader(s: State, s': State, t: nat)
    requires WellSized(s) && t < |s.threads| && ReaderWork(s, s', t)
    ensures OnlyThread(s, s', t) && !Inserting(s'.threads[t])
  {
    hide TreeOk, Keys, Next, WellSized, Quiet;
  }

  /** Only starting an insert makes a thread an inserter. */
  lemma WorkStartsNoInsert(s: State, s': State, t: nat)
    requires WellSized(s) && t < |s.threads| && Work(s, s', t, false)
    ensures OnlyThread(s, s', t) && (Inserting(s'.threads[t]) ==> Inserting(s.threads[t]))
  {
    hide TreeOk, Split, Keys, Shifted, Next, WellSized, Quiet, AtMost;
    hide ReadDown, ReadVersion, ReadCount, Probe, Confirm, CheckVersion, BeginLookup;
    if ReaderWork(s, s', t) { ReaderStaysReader(s, s', t); }
  }

  lemma BoundHolds(s: State, s': State, bound: nat)
    requires Step(s, s', false, bound) && |Active(s)| <= bound
    ensures |Active(s')| <= bound
  {
    hide Work, WellSized, Inserting;
    var t :| NextState(s, s', t, false, bound);
    if Work(s, s', t, false) {
      WorkStartsNoInsert(s, s', t);
      assert Active(s') <= Active(s);
      SubsetSize(Active(s'), Active(s));
    } else {
      assert OnlyThread(s, s', t);
      assert Active(s') <= Active(s) + {t};
      SubsetSize(Active(s'), Active(s) + {t});
    }
  }

  lemma LoneStepKeeps(s: State, s': State, bound: nat)
    requires Inv(s) && bound <= 1 && |Active(s)| <= bound && Step(s, s', false, bound)
    ensures Inv(s')
  {
    hide Inv, WellSized, BeginInsert, Descend, Lock, Recheck, Finish, ChildWrite, ChildCount, Release;
    hide ReadDown, ReadVersion, ReadCount, Probe, Confirm, CheckVersion, Scribble, Publish, BeginLookup;
    var t :| NextState(s, s', t, false, bound);
    if Work(s, s', t, false) {
      if Lock(s, s', t, false) { LoneInserterIsGuarded(s, s', t); }
      assert Work(s, s', t, true);
      WorkKeeps(s, s', t);
    } else {
      var k, n :| BeginInsert(s, s', t, k, n);
      BeginKeeps(s, s', t, k, n);
    }
  }

  lemma {:induction false} LoneRunKeeps(run: seq<State>, bound: nat, i: nat)
    requires Run(run, false, bound) && bound <= 1 && i < |run|
    ensures Inv(run[i]) && |Active(run[i])| <= bound
    decreases i
  {
    hide Inv, Step;
    if i == 0 {
      InitIsInv(run[0]);
      assert Active(run[0]) == {};
    } else {
      LoneRunKeeps(run, bound, i - 1);
      assert Step(run[i - 1], run[i - 1 + 1], false, bound);
      LoneStepKeeps(run[i - 1], run[i], bound);
      BoundHolds(run[i - 1], run[i], bound);
    }
  }

  lemma OneInserterIsSafe(s: State, bound: nat)
    requires bound <= 1 && Reachable(s, false, bound)
    ensures Good(s)
  {
    hide Inv, Good, Init, Step;
    var run :| Run(run, false, bound) && run[|run| - 1] == s;
    LoneRunKeeps(run, bound, |run| - 1);
    InvIsGood(s);
  }
}
