/** The versioned lock word under any number of threads: the top bit is the lock, the other 31 bits
    count the releases. */
module VersionedLock {

  const LOCK_SET: nat := 0x8000_0000
  const WORD: nat := 0x1_0000_0000

  // On a 32-bit word, masking with lockMask is % LOCK_SET and setting the lock bit adds LOCK_SET.
  predicate Locked(w: nat) { w >= LOCK_SET }

  function Version(w: nat): nat { w % LOCK_SET }

  /** The store of release: v + 1 - lockSet in 32-bit arithmetic. */
  function Released(v: nat): nat { (v + 1 + WORD - LOCK_SET) % WORD }

  /** Where a thread is. `Loaded` is between the load and the compare-and-swap of get (retry) or
      try; a reader remembers the word it saw, and how many acquisitions there had been. */
  datatype Thread =
    | Outside
    | Loaded(seen: nat, retry: bool)
    | Failed
    | Inside
    | Releasing(v: nat)
    | Reading(v: nat, acquired: nat)
    | Accepted(acquired: nat)

  datatype State = State(word: nat, acquired: nat, released: nat, threads: seq<Thread>)

  ghost predicate Goes(s: State, s': State, t: nat, th: Thread)
    requires t < |s.threads|
  {
    s' == s.(threads := s.threads[t := th])
  }

  /** Load: get spins on a locked word, try gives up. */
  ghost predicate Load(s: State, s': State, t: nat, retry: bool)
    requires t < |s.threads|
  {
    && s.threads[t].Outside?
    && if Locked(s.word) then Goes(s, s', t, if retry then Outside else Failed)
       else Goes(s, s', t, Loaded(Version(s.word), retry))
  }

  ghost predicate Swap(s: State, s': State, t: nat)
    requires t < |s.threads|
  {
    && s.threads[t].Loaded?
    && var seen := s.threads[t].seen;
    && if s.word == seen then
         s' == State(seen + LOCK_SET, s.acquired + 1, s.released, s.threads[t := Inside])
       else Goes(s, s', t, if s.threads[t].retry then Outside else Failed)
  }

  ghost predicate BeginRelease(s: State, s': State, t: nat)
    requires t < |s.threads|
  {
    s.threads[t].Inside? && Goes(s, s', t, Releasing(s.word))
  }

  ghost predicate Store(s: State, s': State, t: nat)
    requires t < |s.threads|
  {
    && s.threads[t].Releasing?
    && s' == State(Released(s.threads[t].v), s.acquired, s.released + 1, s.threads[t := Outside])
  }

  /** test_lock_set: a reader goes on once the word is unlocked. */
  ghost predicate See(s: State, s': State, t: nat)
    requires t < |s.threads|
  {
    && s.threads[t].Outside?
    && Goes(s, s', t, if Locked(s.word) then Outside else Reading(s.word, s.acquired))
  }

  /** test_lock_version_change: accepted if the whole word is the same. */
  ghost predicate Compare(s: State, s': State, t: nat)
    requires t < |s.threads|
  {
    && s.threads[t].Reading?
    && Goes(s, s', t, if s.word == s.threads[t].v then Accepted(s.threads[t].acquired) else Outside)
  }

  ghost predicate Rest(s: State, s': State, t: nat)
    requires t < |s.threads|
  {
    (s.threads[t].Failed? || s.threads[t].Accepted?) && Goes(s, s', t, Outside)
  }

  ghost predicate NextState(s: State, s': State, t: nat) {
    && t < |s.threads|
    && (|| Load(s, s', t, true) || Load(s, s', t, false) || Swap(s, s', t) || BeginRelease(s, s', t)
        || Store(s, s', t) || See(s, s', t) || Compare(s, s', t) || Rest(s, s', t))
  }

  ghost predicate Init(s: State) {
    s.word == 0 && s.acquired == 0 && s.released == 0 && forall t :: 0 <= t < |s.threads| ==> s.threads[t] == Outside
  }

  ghost predicate Step(s: State, s': State) {
    exists t :: NextState(s, s', t)
  }

  ghost predicate Run(run: seq<State>) {
    |run| > 0 && Init(run[0]) && forall i :: 0 <= i < |run| - 1 ==> Step(run[i], run[i + 1])
  }

  // ---------------------------------------------------------------------------
  // Invariant
  // ---------------------------------------------------------------------------

  predicate Holds(th: Thread) { th.Inside? || th.Releasing? }

  /** The 2^31st release overflows into the lock bit: then the word is locked and nobody holds it. */
  ghost predicate Stuck(s: State) {
    s.word == LOCK_SET && s.released == LOCK_SET && forall t :: 0 <= t < |s.threads| ==> !Holds(s.threads[t])
  }

  ghost predicate ThreadOk(s: State, th: Thread) {
    match th
    case Loaded(seen, retry) => seen < LOCK_SET
    case Releasing(v) => v == s.word
    case Reading(v, acquired) => v < LOCK_SET && v == acquired <= s.acquired
    case _ => true
  }

  ghost predicate Inv(s: State) {
    && s.released <= LOCK_SET
    && (forall t :: 0 <= t < |s.threads| ==> ThreadOk(s, s.threads[t]))
    && (forall t, u :: 0 <= t < u < |s.threads| ==> !(Holds(s.threads[t]) && Holds(s.threads[u])))
    && (s.released == LOCK_SET ==> Stuck(s) && s.acquired == LOCK_SET)
    && (s.released < LOCK_SET ==>
          && Version(s.word) == s.released && s.word < WORD
          && s.acquired == s.released + (if Locked(s.word) then 1 else 0)
          && (Locked(s.word) <==> exists t :: 0 <= t < |s.threads| && Holds(s.threads[t])))
  }

  /** The store of release unlocks the word and counts one more release, except for the last value
      of the counter, where it leaves the word locked. */
  lemma ReleasedUnlocks(v: nat)
    requires LOCK_SET <= v < WORD
    ensures !Locked(Released(v)) <==> Version(v) < LOCK_SET - 1
    ensures Version(v) < LOCK_SET - 1 ==> Released(v) == Version(v) + 1
    ensures Version(v) == LOCK_SET - 1 ==> Released(v) == LOCK_SET
  {
    assert Version(v) == v - LOCK_SET;
  }

  lemma StoreKeeps(s: State, s': State, t: nat)
    requires Inv(s) && t < |s.threads| && Store(s, s', t)
    ensures Inv(s')
  {
    assert Holds(s.threads[t]) && ThreadOk(s, s.threads[t]);
    ReleasedUnlocks(s.word);
    hide Released;
    forall u | 0 <= u < |s'.threads| ensures ThreadOk(s', s'.threads[u]) && !Holds(s'.threads[u]) {
      if u != t { assert ThreadOk(s, s.threads[u]) && s'.threads[u] == s.threads[u]; }
    }
  }

  lemma SwapKeeps(s: State, s': State, t: nat)
    requires Inv(s) && t < |s.threads| && Swap(s, s', t)
    ensures Inv(s')
  {
    assert ThreadOk(s, s.threads[t]);
    forall u | 0 <= u < |s'.threads| ensures ThreadOk(s', s'.threads[u]) {
      if u != t { assert ThreadOk(s, s.threads[u]) && s'.threads[u] == s.threads[u]; }
    }
    if s.word == s.threads[t].seen {
      assert s'.threads[t] == Inside && Holds(s'.threads[t]);
    } else {
      HoldersStay(s, s', t);
    }
  }

  /** Same word, and thread t holds the lock after the step iff it did before. */
  lemma HoldersStay(s: State, s': State, t: nat)
    requires Inv(s) && t < |s.threads| && s' == s.(threads := s'.threads) && |s'.threads| == |s.threads|
    requires forall u :: 0 <= u < |s.threads| && u != t ==> s'.threads[u] == s.threads[u]
    requires Holds(s'.threads[t]) == Holds(s.threads[t]) && ThreadOk(s, s'.threads[t])
    ensures Inv(s')
  {
    forall u | 0 <= u < |s'.threads|
      ensures ThreadOk(s', s'.threads[u]) && Holds(s'.threads[u]) == Holds(s.threads[u])
    {
      assert ThreadOk(s, s.threads[u]);
    }
  }

  lemma StepKeeps(s: State, s': State)
    requires Inv(s) && Step(s, s')
    ensures Inv(s')
  {
    hide Inv, NextState;
    var t :| NextState(s, s', t);
    ThreadKeeps(s, s', t);
  }

  lemma ThreadKeeps(s: State, s': State, t: nat)
    requires Inv(s) && NextState(s, s', t)
    ensures Inv(s')
  {
    assert ThreadOk(s, s.threads[t]);
    if Swap(s, s', t) {
      SwapKeeps(s, s', t);
    } else if Store(s, s', t) {
      StoreKeeps(s, s', t);
    } else {
      HoldersStay(s, s', t);
    }
  }

  lemma {:induction false} RunKeeps(run: seq<State>, i: nat)
    requires Run(run) && i < |run|
    ensures Inv(run[i])
    decreases i
  {
    hide Inv, Step;
    if i == 0 {
      InitInv(run[0]);
    } else {
      RunKeeps(run, i - 1);
      assert Step(run[i - 1], run[i - 1 + 1]);
      StepKeeps(run[i - 1], run[i]);
    }
  }

  lemma InitInv(s: State)
    requires Init(s)
    ensures Inv(s)
  {
  }

  // ---------------------------------------------------------------------------
  // Results
  // ---------------------------------------------------------------------------

  /** At most one thread is ever between acquire and release, in every run of any length. */
  lemma MutualExclusion(run: seq<State>, i: nat, t: nat, u: nat)
    requires Run(run) && i < |run| && t < |run[i].threads| && u < |run[i].threads|
    requires Holds(run[i].threads[t]) && Holds(run[i].threads[u])
    ensures t == u
  {
    RunKeeps(run, i);
  }

  /** The version is the number of critical sections finished, up to 2^31 - 1 of them. */
  lemma VersionCountsReleases(run: seq<State>, i: nat)
    requires Run(run) && i < |run| && run[i].released < LOCK_SET
    ensures Version(run[i].word) == run[i].released
  {
    RunKeeps(run, i);
  }

  lemma {:induction false} CountsGrow(run: seq<State>, i: nat, j: nat)
    requires Run(run) && i <= j < |run|
    ensures run[i].acquired <= run[j].acquired && run[i].released <= run[j].released
    ensures |run[i].threads| == |run[j].threads|
    decreases j
  {
    if i < j {
      CountsGrow(run, i, j - 1);
      assert Step(run[j - 1], run[j - 1 + 1]);
    }
  }

  /** A reader that sees an unlocked word at step a, does nothing else, and is accepted at step b
      overlapped no writer: nobody held the lock at any time from a to b. */
  lemma AcceptedSawNoWriter(run: seq<State>, a: nat, b: nat, t: nat, j: nat, u: nat)
    requires Run(run) && a < b < |run| - 1 && t < |run[a].threads| && a <= j <= b && u < |run[j].threads|
    requires See(run[a], run[a + 1], t) && run[a + 1].threads[t].Reading?
    requires t < |run[b].threads| && run[b].threads[t] == run[a + 1].threads[t]
    requires Compare(run[b], run[b + 1], t) && t < |run[b + 1].threads| && run[b + 1].threads[t].Accepted?
    ensures !Holds(run[j].threads[u])
  {
    CountsGrow(run, a, j);
    CountsGrow(run, j, b);
    RunKeeps(run, a);
    RunKeeps(run, j);
    RunKeeps(run, b);
    assert ThreadOk(run[b], run[b].threads[t]);
  }

  /** Exactly when the lock is dead: after 2^31 releases the word stays locked and no thread ever
      enters again; before that, a locked word always has a holder. */
  lemma {:induction false} StuckForever(run: seq<State>, i: nat, j: nat)
    requires Run(run) && i <= j < |run|
    ensures run[i].released <= LOCK_SET
    ensures Stuck(run[i]) <==> run[i].released == LOCK_SET
    ensures run[i].released < LOCK_SET && Locked(run[i].word) ==>
      exists t :: 0 <= t < |run[i].threads| && Holds(run[i].threads[t])
    ensures Stuck(run[i]) ==> Stuck(run[j])
    decreases j
  {
    RunKeeps(run, i);
    if i < j {
      StuckForever(run, i, j - 1);
      RunKeeps(run, j - 1);
      RunKeeps(run, j);
      assert Step(run[j - 1], run[j - 1 + 1]);
      var t :| NextState(run[j - 1], run[j], t);
    }
  }

  /** A run of one thread that enters and leaves n times. */
  lemma {:induction false} ReleasedTimes(n: nat) returns (run: seq<State>)
    requires n <= LOCK_SET
    ensures Run(run)
    ensures run[|run| - 1] == State(n, n, n, [Outside])
  {
    if n == 0 {
      run := [State(0, 0, 0, [Outside])];
    } else {
      var front := ReleasedTimes(n - 1);
      var v := n - 1 + LOCK_SET;
      var loaded, inside := State(n - 1, n - 1, n - 1, [Loaded(n - 1, true)]), State(v, n, n - 1, [Inside]);
      var releasing, done := State(v, n, n - 1, [Releasing(v)]), State(n, n, n, [Outside]);
      ReleasedUnlocks(v);
      assert NextState(front[|front| - 1], loaded, 0) && NextState(loaded, inside, 0);
      assert NextState(inside, releasing, 0) && NextState(releasing, done, 0);
      run := Extended(front, loaded);
      run := Extended(run, inside);
      run := Extended(run, releasing);
      run := Extended(run, done);
    }
  }

  lemma Extended(run: seq<State>, s: State) returns (longer: seq<State>)
    requires Run(run) && Step(run[|run| - 1], s)
    ensures Run(longer) && longer[|longer| - 1] == s
  {
    longer := run + [s];
  }

  /** The dead state is reached. */
  lemma StuckHappens() returns (run: seq<State>)
    ensures Run(run) && Stuck(run[|run| - 1])
  {
    run := ReleasedTimes(LOCK_SET);
    StuckForever(run, |run| - 1, |run| - 1);
  }
}
