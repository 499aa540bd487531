/** Two inserters on a full root leaf can lose a finished insert: the splitter makes its children
    visible before it writes its key into one of them, and writes there without that child's lock. */
module OverflowRace {
  import opened Order
  import opened OverflowTree
  import opened OverflowConcurrent
  import opened OverflowInvariant
  import opened OverflowSteps
  import opened OverflowRuns

  lemma Extend(s: State, s': State, t: nat, guarded: bool, bound: nat)
    requires Reachable(s, guarded, bound) && NextState(s, s', t, guarded, bound)
    ensures Reachable(s', guarded, bound)
  {
    hide Init, NextState;
    var run :| Run(run, guarded, bound) && run[|run| - 1] == s;
    var longer := run + [s'];
    assert Step(s, s', guarded, bound);
    forall i | 0 <= i < |longer| - 1 ensures Step(longer[i], longer[i + 1], guarded, bound) {
      if i < |run| - 1 { assert Step(run[i], run[i + 1], guarded, bound); }
    }
    assert Run(longer, guarded, bound) && longer[|longer| - 1] == s';
  }

  // ---------------------------------------------------------------------------
  // The states of the bad run: keys 0..31 in the root; thread 0 inserts 32, thread 1 inserts 33
  // ---------------------------------------------------------------------------

  ghost function FullKeys(): (w: seq<int>)
    ensures |w| == CHILD_NUM && forall i :: 0 <= i < CHILD_NUM ==> w[i] == i
  {
    seq(CHILD_NUM, i => i)
  }

  ghost function FullTree(): Tree { [Leaf(FullKeys())] }

  ghost function FullMem(holder: Option<nat>): Mem {
    Mem(FullKeys(), CHILD_NUM, 0, holder, None, false)
  }

  /** A new child holds its key; the other words are whatever was there, here 50. */
  ghost function KidWords(key: int): (w: seq<int>)
    ensures |w| == CHILD_NUM && w[0] == key && forall i :: 1 <= i < CHILD_NUM ==> w[i] == 50
  {
    seq(CHILD_NUM, i => if i == 0 then key else 50)
  }

  ghost function KidMems(): (k: seq<Mem>)
    ensures |k| == CHILD_NUM
    ensures forall j :: 0 <= j < CHILD_NUM ==>
      k[j] == Mem(KidWords(j), 1, 0, None, if j == CHILD_NUM - 1 then Some(0) else None, false)
  {
    seq(CHILD_NUM, j => Mem(KidWords(j), 1, 0, None, if j == CHILD_NUM - 1 then Some(0) else None, false))
  }

  ghost function SplitTree(): (u: Tree)
    ensures |u| == CHILD_NUM + 1 && u[0].Inner? && u[CHILD_NUM] == Leaf([31])
  {
    Split(FullTree(), 0)
  }

  ghost function SplitMems(): (m: seq<Mem>)
    ensures |m| == CHILD_NUM + 1 && m[0] == FullMem(Some(0))
    ensures m[CHILD_NUM] == Mem(KidWords(31), 1, 0, None, Some(0), false)
  {
    [FullMem(Some(0))] + KidMems()
  }

  lemma FullIsValid()
    ensures Valid(FullTree()) && NodeOk(FullTree(), 0)
  {
    var t := FullTree();
    assert NodeOk(t, 0);
    forall k | k in Keys(t) ensures t[0].keys[0] <= k && Member(t, k) {
      assert LeafOf(t, 0, k) == 0;
    }
  }

  lemma SplitIsOk()
    ensures TreeOk(SplitTree()) && SplitTree()[0].keys == FullKeys()
    ensures Next(SplitTree(), 0, 33) == CHILD_NUM
  {
    FullIsValid();
    SplitFacts(FullTree(), 0);
    AtMostUnique(FullKeys(), 33, CHILD_NUM);
  }

  ghost predicate Sized(tree: Tree, mem: seq<Mem>) {
    WellSized(State(tree, mem, []))
  }

  lemma SplitSized()
    ensures Sized(SplitTree(), SplitMems())
  {
    SplitIsOk();
  }

  lemma Two(s: State, bound: nat)
    requires |s.threads| == 2 && !Inserting(s.threads[1]) && bound >= 2
    ensures |Active(s)| < bound
  {
    assert Active(s) <= {0};
    SubsetSize(Active(s), {0});
  }

  // ---------------------------------------------------------------------------
  // Its steps
  // ---------------------------------------------------------------------------

  /** Thread 0 locks the root. */
  lemma RaceStart(bound: nat)
    requires bound >= 2
    ensures Reachable(State(FullTree(), [FullMem(Some(0))], [InsLocked(32, 0), Idle]), false, bound)
  {
    hide Valid, TreeOk, Strict;
    var tree, mem := FullTree(), [FullMem(None)];
    FullIsValid();
    var s0 := State(tree, mem, [Idle, Idle]);
    assert FullKeys()[..CHILD_NUM] == FullKeys();
    assert AtRest(s0, 0);
    assert Run([s0], false, bound);
    var s1 := State(tree, mem, [InsDescend(32, 0), Idle]);
    Two(s0, bound);
    assert BeginInsert(s0, s1, 0, 32, 0);
    Extend(s0, s1, 0, false, bound);
    var s2 := State(tree, mem, [InsWantLock(32, 0), Idle]);
    assert Descend(s1, s2, 0);
    Extend(s1, s2, 0, false, bound);
    var s3 := State(tree, [FullMem(Some(0))], [InsLocked(32, 0), Idle]);
    assert Lock(s2, s3, 0, false);
    Extend(s2, s3, 0, false, bound);
  }

  /** Thread 0 splits the root. */
  lemma RaceSplit(bound: nat)
    requires bound >= 2
    ensures Reachable(State(SplitTree(), SplitMems(), [InsChild(32, 0, CHILD_NUM), Idle]), false, bound)
  {
    hide Valid, TreeOk, Strict;
    RaceStart(bound);
    FullIsValid();
    var s3 := State(FullTree(), [FullMem(Some(0))], [InsLocked(32, 0), Idle]);
    var s4 := State(SplitTree(), SplitMems(), [InsChild(32, 0, CHILD_NUM), Idle]);
    assert Publish(s3, s4, 0, CHILD_NUM - 1, KidMems());
    Extend(s3, s4, 0, false, bound);
  }

  ghost function LockedMem(dirty: bool): Mem {
    Mem(KidWords(31), 1, 0, Some(1), Some(0), dirty)
  }

  /** Thread 1 descends into the unfinished child. */
  lemma RaceDescend(bound: nat)
    requires bound >= 2
    ensures Reachable(State(SplitTree(), SplitMems(),
                            [InsChild(32, 0, CHILD_NUM), InsWantLock(33, CHILD_NUM)]), false, bound)
  {
    hide Valid, TreeOk, Strict, Split;
    RaceSplit(bound);
    SplitIsOk();
    SplitSized();
    var tree, mem, a := SplitTree(), SplitMems(), InsChild(32, 0, CHILD_NUM);
    var s4 := State(tree, mem, [a, Idle]);
    var s5 := State(tree, mem, [a, InsDescend(33, 0)]);
    Two(s4, bound);
    assert BeginInsert(s4, s5, 1, 33, 0);
    Extend(s4, s5, 1, false, bound);
    var s6 := State(tree, mem, [a, InsDescend(33, CHILD_NUM)]);
    assert Descend(s5, s6, 1);
    Extend(s5, s6, 1, false, bound);
    var s7 := State(tree, mem, [a, InsWantLock(33, CHILD_NUM)]);
    assert Descend(s6, s7, 1);
    Extend(s6, s7, 1, false, bound);
  }

  /** Thread 1 locks that child and reads its count. */
  lemma RaceLock(bound: nat)
    requires bound >= 2
    ensures Reachable(State(SplitTree(), SplitMems()[CHILD_NUM := LockedMem(true)],
                            [InsChild(32, 0, CHILD_NUM), InsWriting(33, CHILD_NUM, KidWords(31), 1)]), false, bound)
  {
    hide Valid, TreeOk, Strict, Split;
    RaceDescend(bound);
    SplitIsOk();
    SplitSized();
    var tree, mem, a := SplitTree(), SplitMems(), InsChild(32, 0, CHILD_NUM);
    var s7 := State(tree, mem, [a, InsWantLock(33, CHILD_NUM)]);
    var s8 := State(tree, mem[CHILD_NUM := LockedMem(false)], [a, InsLocked(33, CHILD_NUM)]);
    assert Lock(s7, s8, 1, false);
    Extend(s7, s8, 1, false, bound);
    var s9 := State(tree, mem[CHILD_NUM := LockedMem(true)], [a, InsWriting(33, CHILD_NUM, KidWords(31), 1)]);
    assert KidWords(31)[..1] == [31];
    assert s9.mem == s8.mem[CHILD_NUM := LockedMem(true)];
    assert Recheck(s8, s9, 1);
    Extend(s8, s9, 1, false, bound);
  }

  lemma ShiftedKid(k: int)
    requires k > 31
    ensures Shifted(KidWords(31), 1, k) == KidWords(31)[1 := k]
  {
    var w := KidWords(31);
    assert w[..1] == [31] && AtMost(w[..1], k) == 1;
    assert w[..1] + [k] + w[1..1] + w[2..] == w[1 := k];
  }

  ghost function WrittenTree(): (u: Tree)
    ensures |u| == CHILD_NUM + 1
  {
    SplitTree()[CHILD_NUM := Leaf([31, 32])]
  }

  ghost function WrittenMems(root: Mem): (m: seq<Mem>)
    ensures |m| == CHILD_NUM + 1
  {
    SplitMems()[0 := root][CHILD_NUM := Mem(KidWords(31)[1 := 32], 2, 0, Some(1), None, true)]
  }

  lemma WrittenIsOk()
    ensures TreeOk(WrittenTree())
  {
    SplitIsOk();
    var t, u := SplitTree(), WrittenTree();
    hide Split, SplitTree;
    forall n | 0 <= n < |u| ensures NodeOk(u, n) {
      assert NodeOk(t, n);
    }
  }

  lemma WrittenSized(root: Mem)
    requires |root.words| == CHILD_NUM && root.count <= CHILD_NUM
    ensures Sized(WrittenTree(), WrittenMems(root))
  {
    WrittenIsOk();
    SplitSized();
    hide TreeOk, Split, SplitTree;
  }

  ghost function HalfMem(): Mem {
    LockedMem(true).(words := KidWords(31)[1 := 32])
  }

  /** Thread 0 writes 32 into the child's words. */
  lemma RaceWrite(bound: nat)
    requires bound >= 2
    ensures Reachable(State(SplitTree(), SplitMems()[CHILD_NUM := HalfMem()],
                            [InsChildCount(32, 0, CHILD_NUM), InsWriting(33, CHILD_NUM, KidWords(31), 1)]),
                      false, bound)
  {
    hide Valid, TreeOk, Strict, Split, SplitTree, SplitMems, Shifted;
    RaceLock(bound);
    SplitIsOk();
    SplitSized();
    ShiftedKid(32);
    var b := InsWriting(33, CHILD_NUM, KidWords(31), 1);
    var s9 := State(SplitTree(), SplitMems()[CHILD_NUM := LockedMem(true)], [InsChild(32, 0, CHILD_NUM), b]);
    assert KidWords(31)[..1] == [31];
    var s10 := State(SplitTree(), SplitMems()[CHILD_NUM := HalfMem()], [InsChildCount(32, 0, CHILD_NUM), b]);
    assert s10.mem == s9.mem[CHILD_NUM := HalfMem()];
    assert ChildWrite(s9, s10, 0);
    Extend(s9, s10, 0, false, bound);
  }

  /** Thread 0 counts the key and returns. */
  lemma RaceReturn(bound: nat)
    requires bound >= 2
    ensures Reachable(State(WrittenTree(), WrittenMems(FullMem(None).(version := 1)),
                            [InsDone(32), InsWriting(33, CHILD_NUM, KidWords(31), 1)]), false, bound)
  {
    hide Valid, TreeOk, Strict, Split, SplitTree, SplitMems, Shifted;
    RaceWrite(bound);
    SplitIsOk();
    SplitSized();
    WrittenSized(FullMem(Some(0)));
    var b := InsWriting(33, CHILD_NUM, KidWords(31), 1);
    var s10 := State(SplitTree(), SplitMems()[CHILD_NUM := HalfMem()], [InsChildCount(32, 0, CHILD_NUM), b]);
    var s11 := State(WrittenTree(), WrittenMems(FullMem(Some(0))), [InsRelease(32, 0), b]);
    assert HalfMem().words[..2] == [31, 32];
    assert s11.mem == s10.mem[CHILD_NUM := HalfMem().(count := 2, appender := None)];
    assert ChildCount(s10, s11, 0);
    Extend(s10, s11, 0, false, bound);
    var s12 := State(WrittenTree(), WrittenMems(FullMem(None).(version := 1)), [InsDone(32), b]);
    assert s12.mem == s11.mem[0 := FullMem(None).(version := 1)];
    assert Release(s11, s12, 0);
    Extend(s11, s12, 0, false, bound);
  }

  /** Thread 1 finishes from the words it saw before, and 32 is gone. */
  lemma RaceLosesKey(bound: nat)
    requires bound >= 2
    ensures exists s :: Reachable(s, false, bound) && !Good(s)
  {
    hide Valid, TreeOk, Strict, Split, SplitMems, Shifted;
    RaceReturn(bound);
    SplitIsOk();
    var root := FullMem(None).(version := 1);
    WrittenSized(root);
    ShiftedKid(33);
    var s12 := State(WrittenTree(), WrittenMems(root), [InsDone(32), InsWriting(33, CHILD_NUM, KidWords(31), 1)]);
    var words := KidWords(31)[1 := 33];
    var tree := WrittenTree()[CHILD_NUM := Leaf(words[..3])];
    var mem := s12.mem[CHILD_NUM := s12.mem[CHILD_NUM].(words := words, count := 3, dirty := false)];
    var s13 := State(tree, mem, [InsDone(32), InsRelease(33, CHILD_NUM)]);
    assert Finish(s12, s13, 1);
    Extend(s12, s13, 1, false, bound);
    LostKey(tree);
    assert !Kept(s13, 0);
  }

  lemma LostKey(tree: Tree)
    requires tree == WrittenTree()[CHILD_NUM := Leaf(KidWords(31)[1 := 33][..3])]
    ensures 32 !in Keys(tree)
  {
    SplitIsOk();
    forall n | 0 <= n < |tree| ensures 32 !in tree[n].keys {
      if 0 < n < CHILD_NUM { assert tree[n] == Leaf([FullKeys()[n - 1]]); }
    }
  }

  /** With every interleaving allowed, finished inserts are kept and lookups are right in all
      reachable states exactly when at most one insert runs at a time. */
  lemma SafeIffOneInserter(bound: nat)
    ensures (forall s :: Reachable(s, false, bound) ==> Good(s)) <==> bound <= 1
  {
    hide Reachable, Good;
    if bound <= 1 {
      forall s | Reachable(s, false, bound) ensures Good(s) { OneInserterIsSafe(s, bound); }
    } else {
      RaceLosesKey(bound);
    }
  }
}
