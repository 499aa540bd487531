/** How the tasks of a DPU are split over its tasklets: even-aligned, overlapping ranges whose results
    are written in pairs. */
module Tasklets {

  /** A start and a number of tasks, made even: an odd start moves down, an odd number moves up. The
      last tasklet takes all that is left. */
  function Aligned(first: nat, per: nat, tasks: nat, isLast: bool): (nat, nat) {
    var start := if first % 2 != 0 then first - 1 else first;
    var ops := if first % 2 != 0 then per + 1 else per;
    var mine := if isLast then (if tasks >= start then tasks - start else 0) else ops;
    (start, if mine % 2 != 0 then mine + 1 else mine)
  }

  /** A tasklet's first task and its number of tasks. */
  function Range(tasks: nat, tasklets: nat, t: nat): (nat, nat)
    requires t < tasklets
  {
    Aligned(tasks / tasklets * t, tasks / tasklets, tasks, t == tasklets - 1)
  }

  lemma AlignedIsEven(first: nat, per: nat, tasks: nat, isLast: bool)
    requires first + per <= tasks
    ensures var (start, ops) := Aligned(first, per, tasks, isLast);
      && start % 2 == 0 && ops % 2 == 0 && start + ops <= tasks + tasks % 2
      && start <= first && (if isLast then tasks else first + per) <= start + ops
  {
  }

  lemma Scaled(per: nat, t: nat, tasklets: nat, tasks: nat)
    requires t < tasklets && per == tasks / tasklets
    ensures per * t + per <= per * tasklets <= tasks
  {
    DivMul(tasks, tasklets);
    Grows(per, t + 1, tasklets);
    assert per * (t + 1) == per * t + per;
  }

  lemma DivMul(a: nat, b: nat)
    requires b > 0
    ensures a / b * b <= a
  {
  }

  lemma Grows(a: nat, x: nat, y: nat)
    requires x <= y
    ensures a * x <= a * y
  {
  }

  /** Ranges start and end on even tasks and go at most one past the last task. */
  lemma RangeIsEven(tasks: nat, tasklets: nat, t: nat)
    requires t < tasklets
    ensures var (start, ops) := Range(tasks, tasklets, t);
      start % 2 == 0 && ops % 2 == 0 && start + ops <= tasks + tasks % 2
  {
    hide Aligned;
    Scaled(tasks / tasklets, t, tasklets, tasks);
    AlignedIsEven(tasks / tasklets * t, tasks / tasklets, tasks, t == tasklets - 1);
  }

  /** A range reaches at most one task into each neighbour's even part, and the last one no further than one past
      the last task. */
  lemma RangeIsTight(tasks: nat, tasklets: nat, t: nat)
    requires t < tasklets
    ensures var per, (start, ops) := tasks / tasklets, Range(tasks, tasklets, t);
      && per * t - 1 <= start <= per * t
      && (t < tasklets - 1 && ops > 0 ==> start + ops <= per * (t + 1) + 1)
  {
    var per := tasks / tasklets;
    assert per * (t + 1) == per * t + per;
  }

  /** No task is in the ranges of two tasklets that are not neighbours. */
  lemma OnlyNeighboursShare(tasks: nat, tasklets: nat, t: nat, u: nat, i: nat)
    requires t < u < tasklets
    requires Range(tasks, tasklets, t).0 <= i < Range(tasks, tasklets, t).0 + Range(tasks, tasklets, t).1
    requires Range(tasks, tasklets, u).0 <= i < Range(tasks, tasklets, u).0 + Range(tasks, tasklets, u).1
    ensures u == t + 1
  {
    var per := tasks / tasklets;
    RangeIsTight(tasks, tasklets, t);
    RangeIsTight(tasks, tasklets, u);
    RangeIsEven(tasks, tasklets, u);
    RangeIsEven(tasks, tasklets, t);
    if u >= t + 2 { NotNeighbours(tasks, tasklets, t, u); }
  }

  lemma NotNeighbours(tasks: nat, tasklets: nat, t: nat, u: nat)
    requires t + 2 <= u < tasklets
    ensures Range(tasks, tasklets, t).0 + Range(tasks, tasklets, t).1 <= Range(tasks, tasklets, u).0
  {
    var per := tasks / tasklets;
    Grows(per, t + 2, u);
    assert per * (t + 2) == per * t + 2 * per;
  }

  /** Every task is in some tasklet's range. */
  lemma {:induction false} RangesCover(tasks: nat, tasklets: nat, t: nat, i: nat) returns (u: nat)
    requires t < tasklets && i < (if t == tasklets - 1 then tasks else tasks / tasklets * (t + 1))
    ensures u <= t && Range(tasks, tasklets, u).0 <= i < Range(tasks, tasklets, u).0 + Range(tasks, tasklets, u).1
  {
    hide Aligned;
    var per := tasks / tasklets;
    assert per * (t + 1) == per * t + per;
    Scaled(per, t, tasklets, tasks);
    if i >= per * t {
      u := t;
      AlignedIsEven(per * t, per, tasks, t == tasklets - 1);
    } else {
      assert t > 0 && i < per * (t - 1 + 1);
      u := RangesCover(tasks, tasklets, t - 1, i);
    }
  }

  // ---------------------------------------------------------------------------
  // Any order of the paired writes
  // ---------------------------------------------------------------------------

  /** A write of the results of tasks at and at + 1, by some tasklet. */
  datatype Write = Write(tasklet: nat, at: nat)

  predicate IsWrite(tasks: nat, tasklets: nat, w: Write) {
    w.tasklet < tasklets
    && var (start, ops) := Range(tasks, tasklets, w.tasklet);
       start <= w.at < start + ops && w.at % 2 == 0
  }

  /** The buffer after some writes, in the order they happen. */
  ghost function After(buffer: seq<nat>, answer: nat -> nat, writes: seq<Write>): (r: seq<nat>)
    requires forall j :: 0 <= j < |writes| ==> writes[j].at + 1 < |buffer|
    ensures |r| == |buffer|
  {
    if writes == [] then buffer
    else
      var w := writes[|writes| - 1];
      After(buffer, answer, writes[..|writes| - 1])[w.at := answer(w.at)][w.at + 1 := answer(w.at + 1)]
  }

  /** A written slot holds its own task's answer, whoever wrote it and however often. */
  lemma {:induction false} WrittenIsAnswer(buffer: seq<nat>, answer: nat -> nat, writes: seq<Write>, i: nat)
    requires forall j :: 0 <= j < |writes| ==> writes[j].at + 1 < |buffer|
    requires i < |buffer| && exists j :: 0 <= j < |writes| && writes[j].at <= i <= writes[j].at + 1
    ensures After(buffer, answer, writes)[i] == answer(i)
  {
    var w := writes[|writes| - 1];
    if !(w.at <= i <= w.at + 1) {
      var front := writes[..|writes| - 1];
      var j :| 0 <= j < |writes| && writes[j].at <= i <= writes[j].at + 1;
      assert front[j] == writes[j];
      WrittenIsAnswer(buffer, answer, front, i);
    }
  }

  /** For every task count and tasklet count, and for every order in which the tasklets' writes can
      happen, each task below the count ends with its own answer. */
  lemma AnyOrderIsRight(tasks: nat, tasklets: nat, buffer: seq<nat>, answer: nat -> nat, writes: seq<Write>, i: nat)
    requires tasklets > 0 && |buffer| >= tasks + tasks % 2 && i < tasks
    requires forall j :: 0 <= j < |writes| ==> IsWrite(tasks, tasklets, writes[j])
    requires forall w :: IsWrite(tasks, tasklets, w) ==> w in writes
    ensures forall j :: 0 <= j < |writes| ==> writes[j].at + 1 < |buffer|
    ensures After(buffer, answer, writes)[i] == answer(i)
  {
    hide IsWrite, After;
    forall j | 0 <= j < |writes| ensures writes[j].at + 1 < |buffer| {
      WriteInBounds(tasks, tasklets, writes[j]);
    }
    var w := WriterOf(tasks, tasklets, i);
    assert w in writes;
    var j :| 0 <= j < |writes| && writes[j] == w;
    WrittenIsAnswer(buffer, answer, writes, i);
  }

  lemma WriteInBounds(tasks: nat, tasklets: nat, w: Write)
    requires IsWrite(tasks, tasklets, w)
    ensures w.at + 1 < tasks + tasks % 2
  {
    hide Range;
    RangeIsEven(tasks, tasklets, w.tasklet);
    var (start, ops) := Range(tasks, tasklets, w.tasklet);
    EvenGap(w.at, start + ops);
  }

  lemma EvenGap(a: nat, b: nat)
    requires a % 2 == 0 && b % 2 == 0 && a < b
    ensures a + 1 < b
  {
  }

  lemma WriterOf(tasks: nat, tasklets: nat, i: nat) returns (w: Write)
    requires tasklets > 0 && i < tasks
    ensures IsWrite(tasks, tasklets, w) && w.at <= i <= w.at + 1
  {
    var u := RangesCover(tasks, tasklets, tasklets - 1, i);
    RangeIsEven(tasks, tasklets, u);
    hide Range;
    w := Write(u, i - i % 2);
    assert IsWrite(tasks, tasklets, w);
  }
}
