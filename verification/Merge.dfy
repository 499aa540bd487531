/** The parallel merge of the key array with the buffer pages: every thread merges the pages and
    old keys of its range into its own interval of the new array. */
module Merge {
  import opened Order

  const PAGE_RATIO: nat := 8

  /** The pages' keys, one page after the other. */
  function Flat(pages: seq<seq<int>>): seq<int> {
    if pages == [] then [] else pages[0] + Flat(pages[1..])
  }

  lemma {:induction false} FlatConcat(a: seq<seq<int>>, b: seq<seq<int>>)
    ensures Flat(a + b) == Flat(a) + Flat(b)
  {
    if a == [] {
      assert a + b == b;
    } else {
      assert (a + b)[1..] == a[1..] + b;
      FlatConcat(a[1..], b);
    }
  }

  /** The merge of two ascending lists. */
  function Merged(a: seq<int>, b: seq<int>): (r: seq<int>)
    ensures |r| == |a| + |b|
    decreases |a| + |b|
  {
    if a == [] then b
    else if b == [] then a
    else if a[0] < b[0] then [a[0]] + Merged(a[1..], b)
    else [b[0]] + Merged(a, b[1..])
  }

  ghost predicate Disjoint(a: seq<int>, b: seq<int>) {
    forall i, j :: 0 <= i < |a| && 0 <= j < |b| ==> a[i] != b[j]
  }

  /** The merge of two ascending lists, where a key that is in both comes once. */
  function Union(a: seq<int>, b: seq<int>): (r: seq<int>)
    ensures |r| <= |a| + |b|
    decreases |a| + |b|
  {
    if a == [] then b
    else if b == [] then a
    else if a[0] < b[0] then [a[0]] + Union(a[1..], b)
    else if a[0] == b[0] then [b[0]] + Union(a[1..], b[1..])
    else [b[0]] + Union(a, b[1..])
  }

  /** Whether old keys are left over when the union has used up b. */
  predicate OldLast(a: seq<int>, b: seq<int>)
    decreases |a| + |b|
  {
    if a == [] then false
    else if b == [] then true
    else if a[0] < b[0] then OldLast(a[1..], b)
    else if a[0] == b[0] then OldLast(a[1..], b[1..])
    else OldLast(a, b[1..])
  }

  /** How many keys the union saves: one for each old key that is also buffered. */
  function Shared(a: seq<int>, b: seq<int>): nat {
    |a| + |b| - |Union(a, b)|
  }

  /** How many keys of the next range a thread writes behind its own: it goes on as long as it has slots, if it
      was reading old keys when its own ran out. */
  function Foreign(keys: seq<int>, lo: nat, hi: nat, b: seq<int>): (f: nat)
    requires lo <= hi <= |keys|
    ensures f <= |keys| - hi && f <= Shared(keys[lo..hi], b)
  {
    var s := Shared(keys[lo..hi], b);
    if !OldLast(keys[lo..hi], b) then 0 else if s < |keys| - hi then s else |keys| - hi
  }

  /** Everything that a thread with the old keys [lo, hi) and the buffered keys b writes. */
  function Output(keys: seq<int>, lo: nat, hi: nat, b: seq<int>): (r: seq<int>)
    requires lo <= hi <= |keys|
    ensures |r| <= hi - lo + |b|
  {
    Union(keys[lo..hi], b) + keys[hi..hi + Foreign(keys, lo, hi, b)]
  }

  // ---------------------------------------------------------------------------
  // One thread
  // ---------------------------------------------------------------------------

  /** Where a thread is in its pages: `off` keys of `page` are fetched, the last of them pending. */
  datatype Cursor = At(page: nat, off: nat) | Ended

  ghost predicate CursorOk(pages: seq<seq<int>>, c: Cursor) {
    c.At? ==> c.page < |pages| && 0 < c.off <= |pages[c.page]|
  }

  /** The keys still to come, the pending one first. */
  ghost function Rest(pages: seq<seq<int>>, c: Cursor): seq<int>
    requires CursorOk(pages, c)
  {
    if c.Ended? then [] else pages[c.page][c.off - 1..] + Flat(pages[c.page + 1..])
  }

  /** Skips empty pages, up to the end of the thread's range, and fetches the first key. */
  method FirstOfPages(pages: seq<seq<int>>, from: nat) returns (c: Cursor)
    requires from <= |pages|
    ensures CursorOk(pages, c) && Rest(pages, c) == Flat(pages[from..])
  {
    var page := from;
    while page < |pages| && |pages[page]| == 0
      invariant from <= page <= |pages| && Flat(pages[page..]) == Flat(pages[from..])
    {
      assert pages[page..][1..] == pages[page + 1..];
      page := page + 1;
    }
    if page < |pages| {
      assert pages[page..][1..] == pages[page + 1..];
      assert pages[page][0..] == pages[page];
      c := At(page, 1);
    } else {
      assert pages[page..] == [];
      c := Ended;
    }
  }

  method NextOfPages(pages: seq<seq<int>>, c0: Cursor) returns (c: Cursor)
    requires CursorOk(pages, c0) && c0.At?
    ensures CursorOk(pages, c) && Rest(pages, c) == Rest(pages, c0)[1..]
  {
    if c0.off < |pages[c0.page]| {
      c := At(c0.page, c0.off + 1);
    } else {
      assert pages[c0.page][c0.off - 1..] == [pages[c0.page][c0.off - 1]];
      c := FirstOfPages(pages, c0.page + 1);
    }
  }

  /** What a thread has to do: old keys [lo, hi), pages, and where it writes. */
  ghost predicate Job(keys: seq<int>, pages: seq<seq<int>>, lo: nat, hi: nat, out: array<int>, start: nat) {
    && lo <= hi <= |keys| && (lo < hi || Flat(pages) == [])
    && start + (hi - lo) + |Flat(pages)| <= out.Length
  }

  /** The old keys still to come; the pending one is at next - 1. */
  ghost function OldRest(keys: seq<int>, next: nat, ended: bool, hi: nat): seq<int>
    requires hi <= |keys|
  {
    if ended || next == 0 || next - 1 >= hi then [] else keys[next - 1..hi]
  }

  /** How many keys of the next range are out. */
  ghost function ForeignSoFar(keys: seq<int>, hi: nat, curOld: nat, oldEnd: bool, tail: bool): (f: nat)
    requires hi <= |keys| && curOld <= |keys|
    ensures f <= |keys| - hi
  {
    if oldEnd then (if tail then |keys| - hi else 0) else if curOld > hi + 1 then curOld - 1 - hi else 0
  }

  /** What is out and what is still to come from a and b make the union, and f keys of the next range. */
  ghost predicate Underway(all: seq<int>, done: seq<int>, a: seq<int>, b: seq<int>, foreign: seq<int>) {
    done + Union(a, b) == all + foreign
  }

  /** The state of a thread's loop; `tail` tells whether the old keys end last. An old key past the range is only
      ever pending once the pages have ended. */
  ghost predicate Running(keys: seq<int>, pages: seq<seq<int>>, lo: nat, hi: nat, done: seq<int>,
                          curOld: nat, oldEnd: bool, oldKey: int, c: Cursor)
    requires lo <= hi <= |keys|
  {
    var tail := OldLast(keys[lo..hi], Flat(pages));
    && CursorOk(pages, c) && lo < curOld <= |keys| && (!oldEnd ==> oldKey == keys[curOld - 1])
    && (!oldEnd && c.At? ==> curOld <= hi && OldLast(OldRest(keys, curOld, oldEnd, hi), Rest(pages, c)) == tail)
    && (!oldEnd && c.Ended? ==> tail)
    && (oldEnd && c.At? ==> !tail)
    && Underway(Union(keys[lo..hi], Flat(pages)), done, OldRest(keys, curOld, oldEnd, hi), Rest(pages, c),
                keys[hi..hi + ForeignSoFar(keys, hi, curOld, oldEnd, tail)])
  }

  lemma Regroup(x: seq<int>, y: seq<int>, z: seq<int>)
    ensures x + (y + z) == (x + y) + z
  {
  }

  lemma EmitOld(all: seq<int>, done: seq<int>, a: seq<int>, b: seq<int>, foreign: seq<int>)
    requires Underway(all, done, a, b, foreign) && a != [] && (b == [] || a[0] < b[0])
    ensures Underway(all, done + [a[0]], a[1..], b, foreign) && (b != [] ==> OldLast(a, b) == OldLast(a[1..], b))
  {
    assert Union(a, b) == [a[0]] + Union(a[1..], b);
    hide Union;
    Regroup(done, [a[0]], Union(a[1..], b));
  }

  lemma EmitShared(all: seq<int>, done: seq<int>, a: seq<int>, b: seq<int>, foreign: seq<int>)
    requires Underway(all, done, a, b, foreign) && a != [] && b != [] && a[0] == b[0]
    ensures Underway(all, done + [b[0]], a[1..], b[1..], foreign) && OldLast(a, b) == OldLast(a[1..], b[1..])
  {
    assert Union(a, b) == [b[0]] + Union(a[1..], b[1..]);
    hide Union;
    Regroup(done, [b[0]], Union(a[1..], b[1..]));
  }

  lemma EmitBuf(all: seq<int>, done: seq<int>, a: seq<int>, b: seq<int>, foreign: seq<int>)
    requires Underway(all, done, a, b, foreign) && b != [] && (a == [] || a[0] > b[0])
    ensures Underway(all, done + [b[0]], a, b[1..], foreign) && OldLast(a, b) == OldLast(a, b[1..])
  {
    assert Union(a, b) == [b[0]] + Union(a, b[1..]);
    hide Union;
    Regroup(done, [b[0]], Union(a, b[1..]));
  }

  /** One more key of the next range. */
  lemma EmitForeign(keys: seq<int>, hi: nat, at: nat, all: seq<int>, done: seq<int>)
    requires hi <= at < |keys| && Underway(all, done, [], [], keys[hi..at])
    ensures Underway(all, done + [keys[at]], [], [], keys[hi..at + 1])
  {
    assert keys[hi..at + 1] == keys[hi..at] + [keys[at]];
    Regroup(all, keys[hi..at], [keys[at]]);
  }

  /** The pending old key is the first one of the rest; the one after it, if it is in the range, comes next. */
  lemma OldRestFirst(keys: seq<int>, curOld: nat, hi: nat)
    requires 0 < curOld <= hi <= |keys|
    ensures var a := OldRest(keys, curOld, false, hi);
      && a != [] && a[0] == keys[curOld - 1] && a[1..] == OldRest(keys, curOld + 1, false, hi)
      && (curOld == hi ==> a[1..] == [])
  {
  }

  lemma RestFirst(pages: seq<seq<int>>, c: Cursor)
    requires CursorOk(pages, c) && c.At?
    ensures Rest(pages, c) != [] && Rest(pages, c)[0] == pages[c.page][c.off - 1]
  {
  }

  /** Both lists have keys left, and f is still zero. */
  ghost predicate Comparing(keys: seq<int>, pages: seq<seq<int>>, lo: nat, hi: nat, done: seq<int>,
                            a: seq<int>, b: seq<int>)
    requires lo <= hi <= |keys|
  {
    && Underway(Union(keys[lo..hi], Flat(pages)), done, a, b, [])
    && OldLast(a, b) == OldLast(keys[lo..hi], Flat(pages))
  }

  lemma StartCompare(keys: seq<int>, pages: seq<seq<int>>, lo: nat, hi: nat, done: seq<int>,
                     curOld: nat, oldKey: int, c: Cursor)
    requires lo <= hi <= |keys| && Running(keys, pages, lo, hi, done, curOld, false, oldKey, c) && c.At?
    ensures CursorOk(pages, c) && lo < curOld <= hi && oldKey == keys[curOld - 1]
    ensures Comparing(keys, pages, lo, hi, done, OldRest(keys, curOld, false, hi), Rest(pages, c))
  {
    assert keys[hi..hi] == [];
    hide Flat, Union, OldLast, Underway, Rest, OldRest;
  }

  lemma EndCompare(keys: seq<int>, pages: seq<seq<int>>, lo: nat, hi: nat, done: seq<int>,
                   curOld: nat, oldEnd: bool, oldKey: int, c: Cursor)
    requires lo < curOld <= hi <= |keys| && CursorOk(pages, c) && (!oldEnd ==> oldKey == keys[curOld - 1])
    requires Comparing(keys, pages, lo, hi, done, OldRest(keys, curOld, oldEnd, hi), Rest(pages, c))
    ensures Running(keys, pages, lo, hi, done, curOld, oldEnd, oldKey, c)
  {
    var a, b := OldRest(keys, curOld, oldEnd, hi), Rest(pages, c);
    OldLastEnds(a, b);
    EndedIsEmpty(pages, c);
    assert keys[hi..hi] == [];
    assert a == [] <==> oldEnd;
    hide Flat, Union, OldLast, Underway, Rest, OldRest;
  }

  /** A round with an old and a buffered key pending. */
  method CompareRound(keys: seq<int>, pages: seq<seq<int>>, ghost lo: nat, hi: nat, ghost done: seq<int>,
                      curOld0: nat, oldKey0: int, c0: Cursor)
    returns (key: int, curOld: nat, oldEnd: bool, oldKey: int, c: Cursor)
    requires lo <= hi <= |keys| && Running(keys, pages, lo, hi, done, curOld0, false, oldKey0, c0) && c0.At?
    ensures Running(keys, pages, lo, hi, done + [key], curOld, oldEnd, oldKey, c)
  {
    curOld, oldEnd, oldKey, c := curOld0, false, oldKey0, c0;
    ghost var a := OldRest(keys, curOld, false, hi);
    ghost var b := StartRest(keys, pages, lo, hi, done, curOld, oldKey, c);
    ghost var all := Union(keys[lo..hi], Flat(pages));
    OldRestFirst(keys, curOld, hi);
    assert OldRest(keys, curOld, true, hi) == [];
    hide Flat, Union, OldLast, Underway, Rest, OldRest, Running;
    var bufKey := pages[c.page][c.off - 1];
    if oldKey < bufKey {
      key := oldKey;
      EmitOld(all, done, a, b, []);
      if curOld < hi { oldKey := keys[curOld]; curOld := curOld + 1; } else { oldEnd := true; }
    } else {
      if oldKey == bufKey {
        EmitShared(all, done, a, b, []);
        if curOld < hi { oldKey := keys[curOld]; curOld := curOld + 1; } else { oldEnd := true; }
      } else {
        EmitBuf(all, done, a, b, []);
      }
      key := bufKey;
      c := NextOfPages(pages, c);
    }
    EndCompare(keys, pages, lo, hi, done + [key], curOld, oldEnd, oldKey, c);
  }

  lemma StartRest(keys: seq<int>, pages: seq<seq<int>>, lo: nat, hi: nat, done: seq<int>,
                  curOld: nat, oldKey: int, c: Cursor) returns (b: seq<int>)
    requires lo <= hi <= |keys| && Running(keys, pages, lo, hi, done, curOld, false, oldKey, c) && c.At?
    ensures CursorOk(pages, c) && lo < curOld <= hi && oldKey == keys[curOld - 1]
    ensures b == Rest(pages, c) && b != [] && b[0] == pages[c.page][c.off - 1]
    ensures Comparing(keys, pages, lo, hi, done, OldRest(keys, curOld, false, hi), b)
  {
    StartCompare(keys, pages, lo, hi, done, curOld, oldKey, c);
    RestFirst(pages, c);
    b := Rest(pages, c);
  }

  lemma OldLastEnds(a: seq<int>, b: seq<int>)
    ensures a == [] ==> !OldLast(a, b)
    ensures a != [] && b == [] ==> OldLast(a, b)
    ensures a != [] && b != [] && a[0] < b[0] ==> OldLast(a, b) == OldLast(a[1..], b)
    ensures a != [] && b != [] && a[0] < b[0] && a[1..] == [] ==> !OldLast(a, b)
  {
  }

  lemma EndedIsEmpty(pages: seq<seq<int>>, c: Cursor)
    requires CursorOk(pages, c)
    ensures Rest(pages, c) == [] <==> c.Ended?
  {
  }

  /** A round with only old keys left. It does not stop at the end of the range. */
  method OldRound(keys: seq<int>, ghost pages: seq<seq<int>>, ghost lo: nat, ghost hi: nat, ghost done: seq<int>,
                  curOld0: nat, oldKey0: int)
    returns (curOld: nat, oldEnd: bool, oldKey: int)
    requires lo <= hi <= |keys| && Running(keys, pages, lo, hi, done, curOld0, false, oldKey0, Ended)
    ensures Running(keys, pages, lo, hi, done + [oldKey0], curOld, oldEnd, oldKey, Ended)
  {
    curOld, oldEnd, oldKey := curOld0, false, oldKey0;
    ghost var a := OldRest(keys, curOld, false, hi);
    ghost var all := Union(keys[lo..hi], Flat(pages));
    hide Flat, Union, OldLast, Underway;
    if curOld <= hi {
      OldRestFirst(keys, curOld, hi);
      EmitOld(all, done, a, [], keys[hi..hi]);
    } else {
      EmitForeign(keys, hi, curOld - 1, all, done);
    }
    if curOld < |keys| { oldKey := keys[curOld]; curOld := curOld + 1; } else { oldEnd := true; }
  }

  /** One round of the loop; `emit` is false only for a round that finds nothing left. */
  method Round(keys: seq<int>, pages: seq<seq<int>>, ghost lo: nat, hi: nat, ghost done: seq<int>,
               curOld0: nat, oldEnd0: bool, oldKey0: int, c0: Cursor)
      returns (emit: bool, key: int, curOld: nat, oldEnd: bool, oldKey: int, c: Cursor)
    requires lo <= hi <= |keys| && Running(keys, pages, lo, hi, done, curOld0, oldEnd0, oldKey0, c0)
    ensures emit <==> !(oldEnd0 && c0.Ended?)
    ensures !emit ==> oldEnd && c.Ended?
    ensures Running(keys, pages, lo, hi, if emit then done + [key] else done, curOld, oldEnd, oldKey, c)
  {
    emit, key, curOld, oldEnd, oldKey, c := true, 0, curOld0, oldEnd0, oldKey0, c0;
    if !oldEnd && c.At? {
      key, curOld, oldEnd, oldKey, c := CompareRound(keys, pages, lo, hi, done, curOld, oldKey, c);
    } else if !oldEnd {
      key := oldKey;
      curOld, oldEnd, oldKey := OldRound(keys, pages, lo, hi, done, curOld, oldKey);
    } else if c.At? {
      key := pages[c.page][c.off - 1];
      RestFirst(pages, c);
      hide Flat, Union, OldLast, Underway, Rest;
      EmitBuf(Union(keys[lo..hi], Flat(pages)), done, [], Rest(pages, c), keys[hi..hi]);
      c := NextOfPages(pages, c);
    } else {
      emit := false;
    }
  }

  /** Merges old keys [lo, hi) with the pages into the interval of `out` from `start` on, and nowhere
      else. A thread without old keys or pages reads nothing here. */
  method MergeRange(keys: seq<int>, pages: seq<seq<int>>, lo: nat, hi: nat, count: nat, out: array<int>, start: nat)
    requires Job(keys, pages, lo, hi, out, start) && count == |Flat(pages)|
    modifies out
    ensures OnlyChanged(old(out[..]), out[..], start, start + (hi - lo) + count)
    ensures Emitted(out[..], start, Output(keys, lo, hi, Flat(pages)))
  {
    var ops := hi - lo + count;
    if ops == 0 { return; }
    var curOld: nat, curNew: nat, oldEnd, oldKey := lo + 1, start, false, keys[lo];
    var c := FirstOfPages(pages, 0);
    Begin(keys, pages, lo, hi, c);
    ghost var done, before := [], out[..];
    assert start + ops <= out.Length;
    hide *;
    NothingChanged(before, start, start + ops);
    for targets := 0 to ops
      invariant start <= curNew <= start + targets && |done| == curNew - start && Emitted(out[..], start, done)
      invariant curNew < start + targets ==> oldEnd && c.Ended?
      invariant Running(keys, pages, lo, hi, done, curOld, oldEnd, oldKey, c)
      invariant OnlyChanged(before, out[..], start, start + ops)
    {
      var emit, key;
      emit, key, curOld, oldEnd, oldKey, c := Round(keys, pages, lo, hi, done, curOld, oldEnd, oldKey, c);
      if emit {
        Put(out, before, start, done, curNew, start + ops, key);
        curNew := curNew + 1;
        done := done + [key];
      }
    }
    AllOut(keys, pages, lo, hi, done, curOld, oldEnd, oldKey, c);
  }

  ghost predicate Emitted(out: seq<int>, start: nat, done: seq<int>) {
    start + |done| <= |out| && forall i :: 0 <= i < |done| ==> out[start + i] == done[i]
  }

  lemma EmittedIsSlice(out: seq<int>, start: nat, done: seq<int>)
    requires Emitted(out, start, done)
    ensures start + |done| <= |out| && out[start..start + |done|] == done
  {
  }

  ghost predicate OnlyChanged(a: seq<int>, b: seq<int>, start: nat, end: nat) {
    |a| == |b| && forall i :: 0 <= i < |a| && !(start <= i < end) ==> b[i] == a[i]
  }

  lemma NothingChanged(a: seq<int>, start: nat, end: nat)
    ensures OnlyChanged(a, a, start, end) && (start <= |a| ==> Emitted(a, start, []))
  {
  }

  method Put(out: array<int>, ghost before: seq<int>, ghost start: nat, ghost done: seq<int>, at: nat,
             ghost end: nat, key: int)
    requires start + |done| == at < end <= out.Length && OnlyChanged(before, out[..], start, end)
    requires Emitted(out[..], start, done)
    modifies out
    ensures Emitted(out[..], start, done + [key]) && OnlyChanged(before, out[..], start, end)
  {
    out[at] := key;
  }

  lemma Begin(keys: seq<int>, pages: seq<seq<int>>, lo: nat, hi: nat, c: Cursor)
    requires lo < hi <= |keys| && CursorOk(pages, c) && Rest(pages, c) == Flat(pages[0..])
    ensures Running(keys, pages, lo, hi, [], lo + 1, false, keys[lo], c)
  {
    assert pages[0..] == pages;
    assert OldRest(keys, lo + 1, false, hi) == keys[lo..hi];
    assert keys[hi..hi] == [];
    hide Flat, Union, OldLast;
    OldLastEnds(keys[lo..hi], Flat(pages));
  }

  /** A thread that has used all its slots, or has nothing left, has written its output. */
  lemma AllOut(keys: seq<int>, pages: seq<seq<int>>, lo: nat, hi: nat, done: seq<int>,
               curOld: nat, oldEnd: bool, oldKey: int, c: Cursor)
    requires lo <= hi <= |keys| && Running(keys, pages, lo, hi, done, curOld, oldEnd, oldKey, c)
    requires |done| <= hi - lo + |Flat(pages)|
    requires |done| == hi - lo + |Flat(pages)| || (oldEnd && c.Ended?)
    ensures done == Output(keys, lo, hi, Flat(pages))
  {
    var b := Flat(pages);
    var all, tail := Union(keys[lo..hi], b), OldLast(keys[lo..hi], b);
    var rest := Union(OldRest(keys, curOld, oldEnd, hi), Rest(pages, c));
    var f := ForeignSoFar(keys, hi, curOld, oldEnd, tail);
    assert |done| + |rest| == |all| + f;
    assert f > 0 || (oldEnd && c.Ended?) ==> rest == [];
    hide Union, OldLast, Flat, Rest, OldRest;
    assert f == Foreign(keys, lo, hi, b) && rest == [];
  }

  // ---------------------------------------------------------------------------
  // What a merge is
  // ---------------------------------------------------------------------------

  lemma ElementsOfCons(x: int, s: seq<int>)
    ensures multiset([x] + s) == multiset{x} + multiset(s)
  {
  }

  lemma {:induction false} MergedElements(a: seq<int>, b: seq<int>)
    ensures multiset(Merged(a, b)) == multiset(a) + multiset(b)
    decreases |a| + |b|
  {
    if a != [] && b != [] {
      if a[0] < b[0] {
        MergedElements(a[1..], b);
        TakeOld(a, b);
        hide Merged;
        ElementsOfCons(a[0], Merged(a[1..], b));
        ElementsOfCons(a[0], a[1..]);
        assert a == [a[0]] + a[1..];
      } else {
        MergedElements(a, b[1..]);
        TakeBuf(a, b);
        hide Merged;
        ElementsOfCons(b[0], Merged(a, b[1..]));
        ElementsOfCons(b[0], b[1..]);
        assert b == [b[0]] + b[1..];
      }
    }
  }

  ghost predicate Below(s: seq<int>, bound: int) {
    forall i :: 0 <= i < |s| ==> s[i] < bound
  }

  ghost predicate From(s: seq<int>, bound: int) {
    forall i :: 0 <= i < |s| ==> bound <= s[i]
  }

  lemma {:induction false} MergedFrom(a: seq<int>, b: seq<int>, bound: int)
    requires From(a, bound) && From(b, bound)
    ensures From(Merged(a, b), bound)
    decreases |a| + |b|
  {
    if a != [] && b != [] {
      if a[0] < b[0] { MergedFrom(a[1..], b, bound); } else { MergedFrom(a, b[1..], bound); }
    }
  }

  lemma {:induction false} MergedAscends(a: seq<int>, b: seq<int>)
    requires Ascending(a) && Ascending(b)
    ensures Ascending(Merged(a, b))
    decreases |a| + |b|
  {
    if a != [] && b != [] {
      if a[0] < b[0] {
        MergedAscends(a[1..], b);
        MergedFrom(a[1..], b, a[0]);
        TakeOld(a, b);
      } else {
        MergedAscends(a, b[1..]);
        MergedFrom(a, b[1..], b[0]);
        TakeBuf(a, b);
      }
    }
  }

  /** A merge can be done in pieces that do not interleave. */
  lemma {:induction false} MergedInPieces(a: seq<int>, b: seq<int>, a2: seq<int>, b2: seq<int>, bound: int)
    requires Below(a, bound) && Below(b, bound) && From(a2, bound) && From(b2, bound)
    ensures Merged(a + a2, b + b2) == Merged(a, b) + Merged(a2, b2)
    decreases |a| + |b|
  {
    if a == [] && b == [] {
      assert a + a2 == a2 && b + b2 == b2;
    } else if a != [] && (b == [] || a[0] < b[0]) {
      MergedInPieces(a[1..], b, a2, b2, bound);
      PiecesOld(a, b, a2, b2);
    } else {
      MergedInPieces(a, b[1..], a2, b2, bound);
      PiecesBuf(a, b, a2, b2);
    }
  }

  lemma TailOfConcat(a: seq<int>, b: seq<int>)
    requires a != []
    ensures a + b != [] && (a + b)[0] == a[0] && (a + b)[1..] == a[1..] + b
  {
  }

  lemma HeadOfConcat(a: seq<int>, b: seq<int>)
    ensures a == [] && b == [] ==> a + b == []
    ensures a == [] && b != [] ==> a + b != [] && (a + b)[0] == b[0]
    ensures a != [] ==> a + b != [] && (a + b)[0] == a[0]
  {
  }

  lemma PiecesOld(a: seq<int>, b: seq<int>, a2: seq<int>, b2: seq<int>)
    requires a != [] && (b == [] || a[0] < b[0]) && (b == [] && b2 != [] ==> a[0] < b2[0])
    ensures Merged(a, b) == [a[0]] + Merged(a[1..], b)
    ensures Merged(a + a2, b + b2) == [a[0]] + Merged(a[1..] + a2, b + b2)
  {
    hide Merged;
    TakeOld(a, b);
    TailOfConcat(a, a2);
    HeadOfConcat(b, b2);
    TakeOld(a + a2, b + b2);
  }

  lemma PiecesBuf(a: seq<int>, b: seq<int>, a2: seq<int>, b2: seq<int>)
    requires b != [] && (a == [] || a[0] >= b[0]) && (a == [] && a2 != [] ==> a2[0] >= b[0])
    ensures Merged(a, b) == [b[0]] + Merged(a, b[1..])
    ensures Merged(a + a2, b + b2) == [b[0]] + Merged(a + a2, b[1..] + b2)
  {
    hide Merged;
    TakeBuf(a, b);
    TailOfConcat(b, b2);
    HeadOfConcat(a, a2);
    TakeBuf(a + a2, b + b2);
  }

  lemma TakeOld(a: seq<int>, b: seq<int>)
    requires a != [] && (b == [] || a[0] < b[0])
    ensures Merged(a, b) == [a[0]] + Merged(a[1..], b)
  {
  }

  lemma TakeBuf(a: seq<int>, b: seq<int>)
    requires b != [] && (a == [] || a[0] >= b[0])
    ensures Merged(a, b) == [b[0]] + Merged(a, b[1..])
  {
  }

  // ---------------------------------------------------------------------------
  // What a thread's output is
  // ---------------------------------------------------------------------------

  ghost function SetOf(s: seq<int>): set<int> { set x | x in s }

  lemma {:induction false} UnionOfDisjoint(a: seq<int>, b: seq<int>)
    requires Disjoint(a, b)
    ensures Union(a, b) == Merged(a, b)
    decreases |a| + |b|
  {
    if a != [] && b != [] {
      assert a[0] != b[0];
      if a[0] < b[0] { UnionOfDisjoint(a[1..], b); } else { UnionOfDisjoint(a, b[1..]); }
    }
  }

  lemma HeadAndTail(s: seq<int>)
    requires s != []
    ensures SetOf(s) == {s[0]} + SetOf(s[1..])
  {
    assert s == [s[0]] + s[1..];
  }

  lemma SetOfCons(x: int, s: seq<int>)
    ensures SetOf([x] + s) == {x} + SetOf(s)
  {
  }

  /** The union has exactly the keys of both. */
  lemma {:induction false} UnionElements(a: seq<int>, b: seq<int>)
    ensures SetOf(Union(a, b)) == SetOf(a) + SetOf(b)
    decreases |a| + |b|
  {
    if a != [] && b != [] {
      HeadAndTail(a);
      HeadAndTail(b);
      if a[0] < b[0] {
        UnionElements(a[1..], b);
        SetOfCons(a[0], Union(a[1..], b));
      } else if a[0] == b[0] {
        UnionElements(a[1..], b[1..]);
        SetOfCons(b[0], Union(a[1..], b[1..]));
      } else {
        UnionElements(a, b[1..]);
        SetOfCons(b[0], Union(a, b[1..]));
      }
    }
  }

  lemma StrictCons(x: int, s: seq<int>)
    requires Strict(s) && From(s, x + 1)
    ensures Strict([x] + s)
  {
  }

  lemma {:induction false} UnionFrom(a: seq<int>, b: seq<int>, bound: int)
    requires From(a, bound) && From(b, bound)
    ensures From(Union(a, b), bound)
    decreases |a| + |b|
  {
    if a != [] && b != [] {
      if a[0] < b[0] { UnionFrom(a[1..], b, bound); }
      else if a[0] == b[0] { UnionFrom(a[1..], b[1..], bound); }
      else { UnionFrom(a, b[1..], bound); }
    }
  }

  /** Strictly ascending lists have a strictly ascending union. */
  lemma {:induction false} UnionIsStrict(a: seq<int>, b: seq<int>)
    requires Strict(a) && Strict(b)
    ensures Strict(Union(a, b))
    decreases |a| + |b|
  {
    if a != [] && b != [] {
      var x := if a[0] < b[0] then a[0] else b[0];
      var a', b' := if a[0] == x then a[1..] else a, if b[0] == x then b[1..] else b;
      UnionIsStrict(a', b');
      UnionFrom(a', b', x + 1);
      assert Union(a, b) == [x] + Union(a', b');
      StrictCons(x, Union(a', b'));
    }
  }

  lemma SharedStep(a: seq<int>, b: seq<int>)
    requires a != [] && b != []
    ensures a[0] < b[0] ==> Shared(a, b) == Shared(a[1..], b)
    ensures a[0] == b[0] ==> Shared(a, b) == 1 + Shared(a[1..], b[1..])
    ensures a[0] > b[0] ==> Shared(a, b) == Shared(a, b[1..])
  {
  }

  /** How many different keys two lists have in common. */
  ghost function Common(a: seq<int>, b: seq<int>): nat {
    |SetOf(a) * SetOf(b)|
  }

  lemma CommonOld(a: seq<int>, b: seq<int>)
    requires Ascending(b) && a != [] && b != [] && a[0] < b[0]
    ensures Common(a, b) == Common(a[1..], b)
  {
    HeadAndTail(a);
    NotBelow(b, a[0]);
    hide SetOf;
    CommonSkips(a[0], SetOf(a[1..]), SetOf(b));
  }

  lemma CommonBuf(a: seq<int>, b: seq<int>)
    requires Ascending(a) && a != [] && b != [] && a[0] > b[0]
    ensures Common(a, b) == Common(a, b[1..])
  {
    HeadAndTail(b);
    NotBelow(a, b[0]);
    hide SetOf;
    assert SetOf(a) * SetOf(b) == SetOf(b) * SetOf(a) && SetOf(a) * SetOf(b[1..]) == SetOf(b[1..]) * SetOf(a);
    CommonSkips(b[0], SetOf(b[1..]), SetOf(a));
  }

  lemma CommonBoth(a: seq<int>, b: seq<int>)
    requires Strict(a) && a != [] && b != [] && a[0] == b[0]
    ensures Common(a, b) == 1 + Common(a[1..], b[1..])
  {
    HeadAndTail(a);
    HeadAndTail(b);
    NotBelow(a[1..], a[0]);
    hide SetOf;
    CommonKey(a[0], SetOf(a[1..]), SetOf(b[1..]));
  }

  /** The union saves exactly the keys that are in both. */
  lemma {:induction false} SharedIsCommon(a: seq<int>, b: seq<int>)
    requires Strict(a) && Ascending(b)
    ensures Shared(a, b) == Common(a, b)
    decreases |a| + |b|
  {
    if a == [] || b == [] {
      assert SetOf(a) * SetOf(b) == {};
    } else {
      SharedStep(a, b);
      hide Shared, Common, SetOf;
      if a[0] < b[0] {
        CommonOld(a, b);
        SharedIsCommon(a[1..], b);
      } else if a[0] == b[0] {
        CommonBoth(a, b);
        SharedIsCommon(a[1..], b[1..]);
      } else {
        CommonBuf(a, b);
        SharedIsCommon(a, b[1..]);
      }
    }
  }

  lemma NotBelow(s: seq<int>, x: int)
    requires From(s, x + 1) || (s != [] && Ascending(s) && x < s[0])
    ensures x !in SetOf(s)
  {
  }

  lemma CommonSkips(x: int, a: set<int>, b: set<int>)
    requires x !in b
    ensures ({x} + a) * b == a * b
  {
  }

  lemma CommonKey(x: int, a: set<int>, b: set<int>)
    requires x !in a
    ensures |({x} + a) * ({x} + b)| == 1 + |a * b|
  {
    assert ({x} + a) * ({x} + b) == {x} + a * b;
  }

  /** The last key stays last until it is taken itself. */
  lemma LastOfTail(s: seq<int>)
    requires s != []
    ensures s[1..] != [] ==> s[1..][|s[1..]| - 1] == s[|s| - 1]
    ensures s[1..] == [] ==> s[|s| - 1] == s[0]
    ensures Ascending(s) ==> s[0] <= s[|s| - 1] && Ascending(s[1..])
    ensures Strict(s) ==> (s[1..] != [] ==> s[0] < s[|s| - 1]) && Strict(s[1..])
  {
  }

  /** The old keys end last iff the largest one is above the largest buffered one. */
  lemma {:induction false} OldLastIsLarger(a: seq<int>, b: seq<int>)
    requires Strict(a) && Ascending(b) && a != [] && b != []
    ensures OldLast(a, b) <==> a[|a| - 1] > b[|b| - 1]
    decreases |a| + |b|
  {
    var a', b' := if a[0] <= b[0] then a[1..] else a, if a[0] >= b[0] then b[1..] else b;
    LastOfTail(a);
    LastOfTail(b);
    assert OldLast(a, b) == OldLast(a', b');
    assert a' == [] ==> !OldLast(a', b');
    assert a' != [] && b' == [] ==> OldLast(a', b');
    hide OldLast, Strict, Ascending;
    if a' != [] && b' != [] { OldLastIsLarger(a', b'); }
  }

  /** What a thread writes, for any old and buffered keys: the union of both, a shared key once; then, if its
      largest old key is above its largest buffered one, the first keys of the next range, one per shared key and
      as far as there are any. The slots after that stay as they were. */
  lemma OutputIsUnion(keys: seq<int>, lo: nat, hi: nat, b: seq<int>) returns (u: seq<int>, f: nat)
    requires Strict(keys) && Ascending(b) && lo < hi <= |keys|
    ensures SetOf(u) == SetOf(keys[lo..hi]) + SetOf(b) && (Strict(b) ==> Strict(u))
    ensures |u| + Common(keys[lo..hi], b) == hi - lo + |b|
    ensures f == if b == [] || b[|b| - 1] >= keys[hi - 1] then 0
                 else if Common(keys[lo..hi], b) < |keys| - hi then Common(keys[lo..hi], b) else |keys| - hi
    ensures hi + f <= |keys| && Output(keys, lo, hi, b) == u + keys[hi..hi + f]
  {
    var a := keys[lo..hi];
    u, f := Union(a, b), Foreign(keys, lo, hi, b);
    assert Strict(a) && a[|a| - 1] == keys[hi - 1];
    hide Strict, Ascending, SetOf, Union, OldLast;
    UnionElements(a, b);
    SharedIsCommon(a, b);
    if Strict(b) { UnionIsStrict(a, b); }
    if b != [] { OldLastIsLarger(a, b); } else { NothingCommon(a); }
  }

  lemma NothingCommon(a: seq<int>)
    ensures Common(a, []) == 0
  {
    assert SetOf(a) * SetOf([]) == {};
  }

  /** Key 10 is old and buffered: a thread with old keys 10 and 20 writes it once and has a slot left, which takes
      key 30 of the next range; without a next range, or with 20 buffered too, the slot stays unwritten. */
  lemma ForeignKey()
    ensures Output([10, 20, 30], 0, 2, [10]) == [10, 20, 30]
    ensures Output([10, 20], 0, 2, [10]) == [10, 20]
    ensures Output([10, 20, 30], 0, 2, [20]) == [10, 20]
  {
    assert [10, 20, 30][0..2] == [10, 20] && [10, 20][0..2] == [10, 20];
    assert [10, 20][1..] == [20] && [10][1..] == [] && [20][1..] == [];
    assert Union([20], []) == [20] && Union([10, 20], [10]) == [10, 20] && Union([10, 20], [20]) == [10, 20];
    assert OldLast([20], []) && OldLast([10, 20], [10]) && !OldLast([10, 20], [20]);
  }
}
