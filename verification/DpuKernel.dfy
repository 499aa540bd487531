/** The lookup that runs on a DPU: descent by scanning, last-mile binary search, result check. */
module DpuKernel {
  import opened Prediction
  import opened Levels
  import opened PgmIndex

  const EPSILON_RECURSIVE_DPU: nat := 64
  const INVALID_POS: nat := 1000000000
  const MOV_NUM: nat := 3
  const WORD: nat := 0x1_0000_0000

  /** A 32-bit left shift by MOV_NUM. */
  function Shifted32(pos: int): (r: nat)
    ensures r < WORD
  {
    pos * 8 % WORD
  }

  /** The kernel truncates the sum of product and intercept, the host only the product. */
  function TruncatedSum(s: Segment, k: int): int
    requires s.dx > 0
  {
    TruncDiv(s.dy * (k - s.key) + s.intercept * s.dx, s.dx)
  }

  /** Once cut off at zero the two agree. */
  lemma SumAgrees(s: Segment, k: int)
    requires s.dx > 0
    ensures (if TruncatedSum(s, k) < 0 then 0 else TruncatedSum(s, k)) == Predict(s, k)
  {
    var a := s.dy * (k - s.key);
    var q := a / s.dx;
    DivBounds(a, s.dx);
    var n := a + s.intercept * s.dx;
    AddMultiple(a, s.dx, s.intercept);
    if n >= 0 {
      assert TruncDiv(n, s.dx) == n / s.dx;
      ProductGrowsBack(s.dx, n);
    } else {
      QuotientBelowZero(n, s.dx);
    }
  }

  lemma AddMultiple(a: int, d: int, c: int)
    requires d > 0
    ensures (a + c * d) / d == a / d + c
  {
    DivBounds(a, d);
    DivBounds(a + c * d, d);
    var x, y := (a + c * d) / d, a / d + c;
    assert d * y == d * (a / d) + c * d;
    SameQuotient(d, x, y, a + c * d);
  }

  lemma SameQuotient(d: int, x: int, y: int, n: int)
    requires d > 0 && d * x <= n < d * x + d && d * y <= n < d * y + d
    ensures x == y
  {
    if x < y {
      ProductGrows(d, x + 1, y);
    } else if y < x {
      ProductGrows(d, y + 1, x);
    }
  }

  lemma ProductGrowsBack(d: int, n: int)
    requires d > 0 && n >= 0
    ensures n / d >= 0
  {
  }

  lemma QuotientBelowZero(n: int, d: int)
    requires d > 0 && n < 0
    ensures n / d < 0 && TruncDiv(n, d) <= 0
  {
    DivBounds(n, d);
  }

  // ---------------------------------------------------------------------------
  // Descent
  // ---------------------------------------------------------------------------

  /** The arguments block describes an index over the keys in the DPU's memory. */
  ghost predicate Loaded(keys: seq<int>, epsilon: nat, model: seq<Segment>, level_offset: seq<int>) {
    && |keys| >= 1 && Indexable(keys) && epsilon >= 1
    && IndexOver(keys, epsilon, EPSILON_RECURSIVE_DPU, model, level_offset)
  }

  /** Binary search for the responsible model of the start level. */
  method StartModel(keys: seq<int>, epsilon: nat, model: seq<Segment>, level_offset: seq<int>, start_level: nat,
                    key: int)
    returns (cur_offset: int)
    requires Loaded(keys, epsilon, model, level_offset) && start_level < |level_offset| - 1
    requires keys[0] <= key < MAX_KEY
    ensures level_offset[start_level] <= cur_offset < level_offset[start_level + 1] - 1
    ensures Responsible(Entries(Level(model, level_offset, start_level)), cur_offset - level_offset[start_level], key)
  {
    var l, r := level_offset[start_level], level_offset[start_level + 1] - 1;
    ghost var begin, end := l, r;
    ghost var entries := StartEntries(keys, epsilon, model, level_offset, start_level, key);
    hide *;
    var mid := l;
    while l < r
      invariant begin <= l <= r <= end
      invariant forall i :: begin <= i < l ==> model[i].key <= key
      invariant forall i :: r <= i < end ==> model[i].key > key
      decreases r - l
    {
      mid := l + (r - l) / 2;
      if model[mid].key <= key {
        l := mid + 1;
      } else {
        r := mid;
      }
    }
    cur_offset := l - 1;
    LastIsResponsible(model, entries, begin, l - 1, key);
  }

  /** What the search of a level relies on: its entries are in order and start at or below the key. */
  lemma StartEntries(keys: seq<int>, epsilon: nat, model: seq<Segment>, level_offset: seq<int>, start_level: nat,
                     key: int)
    returns (entries: seq<int>)
    requires Loaded(keys, epsilon, model, level_offset) && start_level < |level_offset| - 1
    requires keys[0] <= key < MAX_KEY
    ensures 0 <= level_offset[start_level] < level_offset[start_level + 1] - 1 < |model|
    ensures level_offset[start_level + 1] <= |model|
    ensures entries == Entries(Level(model, level_offset, start_level))
    ensures |entries| == level_offset[start_level + 1] - level_offset[start_level] - 1
    ensures forall j :: 0 <= j < |entries| ==> entries[j] == model[level_offset[start_level] + j].key
    ensures forall i, j :: level_offset[start_level] <= i < j < level_offset[start_level] + |entries| ==>
      model[i].key <= model[j].key
    ensures entries[0] <= key
  {
    hide LevelInPlace, TailSorted, GoodSlope;
    LevelFacts(keys, epsilon, EPSILON_RECURSIVE_DPU, model, level_offset, start_level);
    FirstKeys(keys, epsilon, EPSILON_RECURSIVE_DPU, model, level_offset, start_level);
    entries := Entries(Level(model, level_offset, start_level));
    KeysInRange(model, entries, level_offset[start_level]);
  }

  lemma LastIsResponsible(model: seq<Segment>, entries: seq<int>, begin: nat, at: int, key: int)
    requires begin + |entries| <= |model| && begin <= at < begin + |entries|
    requires forall j :: 0 <= j < |entries| ==> entries[j] == model[begin + j].key
    requires forall i :: begin <= i <= at ==> model[i].key <= key
    requires forall i :: at < i < begin + |entries| ==> model[i].key > key
    ensures Responsible(entries, at - begin, key)
  {
  }

  /** One level down: predict, step back by the window, scan right. */
  method ScanDown(keys: seq<int>, epsilon: nat, model: seq<Segment>, level_offset: seq<int>, cur_level: nat,
                  from: int, key: int)
    returns (cur_offset: int, ghost steps: nat)
    requires Loaded(keys, epsilon, model, level_offset) && cur_level + 2 < |level_offset|
    requires keys[0] <= key < MAX_KEY
    requires level_offset[cur_level + 1] <= from < level_offset[cur_level + 2] - 1
    requires Responsible(Entries(Level(model, level_offset, cur_level + 1)), from - level_offset[cur_level + 1], key)
    ensures level_offset[cur_level] <= cur_offset < level_offset[cur_level + 1] - 1
    ensures Responsible(Entries(Level(model, level_offset, cur_level)), cur_offset - level_offset[cur_level], key)
    ensures cur_offset + 1 < level_offset[cur_level + 1] - 1 ==> model[cur_offset + 1].key > key
    ensures steps <= 2 * EPSILON_RECURSIVE_DPU + 3
  {
    hide IndexOver, Responsible, TailSorted, IsFloor, InWindow, Predict, TruncatedSum, Indexable, Level, Entries;
    ghost var below, f := StepReady(keys, epsilon, EPSILON_RECURSIVE_DPU, model, level_offset, cur_level, from, key);
    var level_begin := level_offset[cur_level];
    ghost var end := level_begin + |below|;
    var top := level_offset[|level_offset| - 1];
    var pos := TruncatedSum(model[from], key);
    SumAgrees(model[from], key);
    if pos < 0 { pos := 0; }
    EndOfModels(keys, epsilon, model, level_offset, from);
    if from < top {
      if pos > model[from + 1].intercept {
        pos := model[from + 1].intercept;
      }
    }
    ghost var predicted := pos;
    if pos > EPSILON_RECURSIVE_DPU + 1 {
      pos := pos - EPSILON_RECURSIVE_DPU - 1;
    } else {
      pos := 0;
    }
    WindowStart(below, f, key, predicted);
    var next_level_lo := level_begin + pos;
    cur_offset := next_level_lo;
    while cur_offset + 1 < top && model[cur_offset + 1].key <= key
      invariant next_level_lo <= cur_offset < end
      invariant forall i :: pos < i <= cur_offset - level_begin ==> below[i] <= key
      decreases end - cur_offset
    {
      cur_offset := cur_offset + 1;
    }
    ScanStep(below, key, f, predicted, EPSILON_RECURSIVE_DPU, cur_offset - level_begin);
    steps := cur_offset - next_level_lo;
  }

  lemma EndOfModels(keys: seq<int>, epsilon: nat, model: seq<Segment>, level_offset: seq<int>, from: int)
    requires Loaded(keys, epsilon, model, level_offset)
    ensures level_offset[|level_offset| - 1] == |model|
    ensures forall l :: 0 <= l < |level_offset| ==> level_offset[l] <= |model|
  {
    hide LevelInPlace;
  }

  lemma WindowStart(below: seq<int>, f: int, key: int, pos: int)
    requires TailSorted(below) && IsFloor(below, f, key) && InWindow(pos, below, f, key, EPSILON_RECURSIVE_DPU)
    ensures 0 <= SubEps(pos, EPSILON_RECURSIVE_DPU + 1) <= f
  {
  }

  /** From any start level the descent ends on the last level-0 model whose key is at most k:
      the model that a flat search of level 0 finds. */
  method Descend(keys: seq<int>, epsilon: nat, model: seq<Segment>, level_offset: seq<int>, start_level: nat, key: int)
    returns (cur_offset: int)
    requires Loaded(keys, epsilon, model, level_offset) && start_level < |level_offset| - 1
    requires keys[0] <= key < MAX_KEY
    ensures 0 <= cur_offset < level_offset[1] - 1 && model[cur_offset].key <= key
    ensures forall j :: cur_offset < j < level_offset[1] - 1 ==> key < model[j].key
    ensures Responsible(Entries(Level(model, level_offset, 0)), cur_offset, key)
  {
    hide LevelInPlace, Responsible, Indexable;
    cur_offset := StartModel(keys, epsilon, model, level_offset, start_level, key);
    var cur_level: int := start_level - 1;
    while cur_level >= 0
      invariant -1 <= cur_level < start_level
      invariant level_offset[cur_level + 1] <= cur_offset < level_offset[cur_level + 2] - 1
      invariant Responsible(Entries(Level(model, level_offset, cur_level + 1)),
                            cur_offset - level_offset[cur_level + 1], key)
      decreases cur_level
    {
      ghost var steps;
      cur_offset, steps := ScanDown(keys, epsilon, model, level_offset, cur_level, cur_offset, key);
      cur_level := cur_level - 1;
    }
    BottomIsLast(keys, epsilon, EPSILON_RECURSIVE_DPU, model, level_offset, cur_offset, key);
  }

  // ---------------------------------------------------------------------------
  // Last mile and result
  // ---------------------------------------------------------------------------

  /** What the kernel answers for a key whose floor in the partition is f. */
  function Answer(n: nat, start_pos: nat, f: nat): nat {
    if f + 1 < n then Shifted32(f + start_pos) else INVALID_POS
  }

  /** `unverified` tells whether the branch that answers without a check was taken. */
  method SearchQuery(keys: seq<int>, epsilon: nat, model: seq<Segment>, level_offset: seq<int>, start_level: nat,
                     start_pos: nat, key: int, ghost f: nat)
    returns (pos: nat, ghost unverified: bool)
    requires Loaded(keys, epsilon, model, level_offset) && start_level < |level_offset| - 1
    requires keys[0] <= key < MAX_KEY && IsFloor(keys, f, key)
    ensures pos == Answer(|keys|, start_pos, f)
    ensures !unverified
  {
    hide IndexOver, LevelsOver, LevelInPlace, Responsible, Raw;
    var cur_offset := Descend(keys, epsilon, model, level_offset, start_level, key);
    var input_size := |keys|;
    ghost var top := LastMile(keys, epsilon, model, level_offset, cur_offset, key, f);
    var predicted_pos := Raw(model[cur_offset], key);
    if cur_offset + 1 < level_offset[1] - 1 && model[cur_offset + 1].intercept < predicted_pos {
      predicted_pos := model[cur_offset + 1].intercept;
    }
    var l := if predicted_pos > epsilon then predicted_pos - epsilon else 0;
    var r := predicted_pos + epsilon + 2;
    if r < 0 || r >= input_size {
      r := input_size;
    }
    ghost var l0, r0 := l, r;
    while l < r
      invariant l0 <= l && (l <= r || r == r0) && 0 <= r <= r0
      invariant forall i :: l0 <= i < l && i < |keys| ==> keys[i] <= key
      invariant forall i :: r <= i < r0 ==> keys[i] > key
      invariant l > l0 ==> l <= r
      decreases r - l
    {
      var mid := l + (r - l) / 2;
      if keys[mid] <= key {
        l := mid + 1;
      } else {
        r := mid;
      }
    }
    unverified := false;
    if l > input_size - 1 {
      pos := INVALID_POS;
    } else {
      if keys[l - 1] <= key && keys[l] > key {
        pos := Shifted32(l - 1 + start_pos);
      } else {
        if l == input_size - 1 {
          unverified := true;
          pos := Shifted32(l - 1 + start_pos);
        } else {
          pos := INVALID_POS;
        }
      }
    }
  }

  /** The last-mile range starts at or before f + 1 and ends after f, whenever f + 1 is in range. */
  lemma LastMile(keys: seq<int>, epsilon: nat, model: seq<Segment>, level_offset: seq<int>, it: int, key: int, f: nat)
    returns (top: bool)
    requires Loaded(keys, epsilon, model, level_offset)
    requires 0 <= it < level_offset[1] - 1
    requires Responsible(Entries(Level(model, level_offset, 0)), it, key) && IsFloor(keys, f, key)
    ensures level_offset[1] <= |model| && model[it].dx > 0 && top == (it + 2 == level_offset[1])
    ensures var p := Raw(model[it], key);
      var q := if !top && model[it + 1].intercept < p then model[it + 1].intercept else p;
      && q >= f - epsilon - 1
      && (f + 1 < |keys| ==> q <= f + 1 + epsilon)
  {
    hide LevelInPlace, Responsible, Raw;
    top := it + 2 == level_offset[1];
    LevelFacts(keys, epsilon, EPSILON_RECURSIVE_DPU, model, level_offset, 0);
    StrictIsTailSorted(keys);
    DataWindow(keys, epsilon, EPSILON_RECURSIVE_DPU, model, level_offset, it, key, f);
  }

  /** The reserved value is 8 * 125000000, so one position in every 2^29 reads as "not found":
      the host may trust INVALID_POS as "past the last key" exactly when that position is not hit. */
  lemma InvalidIsAmbiguous(n: nat, start_pos: nat, f: nat)
    requires f < n
    ensures Answer(n, start_pos, f) == INVALID_POS <==> f + 1 == n || (f + start_pos) % 0x2000_0000 == 125000000
  {
    var p := f + start_pos;
    var q := p / 0x2000_0000;
    assert p * 8 == q * WORD + (p % 0x2000_0000) * 8;
    assert p * 8 % WORD == (p % 0x2000_0000) * 8;
  }

  /** Without wrap-around the answer decodes to the floor's global position. */
  lemma AnswerDecodes(n: nat, start_pos: nat, f: nat)
    requires f + 1 < n && n + start_pos <= 0x2000_0000
    ensures Answer(n, start_pos, f) / 8 == f + start_pos && Answer(n, start_pos, f) % 8 == 0
  {
  }

  // ---------------------------------------------------------------------------
  // Where the descent starts
  // ---------------------------------------------------------------------------

  const ACCESS_WRAM_COST: int := 4
  const PREDICTION_COST: int := 45

  /** The exponent of a float, which is what FastLog2 extracts. */
  function Log2(x: int): (e: int)
    requires x >= 1
    ensures e >= 0 && (x >= 2 ==> e >= 1)
    decreases x
  {
    if x < 2 then 0 else Log2(x / 2) + 1
  }

  function PowerOf2(k: nat): int { if k == 0 then 1 else 2 * PowerOf2(k - 1) }

  lemma {:induction false} LogBounds(x: int)
    requires x >= 1
    ensures PowerOf2(Log2(x)) <= x < 2 * PowerOf2(Log2(x))
    decreases x
  {
    if x >= 2 { LogBounds(x / 2); }
  }

  lemma {:induction false} PowerGrows(a: nat, b: nat)
    requires a <= b
    ensures 1 <= PowerOf2(a) <= PowerOf2(b)
    decreases b
  {
    if a < b { PowerGrows(a, b - 1); } else if b > 0 { PowerGrows(a - 1, b - 1); }
  }

  lemma FourMore(k: nat)
    ensures PowerOf2(k + 4) == 16 * PowerOf2(k)
  {
    assert PowerOf2(k + 1) == 2 * PowerOf2(k);
    assert PowerOf2(k + 2) == 2 * PowerOf2(k + 1);
    assert PowerOf2(k + 3) == 2 * PowerOf2(k + 2);
    assert PowerOf2(k + 4) == 2 * PowerOf2(k + 3);
  }

  lemma TwelveMore(k: nat)
    ensures PowerOf2(k + 12) == 4096 * PowerOf2(k)
  {
    FourMore(k);
    FourMore(k + 4);
    FourMore(k + 8);
  }

  /** Predicting pays from a few thousand times epsilon entries on: the cost of a prediction is that of eleven to
      twelve halvings. */
  lemma WorthAtThousands(n: int, epsilon: nat)
    requires n >= 1 && epsilon >= 1
    ensures WorthPredicting(n, epsilon) ==> n > 4096 * epsilon
    ensures n >= 8192 * epsilon ==> WorthPredicting(n, epsilon)
  {
    var a, b := Log2(n), Log2(2 * epsilon);
    LogBounds(n);
    LogBounds(2 * epsilon);
    TwelveMore(b);
    assert WorthPredicting(n, epsilon) <==> a >= b + 12;
    hide Log2, PowerOf2, WorthPredicting;
    if a >= b + 12 { PowerGrows(b + 12, a); } else { PowerGrows(a + 1, b + 12); Doubled(a); }
  }

  lemma Doubled(k: nat)
    ensures PowerOf2(k + 1) == 2 * PowerOf2(k)
  {
  }

  /** The lowest level at which searching the whole level is estimated to be cheaper than predicting. It is
      always a level of the index, because the top level has two entries. */
  method ChooseStartLevel(keys: seq<int>, epsilon: nat, model: seq<Segment>, level_offset: seq<int>)
    returns (start_level: nat)
    requires Loaded(keys, epsilon, model, level_offset)
    ensures start_level < |level_offset| - 1
    ensures forall l :: 0 <= l < start_level ==> WorthPredicting(level_offset[l + 1] - level_offset[l], epsilon)
    ensures !WorthPredicting(level_offset[start_level + 1] - level_offset[start_level], epsilon)
    ensures |model| <= MAX_MODEL_SIZE ==> start_level == 0
  {
    if |model| <= MAX_MODEL_SIZE { WorthAtThousands(level_offset[1] - level_offset[0], epsilon); }
    var max_levels := |level_offset| - 1;
    start_level := 0;
    assert !WorthPredicting(2, epsilon);
    while start_level < max_levels &&
          WorthPredicting(level_offset[start_level + 1] - level_offset[start_level], epsilon)
      invariant start_level < max_levels
      invariant forall l :: 0 <= l < start_level ==> WorthPredicting(level_offset[l + 1] - level_offset[l], epsilon)
    {
      start_level := start_level + 1;
    }
  }

  predicate WorthPredicting(level_num: int, epsilon: nat) {
    level_num >= 1 && epsilon >= 1
    && ACCESS_WRAM_COST * Log2(level_num) > PREDICTION_COST + ACCESS_WRAM_COST * Log2(2 * epsilon)
  }
}
