/** The optional table of sixteen precomputed predictions per model, indexed by the bits below the
    prefix that neighbouring model keys share. */
module LookupTable {
  import opened Geometry
  import opened Hull
  import opened Levels
  import opened LinearModel
  import opened PgmIndex
  import opened Prediction

  const WORD64: nat := 0x1_0000_0000_0000_0000
  const MAX_LUT_SIZE: nat := 16
  const MORE_SHIFT_NUM: nat := 4

  function Pow2(n: nat): (p: nat)
    ensures p >= 1
  {
    if n == 0 then 1 else 2 * Pow2(n - 1)
  }

  /** A right shift by n bits. */
  function ShiftDown(x: nat, n: nat): nat {
    NotNegative(x, Pow2(n));
    x / Pow2(n)
  }

  lemma NotNegative(x: nat, d: nat)
    requires d > 0
    ensures x / d >= 0
  {
    DivBounds(x, d);
    if x / d <= -1 { ProductGrows(d, x / d, -1); }
  }

  lemma DivTwice(x: nat, p: nat, q: nat)
    requires p > 0 && q > 0
    ensures p * q > 0 && (x / p) / q == x / (p * q)
  {
    var a := x / p;
    var b := a / q;
    DivBounds(x, p);
    DivBounds(a, q);
    assert p * (q * b) == (p * q) * b;
    ProductGrows(p, q * b, a);
    ProductGrows(p, a + 1, q * b + q);
    assert p * (q * b + q) == (p * q) * b + p * q;
    assert p * (a + 1) == p * a + p;
    UniqueQuotient(x, p * q, b);
  }

  lemma UniqueQuotient(x: nat, d: nat, b: nat)
    requires d > 0 && d * b <= x < d * b + d
    ensures x / d == b
  {
    DivBounds(x, d);
    if x / d < b { ProductGrows(d, x / d + 1, b); }
    if x / d > b { ProductGrows(d, b + 1, x / d); }
  }

  lemma ShiftOnce(x: nat, n: nat)
    ensures ShiftDown(x, n) / 2 == ShiftDown(x, n + 1)
  {
    DivTwice(x, Pow2(n), 2);
  }

  lemma ShiftFour(x: nat, n: nat)
    ensures ShiftDown(x, n) / 16 == ShiftDown(x, n + 4)
  {
    PowersOfTwo();
    PowAdds(n, 4);
    DivTwice(x, Pow2(n), 16);
  }

  lemma SmallPowers()
    ensures Pow2(4) == 16 && Pow2(16) == 0x1_0000
  {
    assert Pow2(1) == 2 * Pow2(0) == 2;
    hide Pow2;
    PowAdds(1, 1);
    PowAdds(2, 2);
    PowAdds(4, 4);
    PowAdds(8, 8);
  }

  lemma PowersOfTwo()
    ensures Pow2(4) == 16 && Pow2(64) == WORD64
  {
    SmallPowers();
    hide Pow2;
    PowAdds(16, 16);
    PowAdds(32, 32);
  }

  lemma NothingLeft(x: nat)
    requires x < WORD64
    ensures ShiftDown(x, 64) == 0
  {
    PowersOfTwo();
    UniqueQuotient(x, Pow2(64), 0);
  }

  lemma {:induction false} PowAdds(a: nat, b: nat)
    ensures Pow2(a + b) == Pow2(a) * Pow2(b)
  {
    if b > 0 {
      PowAdds(a, b - 1);
      assert 2 * (Pow2(a) * Pow2(b - 1)) == Pow2(a) * (2 * Pow2(b - 1));
    }
  }

  /** How many leading bits of 64 are the same. The loop shifts the exclusive or until it is zero, which
      is shifting both numbers until they agree. */
  method LongestCommonPrefix(a: nat, b: nat) returns (prefix: nat)
    requires a < WORD64 && b < WORD64
    ensures prefix <= 64 && ShiftDown(a, 64 - prefix) == ShiftDown(b, 64 - prefix)
    ensures prefix < 64 ==> ShiftDown(a, 63 - prefix) != ShiftDown(b, 63 - prefix)
  {
    var x, y, shift := a, b, 0;
    NothingLeft(a);
    NothingLeft(b);
    while x != y
      invariant shift <= 64 && x == ShiftDown(a, shift) && y == ShiftDown(b, shift)
      invariant shift > 0 ==> ShiftDown(a, shift - 1) != ShiftDown(b, shift - 1)
      decreases 64 - shift
    {
      ShiftOnce(a, shift);
      ShiftOnce(b, shift);
      x, y, shift := x / 2, y / 2, shift + 1;
    }
    prefix := 64 - shift;
  }

  /** Entry j: the model's prediction at the j-th multiple of the step from its key on, cut off at both
      ends of the model's range. The multiple is computed in 64 bits. */
  function Base(key: nat, shift: nat, j: nat): nat {
    (ShiftDown(key, shift) + j) * Pow2(shift) % WORD64
  }

  function Entry(s: Segment, next: Segment, shift: nat, j: nat): int
    requires s.dx > 0 && s.key >= 0
  {
    if j == MAX_LUT_SIZE then next.intercept
    else if Base(s.key, shift, j) <= s.key then s.intercept
    else if Base(s.key, shift, j) >= next.key then next.intercept
    else Raw(s, Base(s.key, shift, j))
  }

  lemma RawAtKey(s: Segment)
    requires s.dx > 0
    ensures Raw(s, s.key) == s.intercept
  {
    assert s.dy * (s.key - s.key) == 0;
  }

  /** An entry lies between the starts of the two models, if the first one predicts no more than the second one's
      start at the second one's key. */
  lemma EntryIsBetween(s: Segment, next: Segment, shift: nat, j: nat)
    requires GoodSlope(s) && 0 <= s.key < next.key && j <= MAX_LUT_SIZE
    requires Raw(s, next.key) <= next.intercept
    ensures s.intercept <= Entry(s, next, shift, j) <= next.intercept
  {
    hide Base, Raw, ShiftDown, Pow2;
    var t := Base(s.key, shift, j);
    RawIsMonotone(s, s.key, next.key);
    RawAtKey(s);
    if s.key < t < next.key {
      RawIsMonotone(s, s.key, t);
      RawIsMonotone(s, t, next.key);
    }
  }

  /** Keys between two keys with the same prefix have an index below sixteen. */
  lemma IndexInTable(key: nat, k: nat, nextKey: nat, shift: nat)
    requires key <= k < nextKey && ShiftDown(key, shift + MORE_SHIFT_NUM) == ShiftDown(nextKey, shift + MORE_SHIFT_NUM)
    ensures 0 <= ShiftDown(k, shift) - ShiftDown(key, shift) < MAX_LUT_SIZE
  {
    ShiftFour(key, shift);
    ShiftFour(k, shift);
    ShiftFour(nextKey, shift);
    DivMonotone(key, k, Pow2(shift));
    DivMonotone(k, nextKey, Pow2(shift));
    DivMonotone(ShiftDown(key, shift), ShiftDown(k, shift), 16);
    DivMonotone(ShiftDown(k, shift), ShiftDown(nextKey, shift), 16);
    hide ShiftDown, Pow2;
  }

  /** The cell of k ends at 2^64, so the next entry's multiple of the step wraps around to zero. */
  predicate CellWraps(key: nat, k: nat, shift: nat) {
    ShiftDown(k, shift) - ShiftDown(key, shift) < MAX_LUT_SIZE - 1 && (ShiftDown(k, shift) + 1) * Pow2(shift) >= WORD64
  }

  /** Two neighbouring entries bracket the rank of an indexed key of the model, unless the cell of the key
      wraps around and the rank is too far above the model's start. */
  lemma TableBrackets(s: Segment, next: Segment, keys: seq<int>, a: int, b: int, epsilon: nat, shift: nat, f: int)
    requires TailSorted(keys) && ModelOf(s, keys, a, b, epsilon) && a <= f < b
    requires 0 <= s.key < next.key < WORD64 && keys[f] < next.key && b - epsilon <= next.intercept && shift <= 60
    requires ShiftDown(s.key, shift + MORE_SHIFT_NUM) == ShiftDown(next.key, shift + MORE_SHIFT_NUM)
    ensures s.key <= keys[f]
    ensures var j := ShiftDown(keys[f], shift) - ShiftDown(s.key, shift);
      && 0 <= j < MAX_LUT_SIZE && Entry(s, next, shift, j) - epsilon <= f
      && (f < Entry(s, next, shift, j + 1) + epsilon + 2 <==>
            !CellWraps(s.key, keys[f], shift) || f < s.intercept + epsilon + 2)
  {
    hide FittedBest;
    var k := keys[f];
    assert keys[a] <= k;
    IndexInTable(s.key, k, next.key, shift);
    var j := ShiftDown(k, shift) - ShiftDown(s.key, shift);
    BasesAround(s.key, k, shift, j);
    hide ShiftDown, Pow2, Base, Raw;
    BelowModel(s, keys, a, b, epsilon, f, Base(s.key, shift, j));
    if !CellWraps(s.key, k, shift) {
      AboveModel(s, next, keys, a, b, epsilon, f, shift, j + 1);
    }
  }

  /** The key lies between its multiple of the step and the next one, which may be 2^64. */
  lemma BasesAround(key: nat, k: nat, shift: nat, j: nat)
    requires j == ShiftDown(k, shift) - ShiftDown(key, shift) && j < MAX_LUT_SIZE && k < WORD64 && shift <= 60
    ensures Base(key, shift, j) <= k
    ensures CellWraps(key, k, shift) ==> Base(key, shift, j + 1) == 0
    ensures !CellWraps(key, k, shift) && j + 1 < MAX_LUT_SIZE ==> Base(key, shift, j + 1) > k
  {
    CellEnds(k, shift);
    hide Pow2, ShiftDown;
    var q, p := ShiftDown(k, shift), Pow2(shift);
    Wrapped(q * p);
    Wrapped((q + 1) * p);
  }

  /** The cell of k, which does not reach beyond 2^64. */
  lemma CellEnds(k: nat, shift: nat)
    requires k < WORD64 && shift <= 60
    ensures ShiftDown(k, shift) * Pow2(shift) <= k < (ShiftDown(k, shift) + 1) * Pow2(shift) <= WORD64
  {
    var q, p, m := ShiftDown(k, shift), Pow2(shift), Pow2(64 - shift);
    DivBounds(k, p);
    PowAdds(shift, 64 - shift);
    PowersOfTwo();
    hide Pow2, ShiftDown;
    NextMultiple(p, q);
    if q >= m { ProductGrows(p, m, q); }
    ProductGrows(p, q + 1, m);
  }

  lemma Wrapped(x: nat)
    requires x <= WORD64
    ensures x % WORD64 == if x < WORD64 then x else 0
  {
  }

  lemma NextMultiple(p: nat, q: nat)
    ensures p * (q + 1) == p * q + p && (q + 1) * p == q * p + p && q * p == p * q
  {
  }

  lemma AboveModel(s: Segment, next: Segment, keys: seq<int>, a: int, b: int, epsilon: nat, f: int, shift: nat, j: nat)
    requires ModelOf(s, keys, a, b, epsilon) && a <= f < b && 0 <= s.key <= keys[f] < next.key
    requires b - epsilon <= next.intercept
    requires j <= MAX_LUT_SIZE && (j < MAX_LUT_SIZE ==> Base(s.key, shift, j) > keys[f])
    ensures f < Entry(s, next, shift, j) + epsilon + 2
  {
    hide FittedBest;
    hide Base;
    if j < MAX_LUT_SIZE && Base(s.key, shift, j) < next.key { RawIsMonotone(s, keys[f], Base(s.key, shift, j)); }
  }

  lemma BelowModel(s: Segment, keys: seq<int>, a: int, b: int, epsilon: nat, f: int, t: int)
    requires TailSorted(keys) && ModelOf(s, keys, a, b, epsilon) && a <= f < b && t <= keys[f] && s.key <= keys[f]
    ensures s.intercept <= f + epsilon && (t > s.key ==> Raw(s, t) <= f + epsilon)
  {
    hide FittedBest;
    if t > s.key { RawIsMonotone(s, t, keys[f]); }
  }

  // ---------------------------------------------------------------------------
  // From the shared prefix to the search range
  // ---------------------------------------------------------------------------

  /** A model of an index's bottom level, with its stretch of keys, seen from one of them. */
  lemma StretchOf(level: seq<Segment>, keys: seq<int>, epsilon: nat, it: int, f: int) returns (a: int, b: int)
    requires LevelOver(level, keys, epsilon) && TailSorted(keys) && DistinctCount(keys) == |keys|
    requires forall i, j :: 0 <= i < j < |level| - 1 ==> level[i].key < level[j].key
    requires 0 <= f < |keys| && keys[f] < MAX_KEY && Responsible(Entries(level), it, keys[f])
    ensures 0 <= it < |level| - 1 && ModelOf(level[it], keys, a, b, epsilon) && a <= f < b
    ensures level[it].key <= keys[f] < level[it + 1].key <= MAX_KEY && b - epsilon <= level[it + 1].intercept
  {
    hide FittedBest;
    var cuts: seq<int>, models: seq<Segment>, past: int :|
      |models| > 0 && FittedTo(level, keys, epsilon, cuts, models, past);
    a, b := StretchIn(level, keys, epsilon, cuts, models, past, it, f);
  }

  lemma StretchIn(level: seq<Segment>, keys: seq<int>, epsilon: nat, cuts: seq<int>, models: seq<Segment>, past: int,
                  it: int, f: int) returns (a: int, b: int)
    requires |models| > 0 && FittedTo(level, keys, epsilon, cuts, models, past)
    requires TailSorted(keys) && DistinctCount(keys) == |keys|
    requires forall i, j :: 0 <= i < j < |level| - 1 ==> level[i].key < level[j].key
    requires 0 <= f < |keys| && keys[f] < MAX_KEY && Responsible(Entries(level), it, keys[f])
    ensures 0 <= it < |level| - 1 && ModelOf(level[it], keys, a, b, epsilon) && a <= f < b
    ensures level[it].key <= keys[f] < level[it + 1].key && b - epsilon <= level[it + 1].intercept
  {
    hide Raw, FittedBest;
    var last := |models| - 1;
    assert ModelOf(models[last], keys, cuts[last], cuts[|models|], epsilon);
    assert models[last].dy == 0 ==> cuts[last] == |keys| - 1 && level[last].key == keys[|keys| - 1] >= keys[f];
    assert |level| == |models| + 2 ==> level[last].key < level[|models|].key;
    assert it <= last;
    a, b := cuts[it], cuts[it + 1];
    assert ModelOf(models[it], keys, a, b, epsilon);
    assert it < last ==> ModelOf(models[it + 1], keys, b, cuts[it + 2], epsilon);
  }

  /** The bottom level of every index is one to which TableRange applies. */
  lemma BottomLevel(data: seq<int>, epsilon: nat, epsilonRecursive: nat, segments: seq<Segment>, offsets: seq<int>)
    requires LevelsOver(data, epsilon, epsilonRecursive, segments, offsets) && Indexable(data)
    ensures var level := Level(segments, offsets, 0);
      && LevelOver(level, data, epsilon) && TailSorted(data) && DistinctCount(data) == |data|
      && forall i, j :: 0 <= i < j < |level| - 1 ==> level[i].key < level[j].key
  {
    hide LevelOver, LevelCount;
    assert LevelInPlace(data, epsilon, epsilonRecursive, segments, offsets, 0);
    StrictIsTailSorted(data);
  }

  /** The range that the kernel searches with the table of a model, or none for neighbours that share more
      than sixty bits. It starts at or before the rank of every indexed key, and ends after it except for
      the keys in a cell that wraps around. */
  method TableRange(s: Segment, next: Segment, epsilon: nat, inputSize: nat, k: nat,
                    ghost level: seq<Segment>, ghost keys: seq<int>, ghost it: int, ghost f: int)
    returns (use: bool, shift: nat, l: nat, r: int)
    requires LevelOver(level, keys, epsilon) && TailSorted(keys) && DistinctCount(keys) == |keys|
    requires forall i, j :: 0 <= i < j < |level| - 1 ==> level[i].key < level[j].key
    requires inputSize == |keys| && 0 <= keys[0] && 0 <= f < |keys| && keys[f] == k < MAX_KEY
    requires Responsible(Entries(level), it, k)
    requires s == level[it] && next == level[it + 1]
    ensures use ==> 0 <= s.key && l <= f
    ensures use ==> (f < r <==> !CellWraps(s.key, k, shift) || f < s.intercept + epsilon + 2)
  {
    hide FittedBest;
    ghost var a, b := StretchOf(level, keys, epsilon, it, f);
    assert s.key == keys[a] >= keys[0];
    hide LevelOver, Responsible, ModelOf, ShiftDown, Pow2, Entry, CellWraps;
    var prefix := LongestCommonPrefix(s.key, next.key);
    use, shift, l, r := prefix <= 64 - MORE_SHIFT_NUM, 0, 0, inputSize;
    if use {
      shift := 64 - prefix - MORE_SHIFT_NUM;
      TableBrackets(s, next, keys, a, b, epsilon, shift, f);
      var j := ShiftDown(k, shift) - ShiftDown(s.key, shift);
      var from, to := Entry(s, next, shift, j), Entry(s, next, shift, j + 1);
      l := if from > epsilon then from - epsilon else 0;
      r := to + epsilon + 2;
      if r > inputSize { r := inputSize; }
    }
  }

  /** A table that loses a key: the model of fifteen keys 2^60 apart, which predicts every rank within one.
      The last key's cell ends at 2^64, and the range for it ends at position 3. */
  lemma WrapLosesKey()
    ensures var step := 0x1000_0000_0000_0000;
      var keys, s := seq(15, i => (i + 1) * step), Segment(step, 15, 14 * step, 0);
      && ModelOf(s, keys, 0, 15, 1) && Entry(s, Sentinel(15), 60, 15) + 1 + 2 == 3
      && ShiftDown(keys[14], 60) - ShiftDown(s.key, 60) == 14 && CellWraps(s.key, keys[14], 60)
  {
    var step := 0x1000_0000_0000_0000;
    var keys, s := seq(15, i => (i + 1) * step), Segment(step, 15, 14 * step, 0);
    forall t | 0 <= t < 15 ensures t - 2 <= Raw(s, keys[t]) <= t + 1 {
      UniqueQuotient(15 * (keys[t] - step), 14 * step, 15 * t / 14);
    }
    WrapIsBest(keys, s);
    PowAdds(60, 4);
    PowersOfTwo();
    assert Pow2(60) == step;
    hide Pow2;
    UniqueQuotient(keys[14], step, 15);
    UniqueQuotient(step, step, 1);
  }

  /** It is the model that the fitter stores for them. */
  lemma WrapIsBest(keys: seq<int>, s: Segment)
    requires |keys| == 15 && forall i :: 0 <= i < 15 ==> keys[i] == (i + 1) * 0x1000_0000_0000_0000
    requires s == Segment(0x1000_0000_0000_0000, 15, 14 * 0x1000_0000_0000_0000, 0)
    ensures FittedBest(s, keys, 0, 15, 1)
  {
    var pts := PointsOf(keys)[0..15];
    var bands := BandsOf(pts, 1);
    var m := 15 as real / (14 * s.key) as real;
    var l := Line(m, -m * s.key as real);
    forall j | 0 <= j < 15 ensures Fits(bands[j], l) && l.At(keys[j]) == 15.0 * j as real / 14.0 {
      OnWrapLine(m, s.key, j);
    }
    forall k: Line | Crosses(bands, k) ensures k.m <= m {
      assert Fits(bands[0], k) && Fits(bands[14], k);
      assert (m - k.m) * (14 * s.key) as real >= 0.0 by { OnWrapLine(k.m, s.key, 14); OnWrapLine(m, s.key, 14); }
    }
    assert StoresLine(s, bands, l);
  }

  lemma OnWrapLine(m: real, key: int, j: int)
    ensures m * ((j + 1) * key) as real - m * key as real == m * (j * key) as real
  {
  }
}
