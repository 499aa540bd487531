/** The overflow tree's nodes as objects whose fields change in place. */
module OverflowNode {
  import opened Order
  import opened OverflowTree

  class OptNodeBase {
    var leaf: bool
    var count: nat
    const keys: array<int>
    const pointers: array<OptNodeBase?>

    ghost predicate Valid()
      reads this, keys
    {
      && keys.Length == CHILD_NUM && pointers.Length == CHILD_NUM && count <= CHILD_NUM
      && Strict(keys[..count])
    }

    constructor ()
      ensures Valid() && leaf && count == 0 && fresh(keys) && fresh(pointers)
    {
      leaf, count := true, 0;
      keys := new int[CHILD_NUM];
      pointers := new OptNodeBase?[CHILD_NUM];
    }

    /** The first position whose key is at least k. */
    method LowerBound(k: int) returns (pos: nat)
      requires Valid() && count > 0
      ensures pos <= count
      ensures forall j :: 0 <= j < pos ==> keys[j] < k
      ensures forall j :: pos <= j < count ==> keys[j] >= k
    {
      var lower, upper := 0, count;
      assert forall j :: 0 <= j < count ==> keys[j] == keys[..count][j];
      while true
        invariant 0 <= lower < upper <= count
        invariant forall j :: 0 <= j < lower ==> keys[j] < k
        invariant forall j :: upper <= j < count ==> keys[j] > k
        decreases upper - lower
      {
        var mid := (upper - lower) / 2 + lower;
        if k < keys[mid] {
          upper := mid;
        } else if k > keys[mid] {
          lower := mid + 1;
        } else {
          return mid;
        }
        if lower >= upper { break; }
      }
      return lower;
    }

    /** How many keys are at most k. */
    method LowerBoundInner(k: int) returns (pos: nat)
      requires Valid() && count > 0
      ensures pos == AtMost(keys[..count], k)
    {
      var lower, upper := 0, count;
      assert forall j :: 0 <= j < count ==> keys[j] == keys[..count][j];
      while true
        invariant 0 <= lower < upper <= count
        invariant forall j :: 0 <= j < lower ==> keys[j] <= k
        invariant forall j :: upper <= j < count ==> keys[j] > k
        decreases upper - lower
      {
        var mid := (upper - lower) / 2 + lower;
        if k < keys[mid] {
          upper := mid;
        } else {
          lower := mid + 1;
        }
        if lower >= upper { break; }
      }
      AtMostUnique(keys[..count], k, lower);
      return lower;
    }

    /** Moves the keys from pos on up by one and puts k there. */
    method ShiftIn(pos: nat, k: int)
      requires keys.Length == CHILD_NUM && pos <= count < CHILD_NUM
      modifies this`count, keys
      ensures count == old(count) + 1
      ensures keys[..count] == old(keys[..count][..pos]) + [k] + old(keys[..count][pos..])
    {
      forall i | pos < i <= count {
        keys[i] := keys[i - 1];
      }
      keys[pos] := k;
      count := count + 1;
    }

    /** Adds k in order; false and no change for an inner node or a key that is there. */
    method InsertLeaf(k: int) returns (ok: bool)
      requires Valid() && (leaf ==> count < CHILD_NUM)
      modifies this`count, keys
      ensures Valid() && ok == (leaf && k !in old(keys[..count]))
      ensures keys[..count] == if ok then InsertSorted(old(keys[..count]), k) else old(keys[..count])
    {
      if !leaf { return false; }
      ghost var before := keys[..count];
      assert forall j :: 0 <= j < count ==> keys[j] == before[j];
      var pos := 0;
      if count > 0 {
        pos := LowerBound(k);
        if pos < count && keys[pos] == k {
          assert before[pos] == k;
          return false;
        }
      }
      AtMostUnique(before, k, pos);
      assert k !in before;
      InsertSortedFacts(before, k);
      hide Strict, AtMost;
      ShiftIn(pos, k);
      return true;
    }

    /** Membership among the keys, whatever the type says. */
    method SearchLeaf(k: int) returns (found: bool)
      requires Valid()
      ensures found == (k in keys[..count])
    {
      if count > 0 {
        var pos := LowerBound(k);
        assert forall j :: 0 <= j < count ==> keys[j] == keys[..count][j];
        if pos < count && keys[pos] == k { return true; }
      }
      return false;
    }
  }
}
