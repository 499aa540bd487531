/** A buffer page, and the guard that decides whether a key goes into it. */
module BufPage {
  import HostInsert
  import OverflowTree
  import opened Merge
  import opened Order
  import opened MergeParallel

  const BUF_SIZE: nat := 16

  class Page {
    var pageCount: nat
    const bufKey: array<int>

    ghost predicate Valid()
      reads this, bufKey
    {
      pageCount <= BUF_SIZE == bufKey.Length && Ascending(Contents())
    }

    ghost function Contents(): (s: seq<int>)
      requires pageCount <= bufKey.Length
      reads this, bufKey
    {
      bufKey[..pageCount]
    }

    constructor ()
      ensures Valid() && Contents() == [] && fresh(bufKey)
    {
      pageCount := 0;
      bufKey := new int[BUF_SIZE];
    }

    /** Moves the keys from `at` on up by one and puts key there. */
    method ShiftIn(at: nat, key: int)
      requires at <= pageCount < BUF_SIZE == bufKey.Length
      modifies this, bufKey
      ensures pageCount == old(pageCount) + 1 <= BUF_SIZE
      ensures Contents() == old(bufKey[..at]) + [key] + old(bufKey[at..pageCount])
    {
      forall i | at < i <= pageCount {
        bufKey[i] := bufKey[i - 1];
      }
      bufKey[at] := key;
      pageCount := pageCount + 1;
    }

    /** Adds the key behind all keys that are at most it; false and no change for a full page. */
    method InsertPage(key: int) returns (ok: bool)
      requires Valid()
      modifies this, bufKey
      ensures Valid() && ok == (old(pageCount) < BUF_SIZE)
      ensures Contents() == if ok then OverflowTree.InsertSorted(old(Contents()), key) else old(Contents())
    {
      if pageCount >= BUF_SIZE { return false; }
      ghost var before := Contents();
      InsertKeepsAscending(before, key);
      var pl := 0;
      if pageCount > 0 { pl := Position(key); }
      assert pl == OverflowTree.AtMost(before, key);
      assert bufKey[..pl] == before[..pl] && bufKey[pl..pageCount] == before[pl..];
      hide OverflowTree.AtMost, Ascending;
      ShiftIn(pl, key);
      return true;
    }

    method Position(key: int) returns (pl: nat)
      requires Valid()
      ensures pl <= pageCount && pl == OverflowTree.AtMost(Contents(), key)
    {
      pl := 0;
      var pr := pageCount;
      assert forall j :: 0 <= j < pageCount ==> bufKey[j] == Contents()[j];
      while pl < pr
        invariant 0 <= pl <= pr <= pageCount
        invariant forall j :: 0 <= j < pl ==> bufKey[j] <= key
        invariant forall j :: pr <= j < pageCount ==> bufKey[j] > key
      {
        var pmid := pl + (pr - pl) / 2;
        if bufKey[pmid] <= key { pl := pmid + 1; } else { pr := pmid; }
      }
      OverflowTree.AtMostUnique(Contents(), key, pl);
    }
  }

  lemma InsertKeepsAscending(s: seq<int>, k: int)
    requires Ascending(s)
    ensures Ascending(OverflowTree.InsertSorted(s, k))
    ensures forall x :: x in OverflowTree.InsertSorted(s, k) <==> x in s || x == k
  {
    OverflowTree.AtMostAfter(s, k);
    var c, r := OverflowTree.AtMost(s, k), OverflowTree.InsertSorted(s, k);
    assert forall i :: 0 <= i < c ==> s[i] <= s[c - 1] <= k || i == c - 1;
    hide OverflowTree.AtMost;
    forall i, j | 0 <= i < j < |r| ensures r[i] <= r[j] {
      var a, b := if i <= c then i else i - 1, if j <= c then j else j - 1;
      assert (i == c || r[i] == s[a]) && (j == c || r[j] == s[b]);
    }
    forall x | x in s ensures x in r {
      var i :| 0 <= i < |s| && s[i] == x;
      assert r[if i < c then i else i + 1] == x;
    }
    assert r[c] == k;
  }

  /** The test before a page insert, on the sampled keys, lets in exactly the keys of page ipos. */
  lemma GuardIsInPage(keys: seq<int>, partial: seq<int>, ipos: nat, k: int)
    requires |keys| % PAGE_RATIO == 0 && |partial| == |keys| / PAGE_RATIO
    requires forall j :: 0 <= j < |partial| ==> partial[j] == keys[PAGE_RATIO * j]
    ensures HostInsert.Accepted(partial, ipos, k) <==> InPage(keys, ipos, k)
  {
  }

  /** Inserting a key that passed the test keeps the index in order for the merge. */
  lemma PageInsertKeepsIndex(keys: seq<int>, pages: seq<seq<int>>, i: nat, k: int)
    requires Index(keys, pages) && i < |pages| && InPage(keys, i, k)
    ensures Index(keys, pages[i := OverflowTree.InsertSorted(pages[i], k)])
  {
    var page := OverflowTree.InsertSorted(pages[i], k);
    assert PageOk(keys, pages, i);
    InsertKeepsAscending(pages[i], k);
    var after := pages[i := page];
    forall m | 0 <= m < |after| ensures PageOk(keys, after, m) {
      assert PageOk(keys, pages, m);
    }
  }
}
