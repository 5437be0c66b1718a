/** Sorting and merging ID lists agree. */
module MidlSortMerge {
  import opened IdLists
  import opened MidlSort
  import opened MidlMerge

  /** A list in an array of its own, with room for more ids. */
  method ListOf(s: seq<Id>, room: nat) returns (ids: array<Id>)
    requires |s| < ID_LIMIT
    ensures fresh(ids) && ids.Length == |s| + room + 1 && ids[0] == |s| && ids[1..|s| + 1] == s
  {
    ids := new Id[|s| + room + 1];
    ids[0] := |s|;
    forall i | 0 <= i < |s| {
      ids[i + 1] := s[i];
    }
  }

  /** `mdb_midl_sort`, seen as a list operation. */
  method SortList(ids: array<Id>)
    requires 0 < ids.Length && ids[0] < ids.Length && 2 * ids[0] - SMALL <= INT_MAX
    modifies ids
    ensures ids[0] == old(ids[0]) && Descending(ids[1..ids[0] + 1])
    ensures multiset(ids[1..ids[0] + 1]) == multiset(old(ids[1..ids[0] + 1]))
  {
    hide Descending;
    ghost var s, n := ids[..], ids[0];
    Sort(ids);
    assert ids[..][0] == s[0];
    assert ids[1..n + 1] == ids[..][1..n + 1] && s[1..n + 1] == old(ids[1..ids[0] + 1]);
  }

  /** Sorting two lists and merging one into the other gives exactly the list that sorting both together
      gives: the descending list of their ids. */
  method SortThenMerge(x: seq<Id>, y: seq<Id>) returns (merged: seq<Id>, sorted: seq<Id>)
    requires 2 * (|x| + |y|) - SMALL <= INT_MAX
    ensures merged == sorted && Descending(merged) && multiset(merged) == multiset(x) + multiset(y)
  {
    hide Descending;
    var a := ListOf(x, |y|);
    var b := ListOf(y, 0);
    SortList(a);
    SortList(b);
    Xmerge(a, b);
    merged := a[1..a[0] + 1];
    sorted := SortedCopy(x + y);
    DescendingUnique(merged, sorted);
  }

  method SortedCopy(s: seq<Id>) returns (sorted: seq<Id>)
    requires 2 * |s| - SMALL <= INT_MAX
    ensures Descending(sorted) && multiset(sorted) == multiset(s)
  {
    hide Descending;
    var c := ListOf(s, 0);
    SortList(c);
    sorted := c[1..c[0] + 1];
  }
}
