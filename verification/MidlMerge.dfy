/** `mdb_midl_search` and `mdb_midl_xmerge` of `midl.c`. */
module MidlMerge {
  import opened IdLists

  const UINT_MAX := 0xffff_ffff

  /** `CMP` */
  function Cmp(x: Id, y: Id): int {
    if x < y then -1 else if x > y then 1 else 0
  }

  /** `mdb_midl_search`: with several equal ids any of their positions may be returned; without
      duplicates it is the first position whose id is not above the key. */
  method Search(ids: array<Id>, id: Id) returns (cursor: int)
    requires 0 < ids.Length && ids[0] < ids.Length && ids[0] <= UINT_MAX
    requires Descending(ids[1..ids[0] + 1])
    ensures 1 <= cursor <= ids[0] + 1
    ensures id in ids[1..ids[0] + 1] <==> cursor <= ids[0] && ids[cursor] == id
    ensures forall p :: 1 <= p < cursor ==> ids[p] > id || (ids[p] == id && ids[cursor] == id)
    ensures forall p :: cursor <= p <= ids[0] ==> ids[p] <= id
  {
    ghost var s := ids[1..ids[0] + 1];
    assert forall p :: 1 <= p <= ids[0] ==> ids[p] == s[p - 1];
    var base, n, val := 0, ids[0] as int, 0;
    cursor := 1;
    while 0 < n
      invariant 0 <= base && 0 <= n && base + n <= ids[0]
      invariant forall p :: 1 <= p <= base ==> ids[p] > id
      invariant forall p :: base + n < p <= ids[0] ==> ids[p] < id
      invariant val > 0 ==> cursor == base
      invariant val < 0 ==> cursor == base + n + 1
      invariant val == 0 ==> base == 0 && cursor == 1 && n == ids[0]
    {
      var pivot := n / 2;
      cursor := base + pivot + 1;
      val := Cmp(ids[cursor], id);
      if val < 0 {
        n := pivot;
      } else if val > 0 {
        base := cursor;
        n := n - (pivot + 1);
      } else {
        return;
      }
    }
    if val > 0 {
      cursor := cursor + 1;
    }
  }

  // ----- merging

  /** Everything in `rest` is at least as large as everything in `out`. */
  ghost predicate Above(rest: seq<Id>, out: seq<Id>) {
    forall p, q :: 0 <= p < |rest| && 0 <= q < |out| ==> rest[p] >= out[q]
  }

  /** `out` is the finished end of the merged list; the first `j` of `a` and the first `i` of `b` are
      still to be placed before it. */
  ghost predicate Merging(out: seq<Id>, a: seq<Id>, j: int, b: seq<Id>, i: int) {
    && 0 <= j <= |a| && 0 <= i <= |b|
    && Descending(out) && Above(a[..j], out) && Above(b[..i], out)
    && multiset(out) + multiset(a[..j]) + multiset(b[..i]) == multiset(a) + multiset(b)
  }

  lemma MergingSwaps(out: seq<Id>, a: seq<Id>, j: int, b: seq<Id>, i: int)
    requires Merging(out, a, j, b, i)
    ensures Merging(out, b, i, a, j)
  {
    var o, x, y := multiset(out), multiset(a[..j]), multiset(b[..i]);
    assert o + y + x == o + x + y;
    assert multiset(b) + multiset(a) == multiset(a) + multiset(b);
  }

  /** The last element of one remainder may be placed when the other remainder has nothing smaller. */
  lemma Place(out: seq<Id>, a: seq<Id>, j: int, b: seq<Id>, i: int)
    requires Merging(out, a, j, b, i) && Descending(a) && Descending(b)
    requires 0 < j && (0 < i ==> a[j - 1] <= b[i - 1])
    ensures Merging([a[j - 1]] + out, a, j - 1, b, i)
  {
    var x := a[j - 1];
    assert a[..j] == a[..j - 1] + [x];
    assert Above(a[..j], out);
    assert forall p :: 0 <= p < |b[..i]| ==> b[..i][p] >= x;
    assert a[..j][j - 1] == x;
  }

  lemma MergeDone(out: seq<Id>, a: seq<Id>, j: int, b: seq<Id>)
    requires Merging(out, a, j, b, 0) && Descending(a)
    ensures Descending(a[..j] + out)
    ensures multiset(a[..j] + out) == multiset(a) + multiset(b)
  {
  }

  lemma MergeStarts(a: seq<Id>, b: seq<Id>)
    ensures Merging([], a, |a|, b, |b|)
  {
    assert a[..|a|] == a && b[..|b|] == b;
  }

  /** The destination during the merge: sentinel, unread part of `a`, free room up to `k`, finished
      part up to `total`, and what lies beyond the list. */
  ghost predicate Holding(idl: array<Id>, a: seq<Id>, j: int, k: int, out: seq<Id>, total: int, rest: seq<Id>)
    reads idl
  {
    && 0 <= j <= k <= total < idl.Length && j <= |a|
    && idl[0] == ID_MAX
    && idl[1..j + 1] == a[..j]
    && idl[k + 1..total + 1] == out
    && idl[total + 1..] == rest
  }

  /** Before the loop: the delimiter goes into slot 0. */
  method Open(idl: array<Id>, ghost a: seq<Id>, ghost total: int)
    requires |a| <= total < idl.Length && idl[1..|a| + 1] == a
    modifies idl
    ensures Holding(idl, a, |a|, total, [], total, old(idl[total + 1..]))
  {
    idl[0] := ID_MAX;
  }

  /** After the loop: the finished part adjoins what never moved, and slot 0 gets the new length. */
  method Close(idl: array<Id>, total: Id, ghost a: seq<Id>, ghost j: int, ghost out: seq<Id>, ghost rest: seq<Id>)
    requires Holding(idl, a, j, j, out, total, rest)
    modifies idl
    ensures idl[0] == total && 0 <= j <= |a|
    ensures idl[1..total + 1] == a[..j] + out && idl[total + 1..] == rest
  {
    assert idl[1..total + 1] == idl[1..j + 1] + idl[j + 1..total + 1];
    idl[0] := total;
  }

  /** `idl[k--] = x`: nothing unread is overwritten as long as `j < k`. */
  method Store(idl: array<Id>, k: int, x: Id, ghost a: seq<Id>, ghost j: int, ghost out: seq<Id>,
               ghost total: int, ghost rest: seq<Id>)
    requires Holding(idl, a, j, k, out, total, rest) && j < k
    modifies idl
    ensures Holding(idl, a, j, k - 1, [x] + out, total, rest)
    ensures idl[j] == old(idl[j])
  {
    idl[k] := x;
  }

  /** What `idl[j]` holds: the last unread element, or the sentinel. */
  lemma Unread(idl: array<Id>, a: seq<Id>, j: int, k: int, out: seq<Id>, total: int, rest: seq<Id>)
    requires Holding(idl, a, j, k, out, total, rest)
    ensures 0 <= j <= k <= total < idl.Length && j <= |a|
    ensures idl[j] == if j == 0 then ID_MAX else a[j - 1]
    ensures 0 < j ==> Holding(idl, a, j - 1, k, out, total, rest)
  {
    if 0 < j {
      assert idl[j] == idl[1..j + 1][j - 1];
      assert idl[1..j] == idl[1..j + 1][..j - 1];
    }
  }

  /** The inner loop: move the old ids below `mergeId` up. */
  method PlaceSmaller(idl: array<Id>, j0: int, k0: int, oldId0: Id, mergeId: Id, ghost a: seq<Id>,
                      ghost b: seq<Id>, ghost i: int, ghost out0: seq<Id>, ghost total: int, ghost rest: seq<Id>)
    returns (j: int, k: int, oldId: Id, ghost out: seq<Id>)
    requires Holding(idl, a, j0, k0, out0, total, rest) && Merging(out0, a, j0, b, i)
    requires Descending(a) && Descending(b) && 0 < i <= |b| && mergeId == b[i - 1] && k0 == i + j0
    requires 0 <= j0 < idl.Length && oldId0 == idl[j0]
    modifies idl
    ensures Holding(idl, a, j, k, out, total, rest) && Merging(out, a, j, b, i)
    ensures 0 <= j <= |a| && k == i + j && j < idl.Length && oldId == idl[j]
    ensures 0 < j ==> a[j - 1] >= mergeId
  {
    hide Merging, Descending, Holding;
    j, k, oldId, out := j0, k0, oldId0, out0;
    while oldId < mergeId
      invariant k == i + j
      invariant Holding(idl, a, j, k, out, total, rest) && Merging(out, a, j, b, i)
      invariant 0 <= j < idl.Length && oldId == idl[j]
      decreases j
    {
      Unread(idl, a, j, k, out, total, rest);
      Place(out, a, j, b, i);
      Store(idl, k, oldId, a, j - 1, out, total, rest);
      out := [oldId] + out;
      k := k - 1;
      j := j - 1;
      oldId := idl[j];
    }
    Unread(idl, a, j, k, out, total, rest);
  }

  /** The merge loop, from the sentinel in place to nothing left of `merge`. */
  method MergeFromTop(idl: array<Id>, merge: array<Id>, j0: int, k0: int,
                      ghost a: seq<Id>, ghost b: seq<Id>, ghost rest: seq<Id>)
    returns (j: int, ghost out: seq<Id>)
    requires idl != merge && 0 < merge.Length && merge[0] == |b| < merge.Length && merge[1..|b| + 1] == b
    requires Holding(idl, a, |a|, |a| + |b|, [], |a| + |b|, rest) && |a| + |b| < idl.Length
    requires Descending(a) && Descending(b) && j0 == |a| && k0 == |a| + |b|
    modifies idl
    ensures Holding(idl, a, j, j, out, |a| + |b|, rest) && Merging(out, a, j, b, 0)
  {
    hide Merging, Descending, Holding;
    var i, k := merge[0] as int, k0;
    j := j0;
    var oldId := idl[j];
    MergeStarts(a, b);
    out := [];
    while 0 < i
      invariant 0 <= i <= |b| && k == i + j
      invariant Holding(idl, a, j, k, out, k0, rest) && Merging(out, a, j, b, i)
      invariant 0 <= j < idl.Length && oldId == idl[j]
    {
      var mergeId := merge[i];
      assert mergeId == merge[1..|b| + 1][i - 1];
      i := i - 1;
      j, k, oldId, out := PlaceSmaller(idl, j, k, oldId, mergeId, a, b, i + 1, out, k0, rest);
      MergingSwaps(out, a, j, b, i + 1);
      Place(out, b, i + 1, a, j);
      Store(idl, k, mergeId, a, j, out, k0, rest);
      out := [mergeId] + out;
      MergingSwaps(out, b, i, a, j);
      k := k - 1;
    }
  }

  /** `mdb_midl_xmerge`: slot 0 of the destination holds the largest id while the scan runs. */
  method Xmerge(idl: array<Id>, merge: array<Id>)
    requires idl != merge && 0 < idl.Length <= ID_LIMIT && 0 < merge.Length
    requires merge[0] < merge.Length && idl[0] as int + merge[0] as int < idl.Length
    requires Descending(idl[1..idl[0] + 1]) && Descending(merge[1..merge[0] + 1])
    modifies idl
    ensures idl[0] == old(idl[0]) as int + merge[0] as int
    ensures Descending(idl[1..idl[0] + 1])
    ensures multiset(idl[1..idl[0] + 1]) == multiset(old(idl[1..idl[0] + 1])) + multiset(merge[1..merge[0] + 1])
    ensures idl[idl[0] + 1..] == old(idl[idl[0] as int + merge[0] as int + 1..])
  {
    hide Merging, Descending, Holding, Above;
    var j := idl[0] as int;
    var total := merge[0] as int + j;
    ghost var a, b, rest := idl[1..j + 1], merge[1..merge[0] + 1], idl[total + 1..];
    assert |a| == j && |b| == merge[0] && |a| + |b| == total;
    Open(idl, a, total);
    ghost var out;
    j, out := MergeFromTop(idl, merge, j, total, a, b, rest);
    Close(idl, total, a, j, out, rest);
    MergeDone(out, a, j, b);
  }
}
