/** `mdb_midl_sort`: the non-recursive quicksort of `midl.c` with its explicit stack. */
module MidlSort {
  import opened IdLists

  const INT_MAX := 0x7fff_ffff

  /** Segments shorter than this are sorted by insertion. */
  const SMALL := 8

  /** `sizeof(int) * CHAR_BIT * 2`. */
  const STACK_SLOTS := 64

  /** A part of the list still to be sorted. */
  datatype Segment = Segment(lo: int, hi: int) {
    ghost function Size(): int { hi - lo + 1 }

    ghost predicate Contains(p: int, q: int) { lo <= p && q <= hi }
  }

  ghost predicate Together(segs: seq<Segment>, p: int, q: int) {
    exists k :: 0 <= k < |segs| && segs[k].Contains(p, q)
  }

  ghost predicate Disjoint(segs: seq<Segment>) {
    forall a, b :: 0 <= a < b < |segs| ==> segs[a].hi < segs[b].lo || segs[b].hi < segs[a].lo
  }

  ghost predicate InRange(segs: seq<Segment>, n: int) {
    forall k :: 0 <= k < |segs| ==> 1 <= segs[k].lo <= segs[k].hi + 1 <= n + 1
  }

  /** Two positions out of order always lie in one pending segment. */
  ghost predicate SortedOutside(s: seq<Id>, n: int, segs: seq<Segment>)
    requires 0 <= n < |s|
  {
    forall p, q :: 1 <= p < q <= n ==> s[p] >= s[q] || Together(segs, p, q)
  }

  ghost function Total(segs: seq<Segment>): int {
    if segs == [] then 0 else Total(segs[..|segs| - 1]) + segs[|segs| - 1].Size()
  }

  lemma TotalPush(segs: seq<Segment>, seg: Segment)
    ensures Total(segs + [seg]) == Total(segs) + seg.Size()
  {
    assert (segs + [seg])[..|segs|] == segs;
  }

  lemma {:induction false} TotalNonNegative(segs: seq<Segment>, n: int)
    requires InRange(segs, n)
    ensures Total(segs) >= 0
  {
    if segs != [] {
      TotalNonNegative(segs[..|segs| - 1], n);
    }
  }

  // ----- the depth of the stack

  ghost function Pow2(k: nat): (p: int)
    ensures p > 0
  {
    if k == 0 then 1 else 2 * Pow2(k - 1)
  }

  lemma {:induction false} Pow2Monotone(j: nat, k: nat)
    requires j <= k
    ensures Pow2(j) <= Pow2(k)
    decreases k
  {
    if j < k {
      Pow2Monotone(j, k - 1);
    }
  }

  /** The segment at depth `k` holds at most `n / 2^k` elements. */
  ghost predicate Shrinking(segs: seq<Segment>, n: int) {
    forall k :: 0 <= k < |segs| ==> segs[k].Size() * Pow2(k) <= n
  }

  /** Pushing the larger part and going on with the smaller one keeps the depth logarithmic. */
  lemma SplitShrinks(below: seq<Segment>, seg: Segment, larger: Segment, smaller: Segment, n: int)
    requires Shrinking(below + [seg], n)
    requires 0 <= smaller.Size() <= larger.Size() && larger.Size() + smaller.Size() < seg.Size()
    ensures Shrinking(below + [larger, smaller], n)
  {
    var d := |below|;
    var w := Pow2(d);
    var was, now := below + [seg], below + [larger, smaller];
    assert was[d] == seg && seg.Size() * w <= n;
    Times(larger.Size(), seg.Size(), w);
    Times(2 * smaller.Size(), seg.Size(), w);
    Doubled(smaller.Size(), w);
    assert Pow2(d + 1) == 2 * w;
    hide Pow2;
    forall k | 0 <= k < |now| ensures now[k].Size() * Pow2(k) <= n {
      if k < d {
        assert now[k] == was[k];
      } else {
        assert now[k] == if k == d then larger else smaller;
      }
    }
  }

  lemma Times(x: int, y: int, w: int)
    requires x <= y && 0 <= w
    ensures x * w <= y * w
  {
  }

  lemma Doubled(x: int, w: int)
    ensures x * (2 * w) == 2 * x * w
  {
  }

  lemma Pow2At28()
    ensures Pow2(28) == 0x1000_0000
  {
    assert Pow2(7) == 128;
    assert Pow2(14) == 0x4000;
    assert Pow2(21) == 0x20_0000;
  }

  /** A segment of more than `SMALL` elements is never deep enough to exhaust the stack. */
  lemma DepthBound(segs: seq<Segment>, n: int)
    requires Shrinking(segs, n) && n <= INT_MAX
    requires segs != [] && segs[|segs| - 1].Size() > SMALL
    ensures 2 * |segs| < STACK_SLOTS
  {
    var d := |segs| - 1;
    Times(SMALL + 1, segs[d].Size(), Pow2(d));
    assert segs[d].Size() * Pow2(d) <= n;
    hide Pow2, Shrinking;
    if d >= 28 {
      Pow2Monotone(28, d);
      Pow2At28();
    }
  }

  // ----- what the two passes do to the order

  /** Permuting inside the current segment leaves every other pair in order. */
  lemma PermutingKeepsOutside(s: seq<Id>, t: seq<Id>, n: int, below: seq<Segment>, seg: Segment)
    requires 0 <= n < |s| && InRange(below + [seg], n) && Disjoint(below + [seg])
    requires SortedOutside(s, n, below + [seg])
    requires Rearranged(s, t, seg.lo, seg.hi)
    ensures SortedOutside(t, n, below + [seg])
  {
    var segs := below + [seg];
    var d := |below|;
    assert segs[d] == seg;
    forall p, q | 1 <= p < q <= n && !Together(segs, p, q) ensures t[p] >= t[q] {
      assert !seg.Contains(p, q);
      var p', q' := p, q;
      if seg.lo <= p <= seg.hi {
        p' := RearrangedElement(s, t, seg.lo, seg.hi, p);
      }
      if seg.lo <= q <= seg.hi {
        q' := RearrangedElement(s, t, seg.lo, seg.hi, q);
      }
      assert p' < q';
      forall k | 0 <= k < |segs| ensures !segs[k].Contains(p', q') {
        assert !segs[k].Contains(p, q);
        assert k != d ==> segs[k].hi < seg.lo || seg.hi < segs[k].lo;
      }
      assert s[p'] >= s[q'];
    }
  }

  /** Once the current segment is in order it is no longer pending. */
  lemma SegmentDone(s: seq<Id>, n: int, below: seq<Segment>, seg: Segment)
    requires 0 <= n < |s| && SortedOutside(s, n, below + [seg])
    requires forall p, q :: seg.lo <= p < q <= seg.hi && 1 <= p && q <= n ==> s[p] >= s[q]
    ensures SortedOutside(s, n, below)
  {
    var segs := below + [seg];
    forall p, q | 1 <= p < q <= n && !(s[p] >= s[q]) ensures Together(below, p, q) {
      var k :| 0 <= k < |segs| && segs[k].Contains(p, q);
      assert k < |below|;
      assert below[k] == segs[k];
    }
  }

  /** What a partition around `a` establishes: left part, middle and right part of the segment. */
  ghost predicate Partitioned(s: seq<Id>, l: int, ir: int, i: int, j: int, a: Id)
    requires 1 <= l <= ir < |s|
  {
    && l < j < i <= ir
    && (forall p :: l <= p < j ==> s[p] >= a)
    && (forall p :: j <= p < i ==> s[p] == a)
    && (forall p :: i <= p <= ir ==> s[p] <= a)
  }

  lemma SplitKeepsOutside(s: seq<Id>, n: int, below: seq<Segment>, seg: Segment, i: int, j: int, a: Id,
                          first: Segment, second: Segment)
    requires 0 <= n < |s| && InRange(below + [seg], n) && Disjoint(below + [seg]) && 1 <= seg.lo <= seg.hi <= n
    requires SortedOutside(s, n, below + [seg])
    requires Partitioned(s, seg.lo, seg.hi, i, j, a)
    requires || (first == Segment(i, seg.hi) && second == Segment(seg.lo, j - 1))
             || (second == Segment(i, seg.hi) && first == Segment(seg.lo, j - 1))
    ensures SortedOutside(s, n, below + [first, second])
    ensures InRange(below + [first, second], n) && Disjoint(below + [first, second])
  {
    SplitKeepsRanges(n, below, seg, i, j, first, second);
    var was, now := below + [seg], below + [first, second];
    var d := |below|;
    assert was[d] == seg && now[d] == first && now[d + 1] == second;
    forall p, q | 1 <= p < q <= n && !(s[p] >= s[q]) ensures Together(now, p, q) {
      var k :| 0 <= k < |was| && was[k].Contains(p, q);
      if k < d {
        assert now[k] == was[k];
      } else {
        assert q < j || i <= p;
        assert now[d].Contains(p, q) || now[d + 1].Contains(p, q);
      }
    }
  }

  lemma SplitKeepsRanges(n: int, below: seq<Segment>, seg: Segment, i: int, j: int, first: Segment, second: Segment)
    requires InRange(below + [seg], n) && Disjoint(below + [seg]) && 1 <= seg.lo <= seg.hi <= n
    requires seg.lo < j < i <= seg.hi
    requires || (first == Segment(i, seg.hi) && second == Segment(seg.lo, j - 1))
             || (second == Segment(i, seg.hi) && first == Segment(seg.lo, j - 1))
    ensures InRange(below + [first, second], n) && Disjoint(below + [first, second])
  {
    var was, now := below + [seg], below + [first, second];
    var d := |below|;
    assert was[d] == seg;
    assert forall k :: 0 <= k < d ==> now[k] == was[k] && (was[k].hi < seg.lo || seg.hi < was[k].lo);
  }

  lemma LeftFence(s: seq<Id>, n: int, below: seq<Segment>, seg: Segment)
    requires 0 <= n < |s| && InRange(below + [seg], n) && Disjoint(below + [seg])
    requires SortedOutside(s, n, below + [seg])
    ensures seg.hi < |s| && forall p, q :: 1 <= p < seg.lo <= q <= seg.hi ==> s[p] >= s[q]
  {
    var segs := below + [seg];
    assert segs[|below|] == seg;
    forall p, q | 1 <= p < seg.lo <= q <= seg.hi ensures s[p] >= s[q] {
      forall k | 0 <= k < |segs| ensures !segs[k].Contains(p, q) {
        assert k != |below| ==> segs[k].hi < seg.lo || seg.hi < segs[k].lo;
      }
    }
  }

  // ----- one turn of the main loop

  ghost predicate Consistent(s: seq<Id>, n: int, segs: seq<Segment>) {
    && 0 <= n < |s|
    && InRange(segs, n)
    && Disjoint(segs)
    && Shrinking(segs, n)
    && SortedOutside(s, n, segs)
  }

  lemma CurrentBounds(s: seq<Id>, n: int, below: seq<Segment>, seg: Segment)
    requires Consistent(s, n, below + [seg]) && n <= INT_MAX
    ensures 1 <= seg.lo <= seg.hi + 1 <= n + 1 <= |s|
    ensures seg.Size() > SMALL ==> 2 * |below| + 2 < STACK_SLOTS
  {
    assert (below + [seg])[|below|] == seg;
    if seg.Size() > SMALL {
      DepthBound(below + [seg], n);
    }
  }

  lemma AfterInsertion(s: seq<Id>, t: seq<Id>, n: int, below: seq<Segment>, seg: Segment)
    requires Consistent(s, n, below + [seg]) && Rearranged(s, t, seg.lo, seg.hi)
    requires forall p, q :: seg.lo <= p < q <= seg.hi ==> t[p] >= t[q]
    ensures Consistent(t, n, below) && Rearranged(s, t, 1, n)
    ensures 0 <= Total(below) <= Total(below + [seg])
  {
    var segs := below + [seg];
    assert segs[|below|] == seg;
    PermutingKeepsOutside(s, t, n, below, seg);
    SegmentDone(t, n, below, seg);
    RearrangedWiden(s, t, seg.lo, seg.hi, 1, n);
    assert forall k :: 0 <= k < |below| ==> below[k] == segs[k];
    TotalPush(below, seg);
    TotalNonNegative(below, n);
  }

  lemma AfterPartition(s: seq<Id>, t: seq<Id>, n: int, below: seq<Segment>, seg: Segment, i: int, j: int,
                       larger: Segment, smaller: Segment)
    requires Consistent(s, n, below + [seg]) && Rearranged(s, t, seg.lo, seg.hi)
    requires 1 <= seg.lo <= seg.hi <= n && seg.lo < j < i <= seg.hi
    requires Partitioned(t, seg.lo, seg.hi, i, j, t[j])
    requires || (larger == Segment(i, seg.hi) && smaller == Segment(seg.lo, j - 1))
             || (smaller == Segment(i, seg.hi) && larger == Segment(seg.lo, j - 1))
    requires smaller.Size() <= larger.Size()
    ensures Consistent(t, n, below + [larger] + [smaller]) && Rearranged(s, t, 1, n)
    ensures 0 <= Total(below + [larger] + [smaller]) < Total(below + [seg])
  {
    PermutingKeepsOutside(s, t, n, below, seg);
    SplitKeepsOutside(t, n, below, seg, i, j, t[j], larger, smaller);
    SplitShrinks(below, seg, larger, smaller, n);
    RearrangedWiden(s, t, seg.lo, seg.hi, 1, n);
    assert below + [larger] + [smaller] == below + [larger, smaller];
    TotalPush(below, seg);
    TotalPush(below, larger);
    TotalPush(below + [larger], smaller);
    TotalNonNegative(below + [larger] + [smaller], n);
  }

  /** With nothing pending the list is in order. */
  lemma NothingPending(s: seq<Id>, n: int)
    requires Consistent(s, n, [])
    ensures Descending(s[1..n + 1])
  {
    var t := s[1..n + 1];
    forall p, q | 0 <= p < q < n ensures t[p] >= t[q] {
      assert s[p + 1] >= s[q + 1] || Together([], p + 1, q + 1);
    }
  }

  // ----- the passes

  /** `MIDL_SWAP`, inside the segment from `lo` to `hi`. */
  method Swap(ids: array<Id>, x: int, y: int, ghost lo: int, ghost hi: int)
    requires 0 <= lo <= x <= hi < ids.Length && lo <= y <= hi
    modifies ids
    ensures ids[x] == old(ids[y]) && ids[y] == old(ids[x])
    ensures forall p {:trigger ids[p]} :: 0 <= p < ids.Length && p != x && p != y ==> ids[p] == old(ids[p])
    ensures Rearranged(old(ids[..]), ids[..], lo, hi)
  {
    SwapRearranges(ids[..], x, y, lo, hi);
    ids[x], ids[y] := ids[y], ids[x];
  }

  /** `t` is `s` with the element at `j` moved down to `m`, where it belongs. */
  lemma InsertionPlaces(s: seq<Id>, t: seq<Id>, l: int, m: int, j: int, ir: int)
    requires 1 <= l <= m <= j <= ir < |s| && Rotated(s, t, m, j)
    requires forall p, q :: l <= p < q < j ==> s[p] >= s[q]
    requires (l < m ==> s[m - 1] >= s[j]) && (m < j ==> s[m] < s[j])
    ensures Rearranged(s, t, l, ir)
    ensures forall p, q :: l <= p < q <= j ==> t[p] >= t[q]
  {
    RotationRearranges(s, t, m, j, l, ir);
    forall p, q | l <= p < q <= j ensures t[p] >= t[q] {
      assert t[p] == if p < m then s[p] else if p == m then s[j] else s[p - 1];
      assert t[q] == if q < m then s[q] else if q == m then s[j] else s[q - 1];
    }
  }

  /** One turn of the insertion pass: move `ids[j]` down to its place. The scan is bounded by 1, not
      by `l`; it stops at `l` because what lies left of the segment is never smaller. */
  method InsertDown(ids: array<Id>, l: int, j: int, ghost ir: int)
    requires 1 <= l < j <= ir < ids.Length
    requires forall p :: 1 <= p < l ==> ids[p] >= ids[j]
    requires forall p, q :: l <= p < q < j ==> ids[p] >= ids[q]
    modifies ids
    ensures Rearranged(old(ids[..]), ids[..], l, ir)
    ensures forall p :: j < p < ids.Length ==> ids[p] == old(ids[p])
    ensures forall p, q :: l <= p < q <= j ==> ids[p] >= ids[q]
  {
    hide Rearranged;
    ghost var s := ids[..];
    var a := ids[j];
    var i := j - 1;
    while i >= 1
      invariant l - 1 <= i <= j - 1
      invariant forall p {:trigger ids[p]} :: 0 <= p <= i || j < p < ids.Length ==> ids[p] == s[p]
      invariant forall p {:trigger ids[p]} :: i + 1 < p <= j ==> ids[p] == s[p - 1]
      invariant i < j - 1 ==> s[i + 1] < a
    {
      if ids[i] >= a {
        break;
      }
      ids[i + 1] := ids[i];
      i := i - 1;
    }
    ids[i + 1] := a;
    InsertionPlaces(s, ids[..], l, i + 1, j, ir);
  }

  method InsertionSort(ids: array<Id>, l: int, ir: int)
    requires 1 <= l <= ir + 1 <= ids.Length
    requires forall p, q :: 1 <= p < l <= q <= ir ==> ids[p] >= ids[q]
    modifies ids
    ensures Rearranged(old(ids[..]), ids[..], l, ir)
    ensures forall p, q :: l <= p < q <= ir ==> ids[p] >= ids[q]
  {
    var j := l + 1;
    while j <= ir
      invariant l + 1 <= j && (j <= ir + 1 || j == l + 1)
      invariant Rearranged(old(ids[..]), ids[..], l, ir)
      invariant forall p :: j <= p <= ir ==> ids[p] == old(ids[p])
      invariant forall p, q :: l <= p < q < j && q <= ir ==> ids[p] >= ids[q]
    {
      InsertDown(ids, l, j, ir);
      j := j + 1;
    }
  }

  /** Median of three: afterwards `ids[l] >= ids[l + 1] >= ids[ir]`. */
  method MedianOfThree(ids: array<Id>, l: int, ir: int)
    requires 1 <= l && l + SMALL <= ir < ids.Length && l + ir <= INT_MAX
    modifies ids
    ensures Rearranged(old(ids[..]), ids[..], l, ir)
    ensures ids[l] >= ids[l + 1] >= ids[ir]
  {
    var k := (l + ir) / 2;
    Swap(ids, k, l + 1, l, ir);
    if ids[l] < ids[ir] {
      Swap(ids, l, ir, l, ir);
    }
    if ids[l + 1] < ids[ir] {
      Swap(ids, l + 1, ir, l, ir);
    }
    if ids[l] < ids[l + 1] {
      Swap(ids, l, l + 1, l, ir);
    }
  }

  /** `do i++; while (ids[i] > a)`: unguarded, stopped by an element at `stop` that is not above `a`. */
  method ScanUp(ids: array<Id>, start: int, a: Id, ghost stop: int) returns (i: int)
    requires 0 <= start < stop < ids.Length && ids[stop] <= a
    ensures start < i <= stop && ids[i] <= a
    ensures forall p :: start < p < i ==> ids[p] > a
  {
    i := start + 1;
    while ids[i] > a
      invariant start < i <= stop
      invariant forall p :: start < p < i ==> ids[p] > a
      decreases stop - i
    {
      i := i + 1;
    }
  }

  /** `do j--; while (ids[j] < a)`: unguarded, stopped by an element at `stop` that is not below `a`. */
  method ScanDown(ids: array<Id>, start: int, a: Id, ghost stop: int) returns (j: int)
    requires 0 <= stop < start <= ids.Length && ids[stop] >= a
    ensures stop <= j < start && ids[j] >= a
    ensures forall p :: j < p < start ==> ids[p] < a
  {
    j := start - 1;
    while ids[j] < a
      invariant stop <= j < start
      invariant forall p :: j < p < start ==> ids[p] < a
      decreases j
    {
      j := j - 1;
    }
  }

  /** The exchange loop of the partition. The pivot arrangement, and later the elements already
      exchanged, stop both scans inside the segment. */
  method ExchangeAroundPivot(ids: array<Id>, l: int, ir: int) returns (i: int, j: int)
    requires 1 <= l && l + SMALL <= ir < ids.Length
    requires ids[l] >= ids[l + 1] >= ids[ir]
    modifies ids
    ensures Rearranged(old(ids[..]), ids[..], l, ir)
    ensures l < j < i <= ir && ids[l + 1] == old(ids[l + 1])
    ensures forall p :: l <= p <= j ==> ids[p] >= ids[l + 1]
    ensures forall p :: j < p < i ==> ids[p] == ids[l + 1]
    ensures forall p :: i <= p <= ir ==> ids[p] <= ids[l + 1]
  {
    i, j := l + 1, ir;
    var a := ids[l + 1];
    while true
      invariant l + 1 <= i <= j <= ir
      invariant i == j ==> l + 1 < i && j < ir
      invariant ids[l + 1] == a == old(ids[l + 1])
      invariant forall p :: l <= p <= i ==> ids[p] >= a
      invariant forall p :: j <= p <= ir ==> ids[p] <= a
      invariant Rearranged(old(ids[..]), ids[..], l, ir)
      decreases j - i
    {
      ghost var i0 := i;
      i := ScanUp(ids, i, a, if i < j then j else j + 1);
      j := ScanDown(ids, j, a, if i0 < j then i0 else i0 - 1);
      if j < i {
        break;
      }
      Swap(ids, i, j, l, ir);
    }
  }

  method Partition(ids: array<Id>, l: int, ir: int) returns (i: int, j: int)
    requires 1 <= l && l + SMALL <= ir < ids.Length && l + ir <= INT_MAX
    modifies ids
    ensures Rearranged(old(ids[..]), ids[..], l, ir)
    ensures l < j < i <= ir && Partitioned(ids[..], l, ir, i, j, ids[j])
  {
    MedianOfThree(ids, l, ir);
    i, j := ExchangeAroundPivot(ids, l, ir);
    Swap(ids, l + 1, j, l, ir);
  }

  /** The used part of `istack` lists the segments waiting below the current one. */
  ghost predicate Stacked(istack: array<int>, below: seq<Segment>)
    reads istack
  {
    && istack.Length == STACK_SLOTS
    && 2 * |below| < STACK_SLOTS
    && forall k :: 0 <= k < |below| ==> istack[2 * k + 1] == below[k].lo && istack[2 * k + 2] == below[k].hi
  }

  method NewStack() returns (istack: array<int>)
    ensures fresh(istack) && Stacked(istack, [])
  {
    istack := new int[STACK_SLOTS];
  }

  method Push(istack: array<int>, jstack: int, lo: int, hi: int, ghost below: seq<Segment>) returns (top: int)
    requires Stacked(istack, below) && jstack == 2 * |below| && jstack + 2 < STACK_SLOTS
    modifies istack
    ensures Stacked(istack, below + [Segment(lo, hi)]) && top == jstack + 2
  {
    top := jstack + 2;
    istack[top] := hi;
    istack[top - 1] := lo;
  }

  method Pop(istack: array<int>, jstack: int, ghost below: seq<Segment>) returns (lo: int, hi: int, top: int)
    requires Stacked(istack, below) && jstack == 2 * |below| && jstack != 0
    ensures below == below[..|below| - 1] + [Segment(lo, hi)] && top == jstack - 2
    ensures Stacked(istack, below[..|below| - 1])
  {
    hi := istack[jstack];
    lo := istack[jstack - 1];
    top := jstack - 2;
    assert jstack == 2 * (|below| - 1) + 2;
  }

  /** The branch for a short segment. */
  method FinishSegment(ids: array<Id>, l: int, ir: int, ghost n: int, ghost below: seq<Segment>)
    requires n < ids.Length && Consistent(ids[..], n, below + [Segment(l, ir)])
    modifies ids
    ensures Consistent(ids[..], n, below) && Rearranged(old(ids[..]), ids[..], 1, n)
    ensures 0 <= Total(below) <= Total(below + [Segment(l, ir)])
  {
    ghost var s := ids[..];
    ghost var segs := below + [Segment(l, ir)];
    assert segs[|below|] == Segment(l, ir);
    LeftFence(s, n, below, Segment(l, ir));
    InsertionSort(ids, l, ir);
    AfterInsertion(s, ids[..], n, below, Segment(l, ir));
  }

  /** The branch for a long segment: partition it, push the larger part and go on with the other. */
  method SplitSegment(ids: array<Id>, istack: array<int>, l: int, ir: int, jstack: int,
                      ghost n: int, ghost below: seq<Segment>)
    returns (l': int, ir': int, top: int, ghost below': seq<Segment>)
    requires n < ids.Length && Consistent(ids[..], n, below + [Segment(l, ir)])
    requires l + SMALL <= ir && 2 * n - SMALL <= INT_MAX
    requires Stacked(istack, below) && jstack == 2 * |below|
    modifies ids, istack
    ensures Consistent(ids[..], n, below' + [Segment(l', ir')]) && Rearranged(old(ids[..]), ids[..], 1, n)
    ensures Stacked(istack, below') && top == 2 * |below'|
    ensures 0 <= Total(below' + [Segment(l', ir')]) < Total(below + [Segment(l, ir)])
  {
    hide Consistent, Total, Rearranged, Partitioned;
    ghost var s := ids[..];
    ghost var seg := Segment(l, ir);
    CurrentBounds(s, n, below, seg);
    var i, j := Partition(ids, l, ir);
    if ir - i + 1 >= j - l {
      AfterPartition(s, ids[..], n, below, seg, i, j, Segment(i, ir), Segment(l, j - 1));
      top := Push(istack, jstack, i, ir, below);
      below' := below + [Segment(i, ir)];
      l', ir' := l, j - 1;
    } else {
      AfterPartition(s, ids[..], n, below, seg, i, j, Segment(l, j - 1), Segment(i, ir));
      top := Push(istack, jstack, l, j - 1, below);
      below' := below + [Segment(l, j - 1)];
      l', ir' := i, ir;
    }
  }

  lemma Start(s: seq<Id>, n: int)
    requires 0 <= n < |s|
    ensures Consistent(s, n, [] + [Segment(1, n)]) && Rearranged(s, s, 1, n)
    ensures 0 <= Total([] + [Segment(1, n)])
  {
    var segs := [] + [Segment(1, n)];
    TotalNonNegative(segs, n);
    assert Pow2(0) == 1;
    forall p, q | 1 <= p < q <= n ensures Together(segs, p, q) {
      assert segs[0].Contains(p, q);
    }
  }

  /** `mdb_midl_sort`. The precondition keeps `l + ir` within an `int`. */
  method Sort(ids: array<Id>)
    requires 0 < ids.Length && ids[0] < ids.Length && 2 * ids[0] - SMALL <= INT_MAX
    modifies ids
    ensures Rearranged(old(ids[..]), ids[..], 1, old(ids[0]))
    ensures Descending(ids[1..old(ids[0]) + 1])
  {
    hide Consistent, Stacked, Total, Descending, Rearranged;
    var istack := NewStack();
    var l, ir, jstack := 1, ids[0], 0;
    ghost var n, s := ids[0], ids[..];
    ghost var below: seq<Segment> := [];
    Start(s, n);
    while true
      invariant 2 * n - SMALL <= INT_MAX && n < ids.Length
      invariant fresh(istack) && Stacked(istack, below) && jstack == 2 * |below|
      invariant Consistent(ids[..], n, below + [Segment(l, ir)])
      invariant Rearranged(s, ids[..], 1, n)
      invariant 0 <= Total(below + [Segment(l, ir)])
      decreases Total(below + [Segment(l, ir)]), |below|
    {
      ghost var t := ids[..];
      if ir - l < SMALL {
        FinishSegment(ids, l, ir, n, below);
        RearrangedTransitive(s, t, ids[..], 1, n);
        if jstack == 0 {
          break;
        }
        l, ir, jstack := Pop(istack, jstack, below);
        below := below[..|below| - 1];
      } else {
        l, ir, jstack, below := SplitSegment(ids, istack, l, ir, jstack, n, below);
        RearrangedTransitive(s, t, ids[..], 1, n);
      }
    }
    assert below == [];
    NothingPending(ids[..], n);
  }
}
