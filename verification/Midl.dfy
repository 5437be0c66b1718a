/** ID lists of LMDB (`midl.c`): element type and the vocabulary shared by the list algorithms. */
module IdLists {
  const ID_LIMIT := 0x1_0000_0000_0000_0000

  /** `MDB_ID`, a 64-bit `size_t`. */
  type Id = x: int | 0 <= x < ID_LIMIT

  const ID_MAX: Id := ID_LIMIT - 1

  /** The order LMDB keeps its ID lists in. */
  ghost predicate Descending(s: seq<Id>) {
    forall p, q :: 0 <= p < q < |s| ==> s[p] >= s[q]
  }

  /** `t` is `s` with the elements at positions `lo` to `hi` permuted among themselves. */
  ghost predicate Rearranged(s: seq<Id>, t: seq<Id>, lo: int, hi: int) {
    && 0 <= lo <= hi + 1 <= |s| == |t|
    && (forall p :: 0 <= p < |s| && !(lo <= p <= hi) ==> t[p] == s[p])
    && multiset(t[lo..hi + 1]) == multiset(s[lo..hi + 1])
  }

  lemma RearrangedElement(s: seq<Id>, t: seq<Id>, lo: int, hi: int, q: int) returns (r: int)
    requires Rearranged(s, t, lo, hi) && lo <= q <= hi
    ensures lo <= r <= hi && s[r] == t[q]
  {
    var x := t[q];
    assert x == t[lo..hi + 1][q - lo];
    assert x in multiset(t[lo..hi + 1]);
    assert x in s[lo..hi + 1];
    var k :| 0 <= k < hi + 1 - lo && s[lo..hi + 1][k] == x;
    r := lo + k;
  }

  lemma SwapRearranges(s: seq<Id>, x: int, y: int, lo: int, hi: int)
    requires 0 <= lo <= x <= hi < |s| && lo <= y <= hi
    ensures Rearranged(s, s[x := s[y]][y := s[x]], lo, hi)
  {
    var t := s[x := s[y]][y := s[x]];
    var a := s[lo..hi + 1];
    assert t[lo..hi + 1] == a[x - lo := a[y - lo]][y - lo := a[x - lo]];
  }

  lemma RearrangedTransitive(s: seq<Id>, t: seq<Id>, u: seq<Id>, lo: int, hi: int)
    requires Rearranged(s, t, lo, hi) && Rearranged(t, u, lo, hi)
    ensures Rearranged(s, u, lo, hi)
  {
  }

  /** In `t` the element at `j` of `s` has moved down to `m`, and the ones in between up by one. */
  ghost predicate Rotated(s: seq<Id>, t: seq<Id>, m: int, j: int)
    requires 0 <= m <= j < |s|
  {
    && |t| == |s| && t[m] == s[j]
    && (forall p {:trigger t[p]} :: 0 <= p < m || j < p < |s| ==> t[p] == s[p])
    && (forall p {:trigger t[p]} :: m < p <= j ==> t[p] == s[p - 1])
  }

  lemma RotatedStep(s: seq<Id>, t: seq<Id>, m: int, j: int)
    requires 0 <= m < j < |s| && Rotated(s, t, m, j)
    ensures Rotated(s[j - 1 := s[j]][j := s[j - 1]], t, m, j - 1)
  {
  }

  lemma RotatedNowhere(s: seq<Id>, t: seq<Id>, j: int, lo: int, hi: int)
    requires 0 <= lo <= j <= hi < |s| && Rotated(s, t, j, j)
    ensures Rearranged(s, t, lo, hi)
  {
    assert s == t;
  }

  /** That is a permutation. */
  lemma {:induction false} RotationRearranges(s: seq<Id>, t: seq<Id>, m: int, j: int, lo: int, hi: int)
    requires 0 <= lo <= m <= j <= hi < |s| && Rotated(s, t, m, j)
    ensures Rearranged(s, t, lo, hi)
    decreases j
  {
    hide Rearranged, Rotated;
    if m == j {
      RotatedNowhere(s, t, j, lo, hi);
    } else {
      var u := s[j - 1 := s[j]][j := s[j - 1]];
      SwapRearranges(s, j - 1, j, lo, hi);
      RotatedStep(s, t, m, j);
      RotationRearranges(u, t, m, j - 1, lo, hi);
      RearrangedTransitive(s, u, t, lo, hi);
    }
  }

  lemma Slices(s: seq<Id>, i: int, j: int, k: int, l: int)
    requires 0 <= i <= j <= k <= l <= |s|
    ensures multiset(s[i..l]) == multiset(s[i..j]) + multiset(s[j..k]) + multiset(s[k..l])
  {
    assert s[i..l] == s[i..j] + s[j..k] + s[k..l];
  }

  /** A permutation inside a narrow range is one inside every wider range. */
  lemma RearrangedWiden(s: seq<Id>, t: seq<Id>, lo: int, hi: int, lo': int, hi': int)
    requires Rearranged(s, t, lo, hi) && 0 <= lo' <= lo && hi <= hi' < |s|
    ensures Rearranged(s, t, lo', hi')
  {
    assert s[lo'..lo] == t[lo'..lo];
    assert s[hi + 1..hi' + 1] == t[hi + 1..hi' + 1];
    WiderElements(s, t, lo, hi, lo', hi');
  }

  lemma WiderElements(s: seq<Id>, t: seq<Id>, lo: int, hi: int, lo': int, hi': int)
    requires 0 <= lo' <= lo <= hi + 1 && hi <= hi' < |s| == |t|
    requires s[lo'..lo] == t[lo'..lo] && s[hi + 1..hi' + 1] == t[hi + 1..hi' + 1]
    requires multiset(t[lo..hi + 1]) == multiset(s[lo..hi + 1])
    ensures multiset(t[lo'..hi' + 1]) == multiset(s[lo'..hi' + 1])
  {
    Slices(s, lo', lo, hi + 1, hi' + 1);
    Slices(t, lo', lo, hi + 1, hi' + 1);
  }

  lemma HeadIsGreatest(s: seq<Id>, x: Id)
    requires Descending(s) && s != [] && (x in s || x in multiset(s))
    ensures x <= s[0]
  {
  }

  /** A descending list is determined by its multiset of elements. */
  lemma {:induction false} DescendingUnique(s: seq<Id>, t: seq<Id>)
    requires Descending(s) && Descending(t) && multiset(s) == multiset(t)
    ensures s == t
  {
    assert |multiset(s)| == |s| && |multiset(t)| == |t|;
    if s != [] {
      HeadIsGreatest(s, t[0]);
      HeadIsGreatest(t, s[0]);
      assert s[0] == t[0];
      hide Descending;
      DropHead(s);
      DropHead(t);
      assert multiset(s[1..]) == multiset(s) - multiset{s[0]} == multiset(t[1..]);
      DescendingUnique(s[1..], t[1..]);
    }
  }

  lemma DropHead(s: seq<Id>)
    requires Descending(s) && s != []
    ensures s == [s[0]] + s[1..] && Descending(s[1..])
    ensures multiset(s) == multiset{s[0]} + multiset(s[1..])
  {
    assert s == [s[0]] + s[1..];
  }
}
