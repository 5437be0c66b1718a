/** `mdb_mid2l_search`, `mdb_mid2l_insert` and `mdb_mid2l_append` of `midl.c`: lists of id/pointer
    pairs in ascending order of id. */
module MidlInsert {
  import opened IdLists
  import opened MidlMerge

  /** `MDB_IDL_UM_MAX` */
  const UM_MAX := 0x1_ffff

  /** `MDB_ID2`; pointers are opaque. */
  datatype Id2 = Id2(mid: Id, mptr: int)

  ghost predicate Ascending(s: seq<Id2>) {
    forall p, q :: 0 <= p < q < |s| ==> s[p].mid < s[q].mid
  }

  ghost predicate HasKey(s: seq<Id2>, id: Id) {
    exists p :: 0 <= p < |s| && s[p].mid == id
  }

  ghost function Elements(s: seq<Id2>): set<Id2> {
    set e | e in s
  }

  /** `e` put in front of the first element with a larger id. */
  ghost function Placed(s: seq<Id2>, e: Id2): seq<Id2> {
    if s == [] || e.mid < s[0].mid then [e] + s else [s[0]] + Placed(s[1..], e)
  }

  /** The list after one insertion: unchanged when the id is present or the list is full. */
  ghost function Inserted(s: seq<Id2>, e: Id2): seq<Id2> {
    if HasKey(s, e.mid) || |s| >= UM_MAX then s else Placed(s, e)
  }

  lemma {:induction false} PlacedAt(s: seq<Id2>, e: Id2, x: nat)
    requires x <= |s|
    requires forall p :: 0 <= p < x ==> s[p].mid < e.mid
    requires x < |s| ==> e.mid < s[x].mid
    ensures Placed(s, e) == s[..x] + [e] + s[x..]
  {
    if 0 < x {
      PlacedAt(s[1..], e, x - 1);
      assert s[1..][..x - 1] == s[1..x];
      assert s[..x] == [s[0]] + s[1..x];
    }
  }

  /** Insertion into an ordered list adds exactly the new pair and keeps the order. */
  lemma {:induction false} PlacedProperties(s: seq<Id2>, e: Id2)
    requires Ascending(s) && !HasKey(s, e.mid)
    ensures Ascending(Placed(s, e)) && |Placed(s, e)| == |s| + 1
    ensures Elements(Placed(s, e)) == Elements(s) + {e}
  {
    if s == [] {
    } else if s[0].mid <= e.mid {
      RestElements(s);
      PlacedProperties(s[1..], e);
      AscendingCons(s[0], Placed(s[1..], e));
    } else {
      AscendingCons(e, s);
    }
  }

  lemma AscendingCons(x: Id2, r: seq<Id2>)
    requires Ascending(r) && forall y :: y in Elements(r) ==> x.mid < y.mid
    ensures Ascending([x] + r) && Elements([x] + r) == {x} + Elements(r)
  {
    assert forall p :: 0 <= p < |r| ==> r[p] in Elements(r);
  }

  /** An ascending list is determined by its set of elements. */
  lemma {:induction false} AscendingUnique(s: seq<Id2>, t: seq<Id2>)
    requires Ascending(s) && Ascending(t) && Elements(s) == Elements(t)
    ensures s == t
  {
    NoElements(s);
    NoElements(t);
    if s != [] {
      assert s[0] in Elements(t) && t[0] in Elements(s);
      assert s[0] == t[0];
      RestElements(s);
      RestElements(t);
      AscendingUnique(s[1..], t[1..]);
    }
  }

  lemma NoElements(s: seq<Id2>)
    ensures s == [] <==> Elements(s) == {}
  {
    assert s != [] ==> s[0] in Elements(s);
  }

  lemma RestElements(s: seq<Id2>)
    requires Ascending(s) && s != []
    ensures Ascending(s[1..]) && Elements(s[1..]) == Elements(s) - {s[0]}
    ensures s == [s[0]] + s[1..] && Elements(s) == {s[0]} + Elements(s[1..])
    ensures forall y :: y in Elements(s[1..]) ==> s[0].mid < y.mid
  {
  }

  // ----- runs of insertions

  ghost function InsertAll(es: seq<Id2>): seq<Id2> {
    if es == [] then [] else Inserted(InsertAll(es[..|es| - 1]), es[|es| - 1])
  }

  /** Position `k` of a run of insertions offers a new id. */
  ghost predicate FirstOfItsId(es: seq<Id2>, k: int)
    requires 0 <= k < |es|
  {
    forall j :: 0 <= j < k ==> es[j].mid != es[k].mid
  }

  ghost function Firsts(es: seq<Id2>): set<Id2> {
    set k | 0 <= k < |es| && FirstOfItsId(es, k) :: es[k]
  }

  /** Any run of insertions yields the ascending list of the first pair of every id, up to the point
      `c` where the list is full, if it ever is. */
  lemma {:induction false} RunOfInsertions(es: seq<Id2>) returns (c: nat)
    ensures c <= |es| && Elements(InsertAll(es)) == Firsts(es[..c])
    ensures Ascending(InsertAll(es)) && |InsertAll(es)| <= UM_MAX
    ensures c < |es| ==> |InsertAll(es)| == UM_MAX
  {
    if es == [] {
      c := 0;
    } else {
      var before, e := es[..|es| - 1], es[|es| - 1];
      var s := InsertAll(before);
      c := RunOfInsertions(before);
      assert es[..c] == before[..c];
      if |s| < UM_MAX {
        assert before[..c] == before && es[..|es|] == es;
        OneMoreInsertion(es);
        c := |es|;
      }
    }
  }

  lemma OneMoreInsertion(es: seq<Id2>)
    requires es != []
    requires var s := InsertAll(es[..|es| - 1]);
      Ascending(s) && |s| < UM_MAX && Elements(s) == Firsts(es[..|es| - 1])
    ensures Ascending(InsertAll(es)) && |InsertAll(es)| <= UM_MAX && Elements(InsertAll(es)) == Firsts(es)
  {
    var before, e := es[..|es| - 1], es[|es| - 1];
    var s := InsertAll(before);
    FirstsOfPrefix(es);
    OffersNewIff(es, s);
    hide Ascending, Elements, Firsts, Placed, HasKey, FirstOfItsId;
    if !HasKey(s, e.mid) {
      PlacedProperties(s, e);
    }
  }

  lemma OffersNewIff(es: seq<Id2>, s: seq<Id2>)
    requires es != [] && Elements(s) == Firsts(es[..|es| - 1])
    ensures FirstOfItsId(es, |es| - 1) <==> !HasKey(s, es[|es| - 1].mid)
  {
    var before, id := es[..|es| - 1], es[|es| - 1].mid;
    KeysOfFirsts(before, id);
    KeyOfElement(s, id);
    hide Elements, Firsts, HasKey;
    assert forall k :: 0 <= k < |before| ==> before[k] == es[k];
  }

  lemma KeyOfElement(s: seq<Id2>, id: Id)
    ensures HasKey(s, id) <==> exists x :: x in Elements(s) && x.mid == id
  {
    assert forall p :: 0 <= p < |s| ==> s[p] in Elements(s);
  }

  lemma FirstsOfPrefix(es: seq<Id2>)
    requires es != []
    ensures var before := es[..|es| - 1];
      Firsts(es) == if FirstOfItsId(es, |es| - 1) then Firsts(before) + {es[|es| - 1]} else Firsts(before)
  {
    var n := |es| - 1;
    var before := es[..n];
    forall x ensures x in Firsts(es) <==> x in Firsts(before) || (x == es[n] && FirstOfItsId(es, n)) {
      FirstsMember(es, x);
    }
  }

  lemma FirstsMember(es: seq<Id2>, x: Id2)
    requires es != []
    ensures x in Firsts(es) <==>
            x in Firsts(es[..|es| - 1]) || (x == es[|es| - 1] && FirstOfItsId(es, |es| - 1))
  {
    var before := es[..|es| - 1];
    if x in Firsts(es) {
      var k :| 0 <= k < |es| && FirstOfItsId(es, k) && es[k] == x;
      if k < |before| {
        SameBefore(es, k);
        assert before[k] == x;
      }
    }
    if x in Firsts(before) {
      var k :| 0 <= k < |before| && FirstOfItsId(before, k) && before[k] == x;
      SameBefore(es, k);
      assert es[k] == x;
    }
  }

  lemma SameBefore(es: seq<Id2>, k: nat)
    requires k < |es| - 1
    ensures FirstOfItsId(es[..|es| - 1], k) <==> FirstOfItsId(es, k)
  {
    var before := es[..|es| - 1];
    assert before[k] == es[k];
    assert forall j :: 0 <= j < k ==> before[j] == es[j];
  }

  /** An id occurs in a run exactly if it occurs among the first pairs. */
  lemma KeysOfFirsts(es: seq<Id2>, id: Id)
    ensures (exists x :: x in Firsts(es) && x.mid == id) <==> exists k :: 0 <= k < |es| && es[k].mid == id
  {
    if k :| 0 <= k < |es| && es[k].mid == id {
      var f := FirstWith(es, id, k);
      assert es[f] in Firsts(es);
    }
  }

  lemma {:induction false} FirstWith(es: seq<Id2>, id: Id, k: int) returns (f: int)
    requires 0 <= k < |es| && es[k].mid == id
    ensures 0 <= f <= k && es[f].mid == id && FirstOfItsId(es, f)
    decreases k
  {
    if j :| 0 <= j < k && es[j].mid == id {
      f := FirstWith(es, id, j);
    } else {
      f := k;
    }
  }

  // ----- the code

  /** The list held in slots 1 and up; slot 0 counts. */
  ghost function Listed(ids: array<Id2>): seq<Id2>
    requires 0 < ids.Length && ids[0].mid < ids.Length
    reads ids
  {
    ids[1..ids[0].mid + 1]
  }

  /** `mdb_mid2l_search`: the first position whose id is not below the key. */
  method Search2(ids: array<Id2>, id: Id) returns (cursor: int)
    requires 0 < ids.Length && ids[0].mid < ids.Length && ids[0].mid <= UINT_MAX
    requires Ascending(Listed(ids))
    ensures 1 <= cursor <= ids[0].mid + 1
    ensures forall p :: 1 <= p < cursor ==> ids[p].mid < id
    ensures forall p :: cursor <= p <= ids[0].mid ==> ids[p].mid >= id
  {
    ghost var s := Listed(ids);
    assert forall p :: 1 <= p <= ids[0].mid ==> ids[p] == s[p - 1];
    var base, n, val := 0, ids[0].mid as int, 0;
    cursor := 1;
    while 0 < n
      invariant 0 <= base && 0 <= n && base + n <= ids[0].mid
      invariant forall p :: 1 <= p <= base ==> ids[p].mid < id
      invariant forall p :: base + n < p <= ids[0].mid ==> ids[p].mid > id
      invariant val > 0 ==> cursor == base
      invariant val < 0 ==> cursor == base + n + 1
      invariant val == 0 ==> base == 0 && cursor == 1 && n == ids[0].mid
    {
      var pivot := n / 2;
      cursor := base + pivot + 1;
      val := Cmp(id, ids[cursor].mid);
      if val < 0 {
        n := pivot;
      } else if val > 0 {
        base := cursor;
        n := n - (pivot + 1);
      } else {
        return;
      }
    }
    if val > 0 {
      cursor := cursor + 1;
    }
  }

  /** The shift of `mdb_mid2l_insert`: open slot `x` by moving the elements from `x` up by one. */
  method OpenSlot(ids: array<Id2>, x: int, n: int)
    requires 1 <= x <= n < ids.Length
    modifies ids
    ensures forall p :: 0 <= p < ids.Length && !(x < p <= n) ==> ids[p] == old(ids[p])
    ensures forall p :: x < p <= n ==> ids[p] == old(ids[p - 1])
  {
    ghost var s := ids[..];
    var i := n;
    while i > x
      invariant x <= i <= n
      invariant forall p {:trigger ids[p]} :: 0 <= p <= i || n < p < ids.Length ==> ids[p] == s[p]
      invariant forall p {:trigger ids[p]} :: i < p <= n ==> ids[p] == s[p - 1]
    {
      ids[i] := ids[i - 1];
      i := i - 1;
    }
  }

  /** The end of `mdb_mid2l_insert`: the pair goes into slot `x`. */
  method InsertAt(ids: array<Id2>, x: int, id: Id2)
    requires ids.Length > UM_MAX && ids[0].mid < UM_MAX && 1 <= x <= ids[0].mid + 1
    modifies ids
    ensures ids[0].mid == old(ids[0].mid) + 1
    ensures Listed(ids) == old(Listed(ids)[..x - 1]) + [id] + old(Listed(ids)[x - 1..])
    ensures OnlyListChanged(old(ids[..]), ids[..], ids[0].mid)
  {
    ghost var s, n := ids[..], ids[0].mid;
    ids[0] := ids[0].(mid := ids[0].mid + 1);
    OpenSlot(ids, x, ids[0].mid);
    ids[x] := id;
    OneMore(s, ids[..], x, n, id);
  }

  /** Beyond the list nothing has changed, nor has the pointer of slot 0. */
  ghost predicate OnlyListChanged(s: seq<Id2>, t: seq<Id2>, n: int)
    requires 0 < |s| == |t|
  {
    t[0].mptr == s[0].mptr && forall p :: 0 < p < |s| && n < p ==> t[p] == s[p]
  }

  lemma OneMore(s: seq<Id2>, t: seq<Id2>, x: int, n: int, id: Id2)
    requires 1 <= x <= n + 1 < |s| == |t| && t[x] == id
    requires forall p {:trigger t[p]} :: 1 <= p < x ==> t[p] == s[p]
    requires forall p {:trigger t[p]} :: x < p <= n + 1 ==> t[p] == s[p - 1]
    ensures t[1..n + 2] == s[1..n + 1][..x - 1] + [id] + s[1..n + 1][x - 1..]
  {
    CutAt(t, 1, x, n + 2);
    CutAt(t, x, x + 1, n + 2);
    assert t[x..x + 1] == [t[x]];
    assert t[1..x] == s[1..x] == s[1..n + 1][..x - 1];
    var back, was := t[x + 1..n + 2], s[x..n + 1];
    assert forall i :: 0 <= i < |back| ==> back[i] == t[x + 1 + i] == was[i];
    assert back == was == s[1..n + 1][x - 1..];
  }

  lemma CutAt(s: seq<Id2>, i: int, j: int, k: int)
    requires 0 <= i <= j <= k <= |s|
    ensures s[i..k] == s[i..j] + s[j..k]
  {
  }

  /** `mdb_mid2l_insert` */
  method Insert2(ids: array<Id2>, id: Id2) returns (rc: int)
    requires ids.Length > UM_MAX && ids[0].mid <= UM_MAX && Ascending(Listed(ids))
    modifies ids
    ensures ids[0].mid <= UM_MAX && Ascending(Listed(ids))
    ensures Listed(ids) == Inserted(old(Listed(ids)), id)
    ensures rc == if HasKey(old(Listed(ids)), id.mid) then -1
                  else if |old(Listed(ids))| >= UM_MAX then -2 else 0
    ensures rc != 0 ==> ids[..] == old(ids[..])
    ensures OnlyListChanged(old(ids[..]), ids[..], ids[0].mid)
  {
    ghost var s := Listed(ids);
    assert forall p :: 1 <= p <= ids[0].mid ==> ids[p] == s[p - 1];
    var x := Search2(ids, id.mid);
    if x < 1 {
      return -2;
    }
    if x <= ids[0].mid && ids[x].mid == id.mid {
      return -1;
    }
    if ids[0].mid >= UM_MAX {
      return -2;
    }
    InsertAt(ids, x, id);
    PlacedAt(s, id, x - 1);
    PlacedProperties(s, id);
    return 0;
  }

  /** `mdb_mid2l_append` */
  method Append2(ids: array<Id2>, id: Id2) returns (rc: int)
    requires ids.Length > UM_MAX && ids[0].mid <= UM_MAX
    modifies ids
    ensures ids[0].mid <= UM_MAX
    ensures if |old(Listed(ids))| >= UM_MAX then rc == -2 && ids[..] == old(ids[..])
            else rc == 0 && Listed(ids) == old(Listed(ids)) + [id]
    ensures OnlyListChanged(old(ids[..]), ids[..], ids[0].mid)
  {
    if ids[0].mid >= UM_MAX {
      return -2;
    }
    ids[0] := ids[0].(mid := ids[0].mid + 1);
    ids[ids[0].mid] := id;
    return 0;
  }
}
