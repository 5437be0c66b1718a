/** `find_range` of the memory service (`libmemsvc.c`): a linked list of address ranges in which the
    range found moves to the front. */
module Ranges {
  class Range {
    const start: int
    const end: int
    const readonly: bool
    var next: Range?

    constructor (start: int, end: int, readonly: bool, next: Range?)
      ensures this.start == start && this.end == end && this.readonly == readonly && this.next == next
    {
      this.start, this.end, this.readonly, this.next := start, end, readonly, next;
    }

    predicate Matches(addr: int, writeable: bool) {
      start <= addr <= end && (!writeable || !readonly)
    }
  }

  /** Position of the first range that serves the access, or the length of the list. */
  ghost function FirstMatch(s: seq<Range>, addr: int, writeable: bool): (k: nat)
    ensures k <= |s| && (k < |s| ==> s[k].Matches(addr, writeable))
    ensures forall j :: 0 <= j < k ==> !s[j].Matches(addr, writeable)
  {
    if s == [] || s[0].Matches(addr, writeable) then 0 else 1 + FirstMatch(s[1..], addr, writeable)
  }

  /** Every range begins behind the address, ends before it, or may not be written as it is to be. */
  ghost predicate NoneServes(s: seq<Range>, addr: int, writeable: bool) {
    forall r <- s :: addr < r.start || r.end < addr || (writeable && r.readonly)
  }

  /** A plain scan, without rearranging anything. */
  ghost function Scan(s: seq<Range>, addr: int, writeable: bool): Range? {
    var k := FirstMatch(s, addr, writeable);
    if addr % 4 != 0 || k == |s| then null else s[k]
  }

  /** Element `k` in front, everything else in the order it had. */
  ghost function ToFront(s: seq<Range>, k: nat): seq<Range>
    requires k < |s|
  {
    [s[k]] + s[..k] + s[k + 1..]
  }

  ghost predicate Distinct(s: seq<Range>) {
    forall i, j :: 0 <= i < j < |s| ==> s[i] != s[j]
  }

  ghost function Members(s: seq<Range>): set<Range> {
    set r | r in s
  }

  /** No access is served by two ranges: a condition that does not depend on their order. */
  ghost predicate Exclusive(s: seq<Range>) {
    forall r1, r2, addr, writeable ::
      r1 in s && r2 in s && r1.Matches(addr, writeable) && r2.Matches(addr, writeable) ==> r1 == r2
  }

  lemma ToFrontKeeps(s: seq<Range>, k: nat)
    requires k < |s| && Distinct(s)
    ensures Distinct(ToFront(s, k)) && Members(ToFront(s, k)) == Members(s)
  {
    assert s == s[..k] + [s[k]] + s[k + 1..];
  }

  /** When no access is served twice, the order of the list does not matter. */
  lemma ScanIgnoresOrder(s: seq<Range>, t: seq<Range>, addr: int, writeable: bool)
    requires Members(s) == Members(t) && Exclusive(s)
    ensures Scan(s, addr, writeable) == Scan(t, addr, writeable)
  {
    var j, k := FirstMatch(s, addr, writeable), FirstMatch(t, addr, writeable);
    if j < |s| {
      assert s[j] in Members(t);
    }
    if k < |t| {
      assert t[k] in Members(s);
    }
  }

  // ----- when the order of the list cannot be noticed

  /** The list after one lookup. */
  ghost function Moved(s: seq<Range>, addr: int, writeable: bool): (t: seq<Range>)
    ensures |t| == |s|
  {
    var k := FirstMatch(s, addr, writeable);
    if addr % 4 != 0 || k == |s| then s else ToFront(s, k)
  }

  ghost function MovedBy(s: seq<Range>, queries: seq<(int, bool)>): seq<Range> {
    if queries == [] then s
    else
      var last := queries[|queries| - 1];
      Moved(MovedBy(s, queries[..|queries| - 1]), last.0, last.1)
  }

  /** Some lookup in `s` finds the range at `j`. */
  ghost predicate Found(s: seq<Range>, j: nat) {
    j < |s| && exists addr, writeable :: addr % 4 == 0 && FirstMatch(s, addr, writeable) == j
  }

  /** No access, at an aligned address, is served by both. */
  ghost predicate Apart(r1: Range, r2: Range) {
    forall addr, writeable ::
      addr % 4 == 0 && r1.Matches(addr, writeable) ==> !r2.Matches(addr, writeable)
  }

  /** Every range that can be found shares no access with any range in front of it. */
  ghost predicate Harmless(s: seq<Range>) {
    forall i, j :: 0 <= i < j < |s| && Found(s, j) ==> Apart(s[i], s[j])
  }

  /** Ranges that serve nothing twice are harmless, in whatever order. */
  lemma ExclusiveIsHarmless(s: seq<Range>)
    requires Distinct(s) && Exclusive(s)
    ensures Harmless(s)
  {
  }

  ghost predicate InFront(t: seq<Range>, a: Range, b: Range) {
    exists p, q :: 0 <= p < q < |t| && t[p] == a && t[q] == b
  }

  /** `t` holds the ranges of `s`, and those that are never found have stayed behind all that were in front
      of them. */
  ghost predicate Reordered(s: seq<Range>, t: seq<Range>) {
    && Distinct(t) && Members(t) == Members(s)
    && forall i, j :: 0 <= i < j < |s| && !Found(s, j) ==> InFront(t, s[i], s[j])
  }

  lemma ReorderedSelf(s: seq<Range>)
    requires Distinct(s)
    ensures Reordered(s, s)
  {
  }

  /** A range that shares an access with one in front of it is still behind that one. */
  lemma StaysBehind(s: seq<Range>, t: seq<Range>, j: nat, i: nat, addr: int, writeable: bool)
    requires Harmless(s) && Reordered(s, t) && j < i < |s| && addr % 4 == 0
    requires s[j].Matches(addr, writeable) && s[i].Matches(addr, writeable)
    ensures InFront(t, s[j], s[i])
  {
    assert !Apart(s[j], s[i]);
    assert !Found(s, i);
  }

  /** Such a list answers every access as `s` does. */
  lemma ReorderedScans(s: seq<Range>, t: seq<Range>, addr: int, writeable: bool)
    requires Distinct(s) && Harmless(s) && Reordered(s, t)
    ensures Scan(t, addr, writeable) == Scan(s, addr, writeable)
  {
    assert Members(t) == Members(s) && Distinct(t);
    hide Harmless, Reordered;
    var j, k := FirstMatch(s, addr, writeable), FirstMatch(t, addr, writeable);
    if addr % 4 == 0 {
      if j < |s| {
        assert s[j] in Members(t);
      }
      if k < |t| {
        assert t[k] in Members(s);
        var i :| 0 <= i < |s| && s[i] == t[k];
        assert j <= i;
        if j < i {
          StaysBehind(s, t, j, i, addr, writeable);
        }
      }
    }
  }

  /** Bringing a range of `s` that can be found to the front keeps that. */
  lemma MovingKeepsReordered(s: seq<Range>, t: seq<Range>, k: nat, f: nat)
    requires Distinct(s) && Reordered(s, t) && k < |t| && Found(s, f) && t[k] == s[f]
    ensures Reordered(s, ToFront(t, k))
  {
    ToFrontKeeps(t, k);
    hide InFront, ToFront, Found;
    forall i, j | 0 <= i < j < |s| && !Found(s, j) ensures InFront(ToFront(t, k), s[i], s[j]) {
      assert j != f && s[j] != t[k];
      StaysInFront(t, k, s[i], s[j]);
    }
  }

  lemma StaysInFront(t: seq<Range>, k: nat, a: Range, b: Range)
    requires k < |t| && InFront(t, a, b) && b != t[k]
    ensures InFront(ToFront(t, k), a, b)
  {
    var u := ToFront(t, k);
    var p, q :| 0 <= p < q < |t| && t[p] == a && t[q] == b;
    var p', q' := if p == k then 0 else if p < k then p + 1 else p, if q < k then q + 1 else q;
    assert u[p'] == t[p] && u[q'] == t[q];
  }

  lemma {:induction false} MovedReordered(s: seq<Range>, queries: seq<(int, bool)>)
    requires Distinct(s) && Harmless(s)
    ensures Reordered(s, MovedBy(s, queries))
  {
    hide Harmless, Reordered, Distinct;
    if queries == [] {
      ReorderedSelf(s);
    } else {
      var front, last := queries[..|queries| - 1], queries[|queries| - 1];
      MovedReordered(s, front);
      MoveReordered(s, MovedBy(s, front), last.0, last.1);
    }
  }

  lemma MoveReordered(s: seq<Range>, t: seq<Range>, addr: int, writeable: bool)
    requires Distinct(s) && Harmless(s) && Reordered(s, t)
    ensures Reordered(s, Moved(t, addr, writeable))
  {
    hide Harmless, Reordered, ToFront;
    ReorderedScans(s, t, addr, writeable);
    var f, k := FirstMatch(s, addr, writeable), FirstMatch(t, addr, writeable);
    if addr % 4 == 0 && k < |t| {
      assert t[k] == s[f] && Found(s, f);
      MovingKeepsReordered(s, t, k, f);
    }
  }

  /** Lookups of every history answer as a plain scan of the original list exactly if that is harmless. */
  lemma NeverNoticedIff(s: seq<Range>)
    requires Distinct(s)
    ensures (forall queries, addr, writeable :: Scan(MovedBy(s, queries), addr, writeable) == Scan(s, addr, writeable))
            <==> Harmless(s)
  {
    if Harmless(s) {
      forall queries, addr, writeable
        ensures Scan(MovedBy(s, queries), addr, writeable) == Scan(s, addr, writeable)
      {
        MovedReordered(s, queries);
        ReorderedScans(s, MovedBy(s, queries), addr, writeable);
      }
    } else {
      var i, j :| 0 <= i < j < |s| && Found(s, j) && !Apart(s[i], s[j]);
      var queries, addr, writeable := Noticed(s, i, j);
    }
  }

  /** A range brought to the front takes the accesses it shares from the one that served them. */
  lemma Noticed(s: seq<Range>, i: nat, j: nat) returns (queries: seq<(int, bool)>, addr: int, writeable: bool)
    requires Distinct(s) && i < j < |s| && Found(s, j) && !Apart(s[i], s[j])
    ensures Scan(MovedBy(s, queries), addr, writeable) != Scan(s, addr, writeable)
  {
    var a, w :| a % 4 == 0 && FirstMatch(s, a, w) == j;
    addr, writeable :| addr % 4 == 0 && s[i].Matches(addr, writeable) && s[j].Matches(addr, writeable);
    queries := [(a, w)];
    assert queries[..0] == [] && MovedBy(s, queries) == ToFront(s, j);
    assert FirstMatch(ToFront(s, j), addr, writeable) == 0;
  }

  ghost function Behind(s: seq<Range>, i: int): Range?
    requires 0 <= i < |s|
  {
    if i + 1 < |s| then s[i + 1] else null
  }

  /** Where the element at `j` points once the one at `k` has been relinked to the front. */
  ghost function NextOf(s: seq<Range>, k: nat, j: nat): Range?
    requires k < |s| && j < |s|
  {
    if j == k && k > 0 then s[0] else if j + 1 == k then Behind(s, k) else Behind(s, j)
  }

  lemma LinkedInFront(s: seq<Range>, k: nat)
    requires k < |s| && forall j :: 0 <= j < |s| ==> s[j].next == NextOf(s, k, j)
    ensures var t := ToFront(s, k);
      |t| == |s| && forall i :: 0 <= i < |t| ==> t[i].next == Behind(t, i)
  {
    var t := ToFront(s, k);
    forall i | 0 <= i < |t| ensures t[i].next == Behind(t, i) {
      var j := if i == 0 then k else if i <= k then i - 1 else i;
      assert t[i] == s[j] && s[j].next == NextOf(s, k, j);
    }
  }

  class Service {
    var first: Range?
    /** The list from the front on. */
    ghost var nodes: seq<Range>

    /** The `next` pointers of `s` lead from each element to the one behind it, and from the last to nothing. */
    ghost predicate Valid()
      reads this, nodes
    {
      && Distinct(nodes)
      && first == (if nodes == [] then null else nodes[0])
      && forall i :: 0 <= i < |nodes| ==> nodes[i].next == Behind(nodes, i)
    }

    constructor ()
      ensures Valid() && nodes == []
    {
      first := null;
      nodes := [];
    }

    /** The relinking of `find_range`, for the node at position `k` and the one before it. */
    method Relink(prev: Range?, cur: Range, ghost k: nat)
      requires Valid() && k < |nodes| && cur == nodes[k]
      requires prev == (if k == 0 then null else nodes[k - 1])
      modifies this, Members(nodes)
      ensures Valid() && nodes == ToFront(old(nodes), k) && Members(nodes) == Members(old(nodes))
    {
      ghost var s := nodes;
      ToFrontKeeps(s, k);
      if first != cur {
        assert 0 < k;
        prev.next := cur.next;
        cur.next := null;
        cur.next := first;
        first := cur;
      }
      assert forall j :: 0 <= j < |s| ==> s[j].next == NextOf(s, k, j);
      nodes := ToFront(s, k);
      LinkedInFront(s, k);
    }

    /** `find_range` */
    method FindRange(addr: int, writeable: bool) returns (found: Range?)
      requires Valid()
      modifies this, Members(nodes)
      ensures Valid() && Members(nodes) == Members(old(nodes))
      ensures found == Scan(old(nodes), addr, writeable)
      ensures nodes == Moved(old(nodes), addr, writeable)
      ensures found != null ==> addr % 4 == 0 && found.start <= addr <= found.end && (writeable ==> !found.readonly)
      ensures found != null ==>
        exists k :: 0 <= k < |old(nodes)| && old(nodes)[k] == found && NoneServes(old(nodes)[..k], addr, writeable)
      ensures found == null ==> addr % 4 != 0 || NoneServes(old(nodes), addr, writeable)
    {
      if addr % 4 != 0 {
        return null;
      }
      hide ToFront, Members;
      ghost var s := nodes;
      var prev: Range? := null;
      var cur := first;
      ghost var k := 0;
      while cur != null
        invariant Valid() && nodes == s && 0 <= k <= |s|
        invariant cur == (if k < |s| then s[k] else null)
        invariant prev == (if k == 0 then null else s[k - 1])
        invariant forall j :: 0 <= j < k ==> !s[j].Matches(addr, writeable)
        decreases |s| - k
      {
        if cur.Matches(addr, writeable) {
          assert k == FirstMatch(s, addr, writeable);
          Relink(prev, cur, k);
          return cur;
        }
        prev, cur, k := cur, cur.next, k + 1;
      }
      return null;
    }

    /** A lookup in a list that `s` was reordered to answers as a plain scan of `s`. */
    method FindReordered(addr: int, writeable: bool, ghost s: seq<Range>) returns (found: Range?)
      requires Valid() && Distinct(s) && Harmless(s) && Reordered(s, nodes)
      modifies this, Members(nodes)
      ensures Valid() && Reordered(s, nodes) && Members(nodes) == Members(old(nodes))
      ensures found == Scan(s, addr, writeable)
    {
      ReorderedScans(s, nodes, addr, writeable);
      MoveReordered(s, nodes, addr, writeable);
      hide *;
      found := FindRange(addr, writeable);
    }

    /** Any history of lookups of a harmless list: each answers as a plain scan of the original would. */
    method FindAll(queries: seq<(int, bool)>) returns (found: seq<Range?>)
      requires Valid() && Harmless(nodes)
      modifies this, Members(nodes)
      ensures Valid() && Members(nodes) == Members(old(nodes))
      ensures Answers(old(nodes), queries, found)
    {
      found := [];
      ghost var s := nodes;
      assert Distinct(s);
      ReorderedSelf(s);
      assert queries[..0] == [];
      hide *;
      NoAnswers(s);
      for i := 0 to |queries|
        invariant Valid() && Members(nodes) == Members(s) && Reordered(s, nodes)
        invariant Answers(s, queries[..i], found)
      {
        var r := FindReordered(queries[i].0, queries[i].1, s);
        OneMoreAnswer(s, queries, i, found, r);
        found := found + [r];
      }
      assert queries[..|queries|] == queries;
    }
  }

  /** Every query is answered as a plain scan of `s` would. */
  ghost predicate Answers(s: seq<Range>, queries: seq<(int, bool)>, found: seq<Range?>) {
    |found| == |queries| && forall i :: 0 <= i < |queries| ==> found[i] == Scan(s, queries[i].0, queries[i].1)
  }

  lemma NoAnswers(s: seq<Range>)
    ensures Answers(s, [], [])
  {
  }

  lemma OneMoreAnswer(s: seq<Range>, queries: seq<(int, bool)>, i: nat, found: seq<Range?>, r: Range?)
    requires i < |queries| && Answers(s, queries[..i], found) && r == Scan(s, queries[i].0, queries[i].1)
    ensures Answers(s, queries[..i + 1], found + [r])
  {
    hide Scan;
    assert queries[..i + 1] == queries[..i] + [queries[i]];
  }
}
