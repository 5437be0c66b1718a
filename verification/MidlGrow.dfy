/** The growable ID lists of `midl.c`: capacity in the word before the list, length in slot 0. */
module MidlGrow {
  import opened IdLists
  import opened MidlMerge
  import opened MidlInsert

  /** `memcpy` between different allocations */
  method Copy(dst: array<Id>, at: int, src: array<Id>, from: int, count: int)
    requires dst != src && 0 <= count && 0 <= at <= dst.Length - count && 0 <= from <= src.Length - count
    modifies dst
    ensures dst[..at] == old(dst[..at]) && dst[at..at + count] == src[from..from + count]
  {
    forall p | 0 <= p < count {
      dst[at + p] := src[from + p];
    }
    ghost var copy, original := dst[at..at + count], src[from..from + count];
    assert forall p :: 0 <= p < count ==> copy[p] == original[p];
  }

  class GrowableList {
    /** The allocation: `mem[0]` is `ids[-1]`, `mem[1]` is `ids[0]`, element `p` is `mem[p + 1]`. */
    var mem: array<Id>

    ghost predicate Valid()
      reads this, mem
    {
      mem.Length >= 2 && mem.Length == mem[0] as int + 2 && mem[1] <= mem[0]
    }

    ghost function Contents(): (s: seq<Id>)
      requires Valid()
      reads this, mem
    {
      mem[2..mem[1] + 2]
    }

    ghost function Capacity(): int
      requires Valid()
      reads this, mem
    {
      mem[0]
    }

    /** `mdb_midl_alloc` */
    constructor (num: Id)
      ensures Valid() && fresh(mem) && Contents() == [] && Capacity() == num
    {
      mem := new Id[num + 2];
      new;
      mem[0] := num;
      mem[1] := 0;
    }

    /** `realloc` to `words` words, followed by the update of the capacity word. */
    method Reallocate(words: int)
      requires Valid() && mem.Length <= words < ID_LIMIT
      modifies this
      ensures Valid() && fresh(mem) && Contents() == old(Contents()) && Capacity() == words - 2
    {
      var old_ := mem;
      var grown := new Id[words];
      Copy(grown, 0, old_, 0, old_.Length);
      CopiedList(grown, old_);
      grown[0] := words - 2;
      mem := grown;
      assert mem[2..mem[1] + 2] == old_[2..old_[1] + 2];
    }

    static lemma CopiedList(grown: array<Id>, was: array<Id>)
      requires 2 <= was.Length <= grown.Length && was[1] as int + 2 <= was.Length
      requires grown[0..was.Length] == was[0..was.Length]
      ensures grown[1] == was[1] && grown[2..was[1] + 2] == was[2..was[1] + 2]
    {
      assert forall p :: 0 <= p < was.Length ==> grown[p] == grown[0..was.Length][p] == was[p];
    }

    /** `mdb_midl_grow` */
    method Grow(num: int)
      requires Valid() && 0 <= num && Capacity() + num + 2 < ID_LIMIT
      modifies this
      ensures Valid() && fresh(mem) && Contents() == old(Contents()) && Capacity() == old(Capacity()) + num
    {
      Reallocate(mem[0] + num + 2);
    }

    /** `mdb_midl_need`; the precondition excludes the wrap-around of its `unsigned` arithmetic. */
    method Need(num: int)
      requires Valid() && 0 <= num && num + |Contents()| + (num + |Contents()|) / 4 + 258 <= UINT_MAX
      modifies this
      ensures Valid() && (mem == old(mem) || fresh(mem)) && Contents() == old(Contents())
      ensures |Contents()| + num <= Capacity()
      ensures var total := |Contents()| + num;
        Capacity() == if total <= old(Capacity()) then old(Capacity()) else (total + total / 4 + 258) / 256 * 256 - 2
    {
      var total := num + mem[1];
      if total > mem[0] {
        var words := total + total / 4 + (256 + 2);
        NeedRounds(num, mem[1]);
        Reallocate(words - words % 256);
      }
    }

    static lemma NeedRounds(num: int, len: int)
      requires 0 <= num && 0 <= len
      ensures var total := num + len; var words := total + total / 4 + 258;
        words - words % 256 == words / 256 * 256 && total + 2 <= words - words % 256 <= words
    {
    }

    /** `mdb_midl_append` */
    method Append(id: Id)
      requires Valid() && Capacity() + UM_MAX + 2 < ID_LIMIT
      modifies this, mem
      ensures Valid() && (mem == old(mem) || fresh(mem))
      ensures Contents() == old(Contents()) + [id]
      ensures Capacity() == old(Capacity()) + if |old(Contents())| >= old(Capacity()) then 0x1_ffff else 0
    {
      if mem[1] >= mem[0] {
        Grow(UM_MAX);
      }
      mem[1] := mem[1] + 1;
      mem[mem[1] + 1] := id;
    }

    /** `mdb_midl_append_list`; `app` must not be the list itself, which `realloc` may move. */
    method AppendList(app: GrowableList)
      requires Valid() && app.Valid() && app != this && app.mem != mem
      requires Capacity() + |app.Contents()| + 2 < ID_LIMIT
      modifies this, mem
      ensures Valid() && (mem == old(mem) || fresh(mem))
      ensures Contents() == old(Contents()) + app.Contents()
      ensures var n := |app.Contents()|;
        Capacity() == old(Capacity()) + if |old(Contents())| + n >= old(Capacity()) then n else 0
    {
      if mem[1] as int + app.mem[1] as int >= mem[0] {
        Grow(app.mem[1]);
      }
      CopyBehind(app.mem);
    }

    /** The `memcpy` of `mdb_midl_append_list` and the new length. */
    method CopyBehind(src: array<Id>)
      requires Valid() && src != mem && src.Length >= 2 && src[1] as int + 2 <= src.Length
      requires mem[1] as int + src[1] as int <= Capacity()
      modifies mem
      ensures Valid() && mem[0] == old(mem[0])
      ensures Contents() == old(Contents()) + src[2..src[1] + 2]
    {
      var n := mem[1] as int;
      ghost var s := Contents();
      Copy(mem, n + 2, src, 2, src[1]);
      assert mem[..n + 2][2..] == s && mem[1] == mem[..n + 2][1] && mem[0] == mem[..n + 2][0];
      mem[1] := n + src[1] as int;
      assert mem[2..n + 2] == s;
    }

    /** `mdb_midl_append_range`: the range goes in from its far end, so it is descending too, unless the
        ids wrap around. */
    method AppendRange(id: Id, n0: int)
      requires Valid() && 0 <= n0 <= UINT_MAX
      requires Capacity() + n0 + UM_MAX + 2 < ID_LIMIT
      modifies this, mem
      ensures Valid() && (mem == old(mem) || fresh(mem))
      ensures Contents() == old(Contents()) + Range(id, n0)
      ensures Capacity() == old(Capacity()) + if |old(Contents())| + n0 > old(Capacity()) then OrUmMax(n0) else 0
    {
      var len := mem[1] as int;
      if len + n0 > mem[0] {
        Grow(OrUmMax(n0));
      }
      ghost var s := Contents();
      mem[1] := len + n0;
      ghost var was := mem[..len + 2];
      assert was[2..] == s;
      hide Range;
      FillRange(mem, len + 2, id, n0);
      Joined(mem[..], was, len + 2, Range(id, n0));
    }
  }

  lemma Joined(m: seq<Id>, was: seq<Id>, at: int, r: seq<Id>)
    requires 2 <= at == |was| && at + |r| <= |m| && m[..at] == was && m[at..at + |r|] == r
    ensures m[0] == was[0] && m[1] == was[1] && m[2..at + |r|] == was[2..] + r
  {
    assert m[2..at + |r|] == m[..at][2..] + m[at..at + |r|];
  }

  /** The loop of `mdb_midl_append_range`. */
  method FillRange(mem: array<Id>, at: int, id: Id, n0: int)
    requires 0 <= n0 && 0 <= at && at + n0 <= mem.Length
    modifies mem
    ensures mem[..at] == old(mem[..at]) && mem[at..at + n0] == Range(id, n0)
  {
    hide Range;
    var n, next := n0, id;
    NoRange(id, n0);
    while n > 0
      invariant 0 <= n <= n0 && next == (id + n0 - n) % ID_LIMIT
      invariant mem[..at] == old(mem[..at]) && mem[at + n..at + n0] == Range(id, n0)[n..]
    {
      RangeStep(id, n0, n);
      mem[at + n - 1] := next;
      n := n - 1;
      next := (next + 1) % ID_LIMIT;
    }
  }

  lemma NoRange(id: Id, n: int)
    requires 0 <= n
    ensures Range(id, n)[n..] == [] && Range(id, n)[0..] == Range(id, n)
  {
  }

  /** `n` ids from `id` on, the last one first, modulo 2^64. */
  ghost function Range(id: Id, n: int): (r: seq<Id>)
    requires 0 <= n
    ensures |r| == n
  {
    seq(n, k requires 0 <= k < n => (id + n - 1 - k) % ID_LIMIT)
  }

  lemma RangeStep(id: Id, n0: int, n: int)
    requires 0 < n <= n0
    ensures Range(id, n0)[n - 1..] == [(id + n0 - n) % ID_LIMIT] + Range(id, n0)[n..]
    ensures ((id + n0 - n) % ID_LIMIT + 1) % ID_LIMIT == (id + n0 - (n - 1)) % ID_LIMIT
  {
    var x := id + n0 - n;
    Successor(x);
  }

  lemma Successor(x: int)
    requires 0 <= x
    ensures (x % ID_LIMIT + 1) % ID_LIMIT == (x + 1) % ID_LIMIT
  {
    var q, r := x / ID_LIMIT, x % ID_LIMIT;
    assert x + 1 == q * ID_LIMIT + (r + 1);
  }

  /** A range is descending exactly if it does not wrap around. */
  lemma RangeDescendingIff(id: Id, n: int)
    requires 0 <= n <= ID_LIMIT
    ensures Descending(Range(id, n)) <==> id + n <= ID_LIMIT
  {
    var r := Range(id, n);
    if id + n > ID_LIMIT {
      var k := id + n - 1 - ID_LIMIT;
      assert r[k] == 0 && r[k + 1] == ID_MAX;
    }
  }

  /** `n | MDB_IDL_UM_MAX`: all low 17 bits set, the others as in `n`. */
  function OrUmMax(n: int): (r: int)
    requires 0 <= n
    ensures n <= r <= n + UM_MAX && r % 0x2_0000 == 0x1_ffff && r / 0x2_0000 == n / 0x2_0000
  {
    n - n % (UM_MAX + 1) + UM_MAX
  }
}
