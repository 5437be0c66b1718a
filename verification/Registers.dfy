/**
 * Named register fields of `XHALInterface.cpp`: a name stands for an address and a mask, and
 * reading or writing the name reads or writes the bits of that word under the mask.
 */
module Registers {
  import opened Options

  type Word = bv32

  newtype Address = x: int | 0 <= x < 0x1_0000_0000

  datatype Node = Node(address: Address, mask: Word)

  datatype Error = UnknownName | AccessFailed

  datatype Result<T> = Ok(value: T) | Err(error: Error)

  type Table = map<string, Node>
  type Memory = map<Address, Word>

  // ---- Words ----

  function Shr(x: Word, k: Word): Word
    requires k <= 32
  {
    x >> k
  }

  function Shl(x: Word, k: Word): Word
    requires k <= 32
  {
    x << k
  }

  /** The bits of w under the mask. */
  function Under(w: Word, m: Word): Word { w & m }

  /** The bits of w outside the mask. */
  function Outside(w: Word, m: Word): Word { Under(w, Not(m)) }

  function Not(m: Word): Word { !m }

  function Either(x: Word, y: Word): Word { x | y }

  /** The bits of a under the mask and those of w outside. */
  function Joined(a: Word, w: Word, m: Word): Word { Either(Under(a, m), Outside(w, m)) }

  predicate Odd(x: Word) { x & 1 == 1 }

  predicate Disjoint(m: Word, n: Word) { m & n == 0 }

  lemma ShrZero(x: Word)
    ensures Shr(x, 0) == x && Shl(x, 0) == x && Shr(x, 32) == 0 && Shl(x, 32) == 0
  {
  }

  lemma ShrStep(x: Word, k: Word)
    requires k < 32
    ensures Shr(x, k + 1) == Shr(Shr(x, k), 1)
  {
  }

  lemma ShlStep(v: Word, k: Word)
    requires k < 32
    ensures Shl(v, k + 1) == Shl(Shl(v, 1), k)
  {
  }

  lemma OneAnd(x: Word, y: Word)
    ensures Shr(Under(x, y), 1) == Under(Shr(x, 1), Shr(y, 1))
  {
  }

  lemma OneBack(v: Word, y: Word)
    ensures Shr(Under(Shl(v, 1), y), 1) == Under(v, Shr(y, 1))
  {
  }

  lemma OneRound(x: Word)
    requires !Odd(x)
    ensures Shl(Shr(x, 1), 1) == x
  {
  }

  lemma EvenUnder(x: Word, m: Word)
    requires !Odd(m)
    ensures !Odd(Under(x, m))
  {
  }

  lemma JoinedBits(a: Word, w: Word, m: Word)
    ensures ((a & m) | (w & !m)) & m == a & m
    ensures ((a & m) | (w & !m)) & !m == w & !m
  {
  }

  lemma JoinedParts(a: Word, w: Word, m: Word)
    ensures Under(Joined(a, w, m), m) == Under(a, m)
    ensures Outside(Joined(a, w, m), m) == Outside(w, m)
  {
    JoinedBits(a, w, m);
  }

  lemma Halves(w1: Word, w2: Word, m: Word)
    requires Under(w1, m) == Under(w2, m) && Outside(w1, m) == Outside(w2, m)
    ensures w1 == w2
  {
  }

  lemma Untouched(a: Word, w: Word, m: Word, n: Word)
    requires Disjoint(m, n)
    ensures Under(Joined(a, w, m), n) == Under(w, n)
  {
  }

  lemma Swap(x: Word, m: Word, n: Word)
    ensures Under(Under(x, n), m) == Under(Under(x, m), n)
  {
  }

  lemma OutsideAgrees(b: Word, w1: Word, w2: Word, m: Word, n: Word)
    requires Outside(w1, m) == Outside(w2, m)
    ensures Outside(Joined(b, w1, n), m) == Outside(Joined(b, w2, n), m)
  {
    hide Under, Not, Joined;
    var j1, j2 := Joined(b, w1, n), Joined(b, w2, n);
    JoinedParts(b, w1, n);
    JoinedParts(b, w2, n);
    Swap(j1, Not(m), n);
    Swap(j2, Not(m), n);
    Swap(j1, Not(m), Not(n));
    Swap(j2, Not(m), Not(n));
    Swap(w1, Not(m), Not(n));
    Swap(w2, Not(m), Not(n));
    Halves(Outside(j1, m), Outside(j2, m), n);
  }

  lemma Overlay(a: Word, b: Word, w: Word, m: Word, n: Word)
    requires Disjoint(m, n) && Disjoint(n, m)
    ensures Joined(b, Joined(a, w, m), n) == Joined(a, Joined(b, w, n), m)
  {
    hide Joined, Under, Outside, Disjoint;
    JoinedParts(a, w, m);
    JoinedParts(a, Joined(b, w, n), m);
    Untouched(b, Joined(a, w, m), n, m);
    OutsideAgrees(b, Joined(a, w, m), w, m, n);
    Halves(Joined(b, Joined(a, w, m), n), Joined(a, Joined(b, w, n), m), m);
  }

  // ---- The field under a mask ----

  /** None of the k lowest bits of m is set. */
  predicate LowClear(m: Word, k: Word)
    requires k <= 32
    decreases k
  {
    k == 0 || (LowClear(m, k - 1) && !Odd(Shr(m, k - 1)))
  }

  /** The first bit at or above k that is set in m, or 32. */
  function LowestFrom(m: Word, k: Word): (low: Word)
    requires k <= 32
    ensures low <= 32
    ensures low < 32 ==> Odd(Shr(m, low))
    ensures LowClear(m, k) ==> LowClear(m, low)
    decreases 32 - k
  {
    hide Shr, Odd;
    if k == 32 || Odd(Shr(m, k)) then k else LowestFrom(m, k + 1)
  }

  /** The position of the lowest bit of a mask; 32 for the empty mask. */
  function Lowest(m: Word): (low: Word)
    ensures low <= 32 && LowClear(m, low)
    ensures low < 32 ==> Odd(Shr(m, low))
  {
    hide Shr, Odd;
    LowestFrom(m, 0)
  }

  /** What a read of the field shows of the word w. */
  function Field(w: Word, m: Word): Word { Shr(Under(w, m), Lowest(m)) }

  /** The word w after v was written to the field. */
  function Merged(w: Word, m: Word, v: Word): Word { Joined(Shl(v, Lowest(m)), w, m) }

  /** As much of v as the field has room for. */
  function Cut(v: Word, m: Word): Word { Under(v, Shr(m, Lowest(m))) }

  /** A value shifted up under a mask and down again loses only what the mask cuts off. */
  lemma {:induction false} ShiftBack(v: Word, m: Word, k: Word)
    requires k < 32
    ensures Shr(Under(Shl(v, k), m), k) == Under(v, Shr(m, k))
    decreases k
  {
    hide Shr, Shl, Under;
    if k == 0 {
      ShrZero(v);
      ShrZero(m);
      ShrZero(Under(v, m));
    } else {
      var j := k - 1;
      ShlStep(v, j);
      ShiftBack(Shl(v, 1), m, j);
      ShrStep(Under(Shl(v, k), m), j);
      OneBack(v, Shr(m, j));
      ShrStep(m, j);
    }
  }

  /** A word whose k low bits are clear comes back when it is shifted down and up. */
  lemma {:induction false} ShiftRound(x: Word, k: Word)
    requires k <= 32 && LowClear(x, k)
    ensures Shl(Shr(x, k), k) == x
    decreases k
  {
    hide Shr, Shl, Odd;
    if k == 0 {
      ShrZero(x);
    } else {
      var j := k - 1;
      ShiftRound(x, j);
      OneRound(Shr(x, j));
      ShrStep(x, j);
      ShlStep(Shr(x, k), j);
    }
  }

  lemma {:induction false} ShrUnder(x: Word, y: Word, k: Word)
    requires k <= 32
    ensures Shr(Under(x, y), k) == Under(Shr(x, k), Shr(y, k))
    decreases k
  {
    hide Shr, Under;
    if k == 0 {
      ShrZero(x);
      ShrZero(y);
      ShrZero(Under(x, y));
    } else {
      var j := k - 1;
      ShrUnder(x, y, j);
      OneAnd(Shr(x, j), Shr(y, j));
      ShrStep(Under(x, y), j);
      ShrStep(x, j);
      ShrStep(y, j);
    }
  }

  lemma {:induction false} LowClearUnder(x: Word, m: Word, k: Word)
    requires k <= 32 && LowClear(m, k)
    ensures LowClear(Under(x, m), k)
    decreases k
  {
    hide Shr, Odd, Under;
    if k > 0 {
      LowClearUnder(x, m, k - 1);
      ShrUnder(x, m, k - 1);
      EvenUnder(Shr(x, k - 1), Shr(m, k - 1));
    }
  }

  lemma EmptyMask(m: Word)
    ensures Lowest(m) == 32 <==> m == 0
  {
    if Lowest(m) == 32 {
      hide Lowest;
      ShiftRound(m, 32);
    }
  }

  // ---- By bits ----

  lemma OneLower(m: Word, k: Word)
    requires 0 < k <= 32 && (m >> k) << k == m
    ensures (m >> (k - 1)) << (k - 1) == m && (m >> (k - 1)) & 1 == 0
  {
  }

  lemma OddBit(x: Word)
    ensures Odd(x) <==> x & 1 == 1
    ensures x & 1 == 0 || x & 1 == 1
  {
  }

  lemma {:induction false} ClearBelow(m: Word, k: Word)
    requires k <= 32 && (m >> k) << k == m
    ensures LowClear(m, k)
    decreases k
  {
    if k > 0 {
      OneLower(m, k);
      OddBit(m >> (k - 1));
      var x := m >> (k - 1);
      assert Shr(m, k - 1) == x;
      hide Odd, Shr;
      ClearBelow(m, k - 1);
    }
  }

  lemma {:induction false} ReachesLowest(m: Word, j: Word, k: Word)
    requires j <= k < 32 && LowClear(m, k) && Odd(Shr(m, k))
    ensures LowestFrom(m, j) == k
    decreases k - j
  {
    hide Shr, Odd;
    if j < k {
      ClearAt(m, j, k);
      ReachesLowest(m, j + 1, k);
    }
  }

  lemma {:induction false} ClearAt(m: Word, j: Word, k: Word)
    requires j < k <= 32 && LowClear(m, k)
    ensures !Odd(Shr(m, j))
    decreases k
  {
    hide Shr, Odd;
    if j < k - 1 {
      ClearAt(m, j, k - 1);
    }
  }

  /** Reading and writing a field in the operations of the processor, for a mask whose lowest bit is bit `k`. */
  lemma FieldBits(w: Word, m: Word, v: Word, k: Word)
    requires k < 32 && (m >> k) & 1 == 1 && (m >> k) << k == m
    ensures Lowest(m) == k
    ensures Field(w, m) == (w & m) >> k
    ensures Merged(w, m, v) == ((v << k) & m) | (w & !m)
    ensures Cut(v, m) == v & (m >> k) && Outside(w, m) == w & !m
  {
    LowestBit(m, k);
    hide Lowest, Shr, Shl, Under, Joined, Outside;
    ReadOps(w, m, k);
    WriteOps(w, m, v, k);
    CutOps(v, m, k);
    OutsideOp(w, m);
  }

  lemma LowestBit(m: Word, k: Word)
    requires k < 32 && (m >> k) & 1 == 1 && (m >> k) << k == m
    ensures Lowest(m) == k
  {
    ClearBelow(m, k);
    assert Odd(Shr(m, k));
    hide Shr, Odd;
    ReachesLowest(m, 0, k);
  }

  lemma ReadOps(w: Word, m: Word, k: Word)
    requires k < 32
    ensures Shr(Under(w, m), k) == (w & m) >> k
  {
    hide Shr, Under;
    UnderOp(w, m);
    ShrOp(w & m, k);
  }

  lemma WriteOps(w: Word, m: Word, v: Word, k: Word)
    requires k < 32
    ensures Joined(Shl(v, k), w, m) == ((v << k) & m) | (w & !m)
  {
    hide Shl, Joined;
    ShlOp(v, k);
    JoinedOps(v << k, w, m);
  }

  lemma CutOps(v: Word, m: Word, k: Word)
    requires k < 32
    ensures Under(v, Shr(m, k)) == v & (m >> k)
  {
    hide Shr, Under;
    ShrOp(m, k);
    UnderOp(v, m >> k);
  }

  lemma ShrOp(x: Word, k: Word)
    requires k <= 32
    ensures Shr(x, k) == x >> k
  {
  }

  lemma ShlOp(x: Word, k: Word)
    requires k <= 32
    ensures Shl(x, k) == x << k
  {
  }

  lemma UnderOp(w: Word, m: Word)
    ensures Under(w, m) == w & m
  {
  }

  lemma OutsideOp(w: Word, m: Word)
    ensures Outside(w, m) == w & !m
  {
  }

  lemma EitherOp(x: Word, y: Word)
    ensures Either(x, y) == x | y
  {
  }

  lemma JoinedOps(a: Word, w: Word, m: Word)
    ensures Joined(a, w, m) == (a & m) | (w & !m)
  {
    hide Under, Outside, Either;
    UnderOp(a, m);
    OutsideOp(w, m);
    EitherOp(a & m, w & !m);
  }

  // ---- Fields ----

  /** The whole word is a field too, and the value itself goes into it. */
  lemma FullMask(w: Word, v: Word)
    ensures Merged(w, 0xFFFFFFFF, v) == v
  {
  }

  /** The field and the bits outside it are the whole word. */
  lemma FieldAndOutside(w1: Word, w2: Word, m: Word)
    requires Field(w1, m) == Field(w2, m) && Outside(w1, m) == Outside(w2, m)
    ensures w1 == w2
  {
    hide Shr, Shl, Under, Outside, Lowest, LowClear;
    var k := Lowest(m);
    LowClearUnder(w1, m, k);
    LowClearUnder(w2, m, k);
    ShiftRound(Under(w1, m), k);
    ShiftRound(Under(w2, m), k);
    Halves(w1, w2, m);
  }

  lemma MergedParts(w: Word, m: Word, v: Word)
    ensures Field(Merged(w, m, v), m) == Cut(v, m)
    ensures Outside(Merged(w, m, v), m) == Outside(w, m)
  {
    var k := Lowest(m);
    hide Shr, Shl, Under, Outside, Lowest, Joined;
    JoinedParts(Shl(v, k), w, m);
    if k < 32 {
      ShiftBack(v, m, k);
    } else {
      NothingShows(Under(Merged(w, m, v), m));
      NothingShows(m);
      UnderNothing(v);
    }
  }

  lemma NothingShows(x: Word)
    ensures Shr(x, 32) == 0
  {
  }

  lemma UnderNothing(v: Word)
    ensures Under(v, 0) == 0
  {
  }

  /**
   * What a write means: the field shows the value as far as the mask has room for it and the bits
   * outside the mask stay. No other word does both.
   */
  lemma WriteMeans(w: Word, m: Word, v: Word, after: Word)
    ensures after == Merged(w, m, v)
       <==> Field(after, m) == Cut(v, m) && Outside(after, m) == Outside(w, m)
  {
    hide Outside, Cut, Field, Merged, Lowest;
    MergedParts(w, m, v);
    if Field(after, m) == Cut(v, m) && Outside(after, m) == Outside(w, m) {
      FieldAndOutside(after, Merged(w, m, v), m);
    }
  }

  /** Writes to disjoint fields of one word commute. */
  lemma DisjointWritesCommute(w: Word, m: Word, v: Word, n: Word, u: Word)
    requires Disjoint(m, n)
    ensures Merged(Merged(w, m, v), n, u) == Merged(Merged(w, n, u), m, v)
  {
    assert Disjoint(n, m);
    hide Disjoint, Joined, Shl, Lowest;
    Overlay(Shl(v, Lowest(m)), Shl(u, Lowest(n)), w, m, n);
  }

  /** A write leaves a disjoint field of the same word alone. */
  lemma DisjointFieldStays(w: Word, m: Word, v: Word, n: Word)
    requires Disjoint(m, n)
    ensures Field(Merged(w, m, v), n) == Field(w, n)
  {
    hide Disjoint, Joined, Shl, Shr, Under, Lowest;
    Untouched(Shl(v, Lowest(m)), w, m, n);
  }

  // ---- Runs ----

  /** The memory after one write; a failing write changes nothing. */
  function Written(table: Table, memory: Memory, name: string, v: Word): (after: Memory)
    ensures after.Keys == memory.Keys
  {
    if name in table && table[name].address in memory then
      var node := table[name];
      memory[node.address := Merged(memory[node.address], node.mask, v)]
    else memory
  }

  datatype Write = Write(name: string, value: Word)

  function WrittenAll(table: Table, memory: Memory, writes: seq<Write>): (after: Memory)
    ensures after.Keys == memory.Keys
  {
    if writes == [] then memory
    else
      var before := WrittenAll(table, memory, writes[..|writes| - 1]);
      var last := writes[|writes| - 1];
      Written(table, before, last.name, last.value)
  }

  /** What reading the name answers. */
  function Shown(table: Table, memory: Memory, name: string): Result<Word> {
    if name !in table then Err(UnknownName)
    else if table[name].address !in memory then Err(AccessFailed)
    else Ok(Field(memory[table[name].address], table[name].mask))
  }

  /** Two registers share no bit of memory. */
  predicate Apart(a: Node, b: Node) {
    a.address != b.address || Disjoint(a.mask, b.mask)
  }

  /** The value of the last write to the name. */
  function LastValue(writes: seq<Write>, name: string): Result<Word> {
    if writes == [] then Err(UnknownName)
    else
      var last := writes[|writes| - 1];
      if last.name == name then Ok(last.value) else LastValue(writes[..|writes| - 1], name)
  }

  lemma ReadBack(table: Table, memory: Memory, name: string, v: Word)
    requires name in table && table[name].address in memory
    ensures Shown(table, Written(table, memory, name, v), name) == Ok(Cut(v, table[name].mask))
  {
    hide Field, Merged, Cut;
    var node := table[name];
    MergedParts(memory[node.address], node.mask, v);
  }

  /** A write to a register that is apart from another leaves what the other shows alone. */
  lemma OthersStay(table: Table, memory: Memory, written: string, v: Word, name: string)
    requires written in table && name in table ==> Apart(table[written], table[name])
    ensures Shown(table, Written(table, memory, written, v), name) == Shown(table, memory, name)
  {
    hide Field, Merged, Disjoint;
    if written in table && name in table && table[written].address == table[name].address
       && table[name].address in memory
    {
      DisjointFieldStays(memory[table[name].address], table[written].mask, v, table[name].mask);
    }
  }

  /**
   * After any run of writes to registers that are all apart from one register, or are that register
   * itself, it shows its last written value cut to its mask, or what it showed at the start.
   */
  lemma {:induction false} LastWriteWins(table: Table, memory: Memory, writes: seq<Write>, name: string)
    requires name in table && table[name].address in memory
    requires forall w <- writes :: w.name == name || w.name !in table || Apart(table[w.name], table[name])
    ensures Shown(table, WrittenAll(table, memory, writes), name)
         == match LastValue(writes, name)
            case Ok(v) => Ok(Cut(v, table[name].mask))
            case Err(_) => Shown(table, memory, name)
  {
    hide Written, Shown, Cut, Apart;
    if writes != [] {
      var front, last := writes[..|writes| - 1], writes[|writes| - 1];
      assert last in writes;
      var before := WrittenAll(table, memory, front);
      LastWriteWins(table, memory, front, name);
      if last.name == name {
        ReadBack(table, before, name, last.value);
      } else {
        OthersStay(table, before, last.name, last.value, name);
      }
    }
  }

  /** Writes to registers that are apart may be exchanged. */
  lemma WritesCommute(table: Table, memory: Memory, a: string, v: Word, b: string, u: Word)
    requires a in table && b in table ==> Apart(table[a], table[b])
    ensures Written(table, Written(table, memory, a, v), b, u)
         == Written(table, Written(table, memory, b, u), a, v)
  {
    hide Merged, Disjoint;
    if a in table && b in table && table[a].address == table[b].address && table[a].address in memory {
      DisjointWritesCommute(memory[table[a].address], table[a].mask, v, table[b].mask, u);
    }
  }

  // ---- The interface ----

  /** The interface object; the memory behind the remote calls is part of its state. */
  class Interface {
    const table: Table
    var memory: Memory
    var current: Option<Node>

    constructor (table: Table, memory: Memory)
      ensures this.table == table && this.memory == memory && current == None
    {
      this.table, this.memory, this.current := table, memory, None;
    }

    /** `readReg` of an address. */
    method ReadAddress(address: Address) returns (r: Result<Word>)
      ensures r == if address in memory then Ok(memory[address]) else Err(AccessFailed)
    {
      if address !in memory {
        return Err(AccessFailed);
      }
      return Ok(memory[address]);
    }

    method WriteAddress(address: Address, value: Word) returns (r: Result<()>)
      modifies this`memory
      ensures address in old(memory) ==> r == Ok(()) && memory == old(memory)[address := value]
      ensures address !in old(memory) ==> r == Err(AccessFailed) && memory == old(memory)
    {
      if address !in memory {
        return Err(AccessFailed);
      }
      memory := memory[address := value];
      return Ok(());
    }

    /** `readReg` of a name. */
    method ReadRegister(name: string) returns (r: Result<Word>)
      modifies this`current
      ensures r == Shown(table, memory, name)
      ensures current == if name in table then Some(table[name]) else old(current)
    {
      if name !in table {
        return Err(UnknownName);
      }
      hide *;
      var node := table[name];
      current := Some(node);
      var read := ReadAddress(node.address);
      ShownOf(table, memory, name);
      if read.Err? {
        return read;
      }
      var result := ShiftDown(read.value, node.mask);
      return Ok(result);
    }

    /** `writeReg` of a name. */
    method WriteRegister(name: string, value: Word) returns (r: Result<()>)
      modifies this
      ensures memory == Written(table, old(memory), name, value)
      ensures r == match Shown(table, old(memory), name) case Ok(_) => Ok(()) case Err(e) => Err(e)
      ensures current == if name in table then Some(table[name]) else old(current)
    {
      if name !in table {
        return Err(UnknownName);
      }
      hide *;
      var node := table[name];
      current := Some(node);
      ShownOf(table, memory, name);
      WrittenIs(table, memory, name, value);
      if node.mask == 0xFFFFFFFF {
        if node.address in memory {
          FullMask(memory[node.address], value);
        }
        r := WriteAddress(node.address, value);
      } else {
        var read := ReadAddress(node.address);
        if read.Err? {
          return Err(read.error);
        }
        var word := ShiftUp(value, read.value, node.mask);
        r := WriteAddress(node.address, word);
      }
    }
  }

  lemma ShownOf(table: Table, memory: Memory, name: string)
    requires name in table
    ensures table[name].address !in memory ==> Shown(table, memory, name) == Err(AccessFailed)
    ensures table[name].address in memory ==>
      Shown(table, memory, name) == Ok(Field(memory[table[name].address], table[name].mask))
  {
  }

  lemma WrittenIs(table: Table, memory: Memory, name: string, v: Word)
    requires name in table
    ensures table[name].address !in memory ==> Written(table, memory, name, v) == memory
    ensures table[name].address in memory ==>
      Written(table, memory, name, v)
      == memory[table[name].address := Merged(memory[table[name].address], table[name].mask, v)]
  {
  }

  /** The end of `readReg`: mask and result are shifted down together. */
  method ShiftDown(word: Word, full: Word) returns (result: Word)
    ensures result == Field(word, full)
  {
    hide Shr, Under, Lowest, Odd;
    var masked := Under(word, full);
    var mask, i := full, 0 as Word;
    result := masked;
    ShrZero(full);
    ShrZero(masked);
    LowestStarts(full);
    while i < 32
      invariant i <= 32
      invariant mask == Shr(full, i) && result == Shr(masked, i)
      invariant Lowest(full) == LowestFrom(full, i)
      decreases 32 - i
    {
      if Odd(mask) {
        break;
      }
      ShrStep(full, i);
      ShrStep(masked, i);
      mask, result, i := Shr(mask, 1), Shr(result, 1), i + 1;
    }
  }

  lemma LowestStarts(m: Word)
    ensures Lowest(m) == LowestFrom(m, 0)
  {
  }

  /** The middle of `writeReg`: the shift amount, and the merge into the word read. */
  method ShiftUp(value: Word, current: Word, full: Word) returns (word: Word)
    ensures word == Merged(current, full, value)
  {
    hide Shr, Shl, Lowest, Odd, Joined;
    var mask, i := full, 0 as Word;
    var amount: Word := 0;
    ShrZero(full);
    LowestStarts(full);
    while i < 32
      invariant i <= 32 && amount == i
      invariant mask == Shr(full, i)
      invariant Lowest(full) == LowestFrom(full, i)
      decreases 32 - i
    {
      if Odd(mask) {
        break;
      }
      ShrStep(full, i);
      amount, mask, i := amount + 1, Shr(mask, 1), i + 1;
    }
    word := Shl(value, amount);
    word := Joined(word, current, full);
  }
}
