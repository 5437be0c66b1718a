/** Control packets of the IPbus server (`Client.cpp`): the transaction handlers over the request and
    response deques, and the loop that drives them. */
module Ipbus {
  import opened IpbusHeader

  /** What a bus read returns: its new state, whether it went well, and the words read. */
  datatype ReadResult<S> = ReadResult(state: S, ok: bool, data: nat -> Word)

  datatype WriteResult<S> = WriteResult(state: S, ok: bool)

  /** The memory service behind the server. Nothing is assumed about it: it may fail at any time. */
  datatype Bus<!S> = Bus(read: (S, Word, nat) -> ReadResult<S>, write: (S, Word, seq<Word>) -> WriteResult<S>)

  /** The deques and the bus. `undefined` marks a `pop_front` on an empty deque. */
  datatype Conf<S> = Conf(request: seq<Word>, response: seq<Word>, bus: S, undefined: bool)

  function Words(h: TxnHdr): nat {
    h.words as nat
  }

  function Reply(h: TxnHdr, info: bv8): Word {
    h.(info := info).Serialize()
  }

  /** `count` reads of one word at one address, up to the first failure. */
  ghost function ReadRun<S>(b: Bus<S>, s: S, addr: Word, count: nat): (S, bool, seq<Word>) {
    if count == 0 then (s, true, [])
    else
      var (s1, ok, data) := ReadRun(b, s, addr, count - 1);
      if !ok then (s1, false, data)
      else
        var r := b.read(s1, addr, 1);
        (r.state, r.ok, data + [r.data(0)])
  }

  /** Writes of the first `n` of `data`, one word at a time, to one address, up to the first failure:
      the last component is the number of words used up. */
  ghost function WriteRun<S>(b: Bus<S>, s: S, addr: Word, data: seq<Word>, n: nat): (r: (S, bool, nat))
    requires n <= |data|
    ensures r.2 <= n && (r.1 ==> r.2 == n)
  {
    if n == 0 then (s, true, 0)
    else
      var (s1, ok, used) := WriteRun(b, s, addr, data, n - 1);
      if !ok then (s1, false, used)
      else
        var r := b.write(s1, addr, [data[n - 1]]);
        (r.state, r.ok, n)
  }

  ghost function Bad<S>(h: TxnHdr, c: Conf<S>): Conf<S> {
    c.(response := c.response + [Reply(h, BAD_HEADER)])
  }

  ghost function Zeros(n: nat): seq<Word> {
    if n == 0 then [] else Zeros(n - 1) + [0]
  }

  /** The first `n` words of a read. */
  ghost function Taken(data: nat -> Word, n: nat): seq<Word> {
    if n == 0 then [] else Taken(data, n - 1) + [data(n - 1)]
  }

  function MaskWord(d: Word, andTerm: Word, orTerm: Word): Word {
    (d & andTerm) | orTerm
  }

  function AddWords(x: Word, y: Word): Word {
    x + y
  }

  lemma MaskedBits(d: Word, a: Word, o: Word)
    ensures ((d & a) | o) & o == o
    ensures ((d & a) | o) & !o == d & a & !o
  {
  }

  lemma TwoHalves(v: Word, w: Word, o: Word)
    requires v & o == w & o && v & !o == w & !o
    ensures v == w
  {
  }

  /** What a read-modify-write of bits writes: the or-bits are set, and the others are the old ones under the
      and-mask. */
  lemma MaskWordBits(d: Word, andTerm: Word, orTerm: Word)
    ensures MaskWord(d, andTerm, orTerm) & orTerm == orTerm
    ensures MaskWord(d, andTerm, orTerm) & !orTerm == d & andTerm & !orTerm
  {
    MaskedBits(d, andTerm, orTerm);
  }

  /** The sum modulo 2^32: in one bit more, the exact sum without its carry. */
  lemma AddWordsValue(x: Word, y: Word)
    ensures AddWords(x, y) as bv33 == ((x as bv33) + (y as bv33)) & 0xffff_ffff
  {
  }

  /** The words of a read, by position. */
  lemma {:induction false} TakenAt(data: nat -> Word, n: nat)
    ensures |Taken(data, n)| == n && forall i :: 0 <= i < n ==> Taken(data, n)[i] == data(i)
  {
    if n > 0 {
      TakenAt(data, n - 1);
    }
  }

  lemma {:induction false} ZerosAt(n: nat)
    ensures |Zeros(n)| == n && forall i :: 0 <= i < n ==> Zeros(n)[i] == 0
  {
    if n > 0 {
      ZerosAt(n - 1);
    }
  }

  /** A non-incrementing read goes through states of the bus, one read of one word at the same address from
      each to the next, and returns the word of every one of these reads in order. */
  lemma {:induction false} ReadRunAt<S>(b: Bus<S>, s: S, addr: Word, count: nat) returns (states: seq<S>)
    requires ReadRun(b, s, addr, count).1
    ensures |states| == count + 1 && states[0] == s && states[count] == ReadRun(b, s, addr, count).0
    ensures |ReadRun(b, s, addr, count).2| == count
    ensures forall i :: 0 <= i < count ==>
      ReadStep(b, states[i], addr, states[i + 1], ReadRun(b, s, addr, count).2[i])
  {
    if count == 0 {
      states := [s];
    } else {
      var front := ReadRunAt(b, s, addr, count - 1);
      var last := b.read(front[count - 1], addr, 1);
      states := front + [last.state];
      var was, now := ReadRun(b, s, addr, count - 1).2, ReadRun(b, s, addr, count).2;
      assert now == was + [last.data(0)] && ReadStep(b, front[count - 1], addr, last.state, last.data(0));
      forall i | 0 <= i < count ensures ReadStep(b, states[i], addr, states[i + 1], now[i]) {
        assert states[i] == front[i];
        if i < count - 1 {
          assert now[i] == was[i] && states[i + 1] == front[i + 1];
        }
      }
    }
  }

  /** A read of one word that succeeds. */
  ghost predicate ReadStep<S>(b: Bus<S>, s: S, addr: Word, t: S, w: Word) {
    var r := b.read(s, addr, 1);
    r.ok && r.state == t && r.data(0) == w
  }

  /** A write of one word. */
  ghost predicate WriteStep<S>(b: Bus<S>, s: S, addr: Word, w: Word, t: S, ok: bool) {
    b.write(s, addr, [w]) == WriteResult(t, ok)
  }

  /** A non-incrementing write goes through states of the bus, writing one word after the other to the same
      address; all writes before the last one succeed, and if the last one does all words are written. */
  lemma {:induction false} WriteRunAt<S>(b: Bus<S>, s: S, addr: Word, data: seq<Word>, n: nat) returns (states: seq<S>)
    requires n <= |data|
    ensures var (end, ok, used) := WriteRun(b, s, addr, data, n);
      && |states| == used + 1 && states[0] == s && states[used] == end && (ok ==> used == n) && (!ok ==> used > 0)
      && forall i :: 0 <= i < used ==> WriteStep(b, states[i], addr, data[i], states[i + 1], ok || i < used - 1)
  {
    if n == 0 {
      states := [s];
    } else {
      states := WriteRunAt(b, s, addr, data, n - 1);
      if WriteRun(b, s, addr, data, n - 1).1 {
        var last := b.write(states[n - 1], addr, [data[n - 1]]);
        var front := states;
        states := front + [last.state];
        forall i | 0 <= i < n ensures WriteStep(b, states[i], addr, data[i], states[i + 1], last.ok || i < n - 1) {
          assert states[i] == front[i];
          assert i < n - 1 ==> states[i + 1] == front[i + 1];
          assert i < n - 1 ==> WriteStep(b, front[i], addr, data[i], front[i + 1], true);
        }
      }
    }
  }

  ghost function ModifyResult<S>(b: Bus<S>, s: S, addr: Word, update: Word -> Word): (S, bv8, Word) {
    var r := b.read(s, addr, 1);
    if !r.ok then (r.state, BUSERR_READ, 0)
    else
      var w := b.write(r.state, addr, [update(r.data(0))]);
      (w.state, if w.ok then SUCCESS else BUSERR_WRITE, r.data(0))
  }

  ghost function HandleRead<S>(b: Bus<S>, h: TxnHdr, c: Conf<S>): Conf<S> {
    var q, n := c.request, Words(h);
    if |q| < 1 then Bad(h, c)
    else
      var r := b.read(c.bus, ModifyAddress(q[0]), n);
      Conf(q[1..],
           c.response + if r.ok then [Reply(h, SUCCESS)] + Taken(r.data, n) else [Reply(h, BUSERR_READ)],
           r.state, c.undefined)
  }

  ghost function HandleWrite<S>(b: Bus<S>, h: TxnHdr, c: Conf<S>): Conf<S> {
    var q, n := c.request, Words(h);
    if |q| < 1 + n then Bad(h, c)
    else
      var w := b.write(c.bus, ModifyAddress(q[0]), q[1..1 + n]);
      Conf(q[1 + n..], c.response + [Reply(h, if w.ok then SUCCESS else BUSERR_READ)], w.state, c.undefined)
  }

  ghost function HandleNiRead<S>(b: Bus<S>, h: TxnHdr, c: Conf<S>): Conf<S> {
    var q := c.request;
    if |q| < 1 then Bad(h, c)
    else
      var (s, ok, data) := ReadRun(b, c.bus, ModifyAddress(q[0]), Words(h));
      Conf(q[1..], c.response + if ok then [Reply(h, SUCCESS)] + data else [Reply(h, BUSERR_READ)], s, c.undefined)
  }

  ghost function HandleNiWrite<S>(b: Bus<S>, h: TxnHdr, c: Conf<S>): Conf<S> {
    var q, n := c.request, Words(h);
    if |q| < 1 + n then Bad(h, c)
    else
      var (s, ok, used) := WriteRun(b, c.bus, ModifyAddress(q[0]), q[1..], n);
      Conf(q[1 + used..], c.response + [Reply(h, if ok then SUCCESS else BUSERR_WRITE)], s, c.undefined)
  }

  /** A read-modify-write transaction of `operands` words after its header. */
  ghost function HandleModify<S>(b: Bus<S>, h: TxnHdr, c: Conf<S>, operands: nat, update: Word -> Word): Conf<S>
    requires 0 < operands
  {
    var q := c.request;
    if Words(h) != 1 || |q| < operands then Bad(h, c)
    else
      var (s, info, was) := ModifyResult(b, c.bus, ModifyAddress(q[0]), update);
      Conf(q[operands..], c.response + [Reply(h, info)] + if info == SUCCESS then [was] else [], s, c.undefined)
  }

  ghost function BitsUpdate(q: seq<Word>): Word -> Word {
    if |q| < 3 then d => d else d => MaskWord(d, q[1], q[2])
  }

  ghost function SumUpdate(q: seq<Word>): Word -> Word {
    if |q| < 2 then d => d else d => AddWords(d, q[1])
  }

  lemma BitsUpdateAt(q: seq<Word>, d: Word)
    requires |q| >= 3
    ensures BitsUpdate(q)(d) == MaskWord(d, q[1], q[2])
  {
    hide MaskWord;
  }

  lemma SumUpdateAt(q: seq<Word>, d: Word)
    requires |q| >= 2
    ensures SumUpdate(q)(d) == AddWords(d, q[1])
  {
    hide AddWords;
  }

  ghost function HandleCfgRead<S>(h: TxnHdr, c: Conf<S>): Conf<S> {
    if |c.request| < 1 then Bad(h, c)
    else c.(request := c.request[1..], response := c.response + [Reply(h, SUCCESS)] + Zeros(Words(h)))
  }

  ghost function HandleCfgWrite<S>(h: TxnHdr, c: Conf<S>): Conf<S> {
    var n := Words(h);
    if |c.request| < 1 + n then Bad(h, c)
    else if |c.response| < n then c.(undefined := true)
    else c.(request := c.request[1..], response := c.response[n..] + [Reply(h, SUCCESS)])
  }

  /** The effect of the handler for header `h`, on well-formed and on malformed requests. */
  ghost function Handle<S>(b: Bus<S>, h: TxnHdr, c: Conf<S>): Conf<S> {
    if h.typeId == 0 then HandleRead(b, h, c)
    else if h.typeId == 1 then HandleWrite(b, h, c)
    else if h.typeId == 2 then HandleNiRead(b, h, c)
    else if h.typeId == 3 then HandleNiWrite(b, h, c)
    else if h.typeId == 4 then HandleModify(b, h, c, 3, BitsUpdate(c.request))
    else if h.typeId == 5 then HandleModify(b, h, c, 2, SumUpdate(c.request))
    else if h.typeId == 6 then HandleCfgRead(h, c)
    else if h.typeId == 7 then HandleCfgWrite(h, c)
    else Bad(h, c)
  }

  lemma HandleConsumes<S>(b: Bus<S>, h: TxnHdr, c: Conf<S>)
    ensures |Handle(b, h, c).request| <= |c.request|
  {
  }

  /** The loop of `process_control_packet`: an invalid header drops the whole response. */
  ghost function Process<S>(b: Bus<S>, c: Conf<S>): Conf<S>
    decreases |c.request|
  {
    if c.request == [] || c.undefined then c
    else
      var h := Parse(c.request[0]);
      var c1 := c.(request := c.request[1..]);
      if h.version != 2 || h.info != REQUEST then c1.(response := [])
      else
        HandleConsumes(b, h, c1);
        Process(b, Handle(b, h, c1))
  }

  class Client<S(!new)> {
    const memory: Bus<S>
    var request: seq<Word>
    var response: seq<Word>
    var bus: S
    var undefined: bool

    constructor (memory: Bus<S>, bus: S, request: seq<Word>)
      ensures this.memory == memory && Now() == Conf(request, [], bus, false)
    {
      this.memory := memory;
      this.bus := bus;
      this.request := request;
      response := [];
      undefined := false;
    }

    ghost function Now(): Conf<S>
      reads this
    {
      Conf(request, response, bus, undefined)
    }

    /** `request.front(); request.pop_front()` */
    method Pop() returns (w: Word)
      requires request != []
      modifies this`request
      ensures w == old(request)[0] && request == old(request)[1..]
    {
      w := request[0];
      request := request[1..];
    }

    method ReadTxn(h: TxnHdr)
      modifies this`request, this`response, this`bus
      ensures Now() == HandleRead(memory, h, old(Now()))
    {
      hide Reply, ModifyAddress, Words;
      if |request| < 1 {
        response := response + [Reply(h, BAD_HEADER)];
        return;
      }
      var base := Pop();
      var addr := ModifyAddress(base);
      var r := memory.read(bus, addr, Words(h));
      bus := r.state;
      if r.ok {
        response := response + [Reply(h, SUCCESS)];
        ghost var before := response;
        for i := 0 to Words(h)
          invariant response == before + Taken(r.data, i)
          invariant request == old(request)[1..] && bus == r.state
        {
          response := response + [r.data(i)];
        }
        assert response == old(response) + ([Reply(h, SUCCESS)] + Taken(r.data, Words(h)));
      } else {
        response := response + [Reply(h, BUSERR_READ)];
      }
    }

    /** The loop of `process_write_txn` that fills `data`. */
    method PopMany(n: nat) returns (data: seq<Word>)
      requires n <= |request|
      modifies this`request
      ensures data == old(request)[..n] && request == old(request)[n..]
    {
      ghost var q := request;
      data := [];
      for i := 0 to n
        invariant data == q[..i] && request == q[i..]
      {
        var d := Pop();
        assert d == q[i];
        data := data + [d];
      }
    }

    method WriteTxn(h: TxnHdr)
      modifies this`request, this`response, this`bus
      ensures Now() == HandleWrite(memory, h, old(Now()))
    {
      hide Reply, ModifyAddress, Words;
      if |request| < 1 + Words(h) {
        response := response + [Reply(h, BAD_HEADER)];
        return;
      }
      ghost var q := request;
      var base := Pop();
      var addr := ModifyAddress(base);
      var data := PopMany(Words(h));
      assert data == q[1..1 + Words(h)] && request == q[1 + Words(h)..];
      var w := memory.write(bus, addr, data);
      bus := w.state;
      response := response + [Reply(h, if w.ok then SUCCESS else BUSERR_READ)];
    }

    method NiReadTxn(h: TxnHdr)
      modifies this`request, this`response, this`bus
      ensures Now() == HandleNiRead(memory, h, old(Now()))
    {
      hide Reply, ModifyAddress, Words;
      if |request| < 1 {
        response := response + [Reply(h, BAD_HEADER)];
        return;
      }
      ghost var s := bus;
      var base := Pop();
      var addr := ModifyAddress(base);
      var data: seq<Word> := [];
      for i := 0 to Words(h)
        invariant ReadRun(memory, s, addr, i) == (bus, true, data)
        invariant response == old(response) && request == old(request)[1..]
      {
        var r := memory.read(bus, addr, 1);
        bus := r.state;
        if r.ok {
          data := data + [r.data(0)];
        } else {
          response := response + [Reply(h, BUSERR_READ)];
          ReadRunFails(memory, s, addr, i + 1, Words(h));
          return;
        }
      }
      response := response + [Reply(h, SUCCESS)];
      response := response + data;
    }

    /** The loop of `process_niwrite_txn`; after a failure the remaining words stay in the request. */
    method WriteSingly(addr: Word, n: nat) returns (ok: bool)
      requires n <= |request|
      modifies this`request, this`bus
      ensures var r := WriteRun(memory, old(bus), addr, old(request), n);
        bus == r.0 && ok == r.1 && request == old(request)[r.2..]
    {
      ghost var s, data := bus, request;
      for i := 0 to n
        invariant WriteRun(memory, s, addr, data, i) == (bus, true, i)
        invariant request == data[i..]
      {
        var d := Pop();
        assert d == data[i];
        var w := memory.write(bus, addr, [d]);
        bus := w.state;
        if !w.ok {
          WriteRunFails(memory, s, addr, data, i + 1, n);
          return false;
        }
      }
      ok := true;
    }

    method NiWriteTxn(h: TxnHdr)
      modifies this`request, this`response, this`bus
      ensures Now() == HandleNiWrite(memory, h, old(Now()))
    {
      hide Reply, ModifyAddress, Words;
      if |request| < 1 + Words(h) {
        response := response + [Reply(h, BAD_HEADER)];
        return;
      }
      var base := Pop();
      var addr := ModifyAddress(base);
      var ok := WriteSingly(addr, Words(h));
      response := response + [Reply(h, if ok then SUCCESS else BUSERR_WRITE)];
    }

    /** The common tail of the two read-modify-write handlers. */
    method Modify(h: TxnHdr, addr: Word, predata: ReadResult<S>, data: Word, ghost update: Word -> Word)
      requires predata == memory.read(bus, addr, 1) && data == update(predata.data(0))
      modifies this`response, this`bus
      ensures var (s, info, was) := ModifyResult(memory, old(bus), addr, update);
        bus == s && response == old(response) + [Reply(h, info)] + if info == SUCCESS then [was] else []
    {
      bus := predata.state;
      if !predata.ok {
        response := response + [Reply(h, BUSERR_READ)];
        return;
      }
      var w := memory.write(bus, addr, [data]);
      bus := w.state;
      if !w.ok {
        response := response + [Reply(h, BUSERR_WRITE)];
        return;
      }
      response := response + [Reply(h, SUCCESS)];
      response := response + [predata.data(0)];
    }

    method RmwBitsTxn(h: TxnHdr)
      modifies this`request, this`response, this`bus
      ensures Now() == HandleModify(memory, h, old(Now()), 3, BitsUpdate(old(request)))
    {
      hide Reply, ModifyAddress, Words, MaskWord, BitsUpdate, ModifyResult;
      if Words(h) != 1 || |request| < 3 {
        response := response + [Reply(h, BAD_HEADER)];
        return;
      }
      ghost var q := request;
      var base := Pop();
      var andTerm := Pop();
      var orTerm := Pop();
      var addr := ModifyAddress(base);
      var predata := memory.read(bus, addr, 1);
      BitsUpdateAt(q, predata.data(0));
      Modify(h, addr, predata, MaskWord(predata.data(0), andTerm, orTerm), BitsUpdate(q));
    }

    method RmwSumTxn(h: TxnHdr)
      modifies this`request, this`response, this`bus
      ensures Now() == HandleModify(memory, h, old(Now()), 2, SumUpdate(old(request)))
    {
      hide Reply, ModifyAddress, Words, AddWords, SumUpdate, ModifyResult;
      if Words(h) != 1 || |request| < 2 {
        response := response + [Reply(h, BAD_HEADER)];
        return;
      }
      ghost var q := request;
      var base := Pop();
      var addend := Pop();
      var addr := ModifyAddress(base);
      var predata := memory.read(bus, addr, 1);
      SumUpdateAt(q, predata.data(0));
      Modify(h, addr, predata, AddWords(predata.data(0), addend), SumUpdate(q));
    }

    method CfgReadTxn(h: TxnHdr)
      modifies this`request, this`response
      ensures Now() == HandleCfgRead(h, old(Now()))
    {
      hide Reply, ModifyAddress, Words;
      if |request| < 1 {
        response := response + [Reply(h, BAD_HEADER)];
        return;
      }
      var _ := Pop();
      response := response + [Reply(h, SUCCESS)];
      ghost var before := response;
      for i := 0 to Words(h)
        invariant response == before + Zeros(i) && request == old(request)[1..]
      {
        response := response + [0];
      }
    }

    /** The data words are popped off the response, not off the request. */
    method CfgWriteTxn(h: TxnHdr)
      modifies this`request, this`response, this`undefined
      ensures Now() == HandleCfgWrite(h, old(Now()))
    {
      hide Reply, ModifyAddress, Words;
      if |request| < 1 + Words(h) {
        response := response + [Reply(h, BAD_HEADER)];
        return;
      }
      if |response| < Words(h) {
        undefined := true;
        return;
      }
      var _ := Pop();
      for i := 0 to Words(h)
        invariant response == old(response)[i..] && request == old(request)[1..] && undefined == old(undefined)
      {
        assert old(response)[i..][1..] == old(response)[i + 1..];
        response := response[1..];
      }
      response := response + [Reply(h, SUCCESS)];
    }

    /** The `switch` over the transaction types. */
    method Dispatch(h: TxnHdr)
      modifies this
      ensures Now() == Handle(memory, h, old(Now()))
    {
      hide HandleRead, HandleWrite, HandleNiRead, HandleNiWrite, HandleModify, HandleCfgRead, HandleCfgWrite;
      if h.typeId == 0 {
        ReadTxn(h);
      } else if h.typeId == 1 {
        WriteTxn(h);
      } else if h.typeId == 2 {
        NiReadTxn(h);
      } else if h.typeId == 3 {
        NiWriteTxn(h);
      } else if h.typeId == 4 {
        RmwBitsTxn(h);
      } else if h.typeId == 5 {
        RmwSumTxn(h);
      } else if h.typeId == 6 {
        CfgReadTxn(h);
      } else if h.typeId == 7 {
        CfgWriteTxn(h);
      } else {
        response := response + [Reply(h, BAD_HEADER)];
      }
    }

    /** `process_control_packet` */
    method ProcessControlPacket()
      requires !undefined
      modifies this
      ensures Now() == Process(memory, old(Now()))
    {
      hide Handle;
      while request != [] && !undefined
        invariant Process(memory, Now()) == Process(memory, old(Now()))
        decreases |request|
      {
        var w := Pop();
        var h := Parse(w);
        if h.version != 2 || h.info != REQUEST {
          response := [];
          return;
        }
        HandleConsumes(memory, h, Now());
        Dispatch(h);
      }
    }
  }

  lemma {:induction false} ReadRunFails<S>(b: Bus<S>, s: S, addr: Word, i: nat, n: nat)
    requires i <= n && !ReadRun(b, s, addr, i).1
    ensures ReadRun(b, s, addr, n).0 == ReadRun(b, s, addr, i).0 && !ReadRun(b, s, addr, n).1
    decreases n
  {
    if i < n {
      ReadRunFails(b, s, addr, i, n - 1);
    }
  }

  lemma {:induction false} WriteRunFails<S>(b: Bus<S>, s: S, addr: Word, data: seq<Word>, i: nat, n: nat)
    requires i <= n <= |data| && !WriteRun(b, s, addr, data, i).1
    ensures WriteRun(b, s, addr, data, n) == WriteRun(b, s, addr, data, i)
    decreases n
  {
    if i < n {
      WriteRunFails(b, s, addr, data, i, n - 1);
    }
  }
}
