/** The deque loop of the IPbus server refines: parse the packet to a list of transactions, run them on
    the bus in order, print their replies. */
module IpbusRefinement {
  import opened IpbusHeader
  import opened Ipbus

  /** A transaction as the client meant it. */
  datatype Txn =
    | Read(id: bv16, words: bv8, addr: Word)
    | Write(id: bv16, words: bv8, addr: Word, data: seq<Word>)
    | NiRead(id: bv16, words: bv8, addr: Word)
    | NiWrite(id: bv16, words: bv8, addr: Word, data: seq<Word>)
    | RmwBits(id: bv16, addr: Word, andTerm: Word, orTerm: Word)
    | RmwSum(id: bv16, addr: Word, addend: Word)
    | CfgRead(id: bv16, words: bv8, addr: Word)
    | CfgWrite(id: bv16, words: bv8, addr: Word, data: seq<Word>)
    | Unknown(id: bv16, words: bv8, typeId: bv8)

  function TypeOf(t: Txn): bv8 {
    match t
    case Read(_, _, _) => 0
    case Write(_, _, _, _) => 1
    case NiRead(_, _, _) => 2
    case NiWrite(_, _, _, _) => 3
    case RmwBits(_, _, _, _) => 4
    case RmwSum(_, _, _) => 5
    case CfgRead(_, _, _) => 6
    case CfgWrite(_, _, _, _) => 7
    case Unknown(_, _, typeId) => typeId
  }

  function HeaderOf(t: Txn): TxnHdr {
    TxnHdr(t.id, 2, if t.RmwBits? || t.RmwSum? then 1 else t.words, TypeOf(t), REQUEST)
  }

  function Body(t: Txn): seq<Word> {
    match t
    case Read(_, _, addr) => [addr]
    case Write(_, _, addr, data) => [addr] + data
    case NiRead(_, _, addr) => [addr]
    case NiWrite(_, _, addr, data) => [addr] + data
    case RmwBits(_, addr, a, o) => [addr, a, o]
    case RmwSum(_, addr, a) => [addr, a]
    case CfgRead(_, _, addr) => [addr]
    case CfgWrite(_, _, addr, data) => [addr] + data
    case Unknown(_, _, _) => []
  }

  predicate WellFormed(t: Txn) {
    && HeaderOf(t).Fits()
    && (t.Write? || t.NiWrite? || t.CfgWrite? ==> |t.data| == Words(HeaderOf(t)))
    && (t.Unknown? ==> 7 < t.typeId)
  }

  function Print(t: Txn): seq<Word> {
    [HeaderOf(t).Serialize()] + Body(t)
  }

  function PrintAll(ts: seq<Txn>): seq<Word> {
    if ts == [] then [] else Print(ts[0]) + PrintAll(ts[1..])
  }

  /** What one transaction does: the bus afterwards, the info code, the words returned, and how many of
      its data words are left unread. */
  datatype Outcome<S> = Outcome(bus: S, info: bv8, payload: seq<Word>, unread: nat)

  ghost function Execute<S>(b: Bus<S>, t: Txn, s: S): Outcome<S>
    requires WellFormed(t)
  {
    var n := Words(HeaderOf(t));
    match t
    case Read(_, _, addr) =>
      var r := b.read(s, ModifyAddress(addr), n);
      if r.ok then Outcome(r.state, SUCCESS, Taken(r.data, n), 0) else Outcome(r.state, BUSERR_READ, [], 0)
    case Write(_, _, addr, data) =>
      var w := b.write(s, ModifyAddress(addr), data);
      Outcome(w.state, if w.ok then SUCCESS else BUSERR_READ, [], 0)
    case NiRead(_, _, addr) =>
      var (s', ok, data) := ReadRun(b, s, ModifyAddress(addr), n);
      if ok then Outcome(s', SUCCESS, data, 0) else Outcome(s', BUSERR_READ, [], 0)
    case NiWrite(_, _, addr, data) =>
      var (s', ok, used) := WriteRun(b, s, ModifyAddress(addr), data, n);
      Outcome(s', if ok then SUCCESS else BUSERR_WRITE, [], n - used)
    case RmwBits(_, addr, a, o) =>
      var (s', info, was) := ModifyResult(b, s, ModifyAddress(addr), d => MaskWord(d, a, o));
      Outcome(s', info, if info == SUCCESS then [was] else [], 0)
    case RmwSum(_, addr, a) =>
      var (s', info, was) := ModifyResult(b, s, ModifyAddress(addr), d => AddWords(d, a));
      Outcome(s', info, if info == SUCCESS then [was] else [], 0)
    case CfgRead(_, _, addr) => Outcome(s, SUCCESS, Zeros(n), 0)
    case CfgWrite(_, _, addr, data) => Outcome(s, SUCCESS, [], n)
    case Unknown(_, _, _) => Outcome(s, BAD_HEADER, [], 0)
  }

  ghost function PrintReply<S>(t: Txn, o: Outcome<S>): seq<Word> {
    [Reply(HeaderOf(t), o.info)] + o.payload
  }

  /** A reply carries the id, the type and the word count of its request. */
  lemma ReplyCarriesHeader(t: Txn, info: bv8)
    requires WellFormed(t) && info <= 0x0f
    ensures Parse(Reply(HeaderOf(t), info)) == HeaderOf(t).(info := info)
  {
    ParseSerialize(HeaderOf(t).(info := info));
  }

  ghost function Replies<S>(b: Bus<S>, ts: seq<Txn>, s: S): seq<Word>
    requires forall i :: 0 <= i < |ts| ==> WellFormed(ts[i])
  {
    if ts == [] then []
    else
      var o := Execute(b, ts[0], s);
      PrintReply(ts[0], o) + Replies(b, ts[1..], o.bus)
  }

  ghost function Final<S>(b: Bus<S>, ts: seq<Txn>, s: S): S
    requires forall i :: 0 <= i < |ts| ==> WellFormed(ts[i])
  {
    if ts == [] then s else Final(b, ts[1..], Execute(b, ts[0], s).bus)
  }

  /** No transaction leaves data words unread. */
  ghost predicate InStep<S>(b: Bus<S>, ts: seq<Txn>, s: S)
    requires forall i :: 0 <= i < |ts| ==> WellFormed(ts[i])
  {
    ts == [] ||
    var o := Execute(b, ts[0], s);
    o.unread == 0 && InStep(b, ts[1..], o.bus)
  }

  /** A condition on the packet alone: non-incrementing writes carry at most one data word and
      configuration writes none. */
  predicate Safe(ts: seq<Txn>) {
    forall t <- ts :: (t.NiWrite? ==> |t.data| <= 1) && (t.CfgWrite? ==> t.data == [])
  }

  // ----- one transaction

  /** The info codes of the replies: 0 for success, 1 for an unknown type, 4 for failed reads and writes, and
      5 for non-incrementing writes and the write half of a modification. */
  lemma InfoCodes<S>(b: Bus<S>, t: Txn, s: S)
    requires WellFormed(t)
    ensures var info := Execute(b, t, s).info;
      && (t.Unknown? ==> info == 1)
      && (t.CfgRead? || t.CfgWrite? ==> info == 0)
      && (t.Read? || t.Write? || t.NiRead? ==> info in {0, 4})
      && (t.NiWrite? ==> info in {0, 5})
      && (t.RmwBits? || t.RmwSum? ==> info in {0, 4, 5})
  {
    hide ReadRun, WriteRun, Taken, Zeros, ModifyAddress, MaskWord, AddWords, Words;
  }

  lemma PlainSucceeds<S>(b: Bus<S>, t: Txn, rest: seq<Word>, c: Conf<S>)
    requires WellFormed(t) && c.request == Body(t) + rest
    requires t.Read? || t.Write? || t.NiRead? || t.CfgRead? || t.Unknown?
    ensures var o := Execute(b, t, c.bus);
      Handle(b, HeaderOf(t), c) == Conf(rest, c.response + PrintReply(t, o), o.bus, c.undefined)
  {
    hide Reply, ModifyAddress, Words;
    var q := c.request;
    if t.Write? {
      assert q[1..1 + |t.data|] == t.data && q[1 + |t.data|..] == rest;
    } else if t.CfgRead? {
      assert q[1..] == rest;
      assert c.response + [Reply(HeaderOf(t), SUCCESS)] + Zeros(Words(HeaderOf(t))) ==
             c.response + ([Reply(HeaderOf(t), SUCCESS)] + Zeros(Words(HeaderOf(t))));
    } else if t.Unknown? {
      assert q == rest;
      assert [Reply(HeaderOf(t), BAD_HEADER)] + [] == [Reply(HeaderOf(t), BAD_HEADER)];
    } else {
      assert q[1..] == rest;
    }
  }

  lemma RmwSucceeds<S>(b: Bus<S>, t: Txn, rest: seq<Word>, c: Conf<S>)
    requires WellFormed(t) && c.request == Body(t) + rest && (t.RmwBits? || t.RmwSum?)
    ensures var o := Execute(b, t, c.bus);
      Handle(b, HeaderOf(t), c) == Conf(rest, c.response + PrintReply(t, o), o.bus, c.undefined)
  {
    hide Reply, ModifyAddress;
    var q, o := c.request, Execute(b, t, c.bus);
    var payload := o.payload;
    assert c.response + [Reply(HeaderOf(t), o.info)] + payload == c.response + ([Reply(HeaderOf(t), o.info)] + payload);
    if t.RmwBits? {
      assert q[3..] == rest;
    } else {
      assert q[2..] == rest;
    }
  }

  lemma {:induction false} WriteRunPrefix<S>(b: Bus<S>, s: S, addr: Word, data: seq<Word>, rest: seq<Word>, n: nat)
    requires n <= |data|
    ensures WriteRun(b, s, addr, data + rest, n) == WriteRun(b, s, addr, data, n)
  {
    if n > 0 {
      WriteRunPrefix(b, s, addr, data, rest, n - 1);
    }
  }

  lemma NiWriteConsumes<S>(b: Bus<S>, t: Txn, rest: seq<Word>, c: Conf<S>)
    requires WellFormed(t) && c.request == Body(t) + rest && t.NiWrite?
    ensures var o := Execute(b, t, c.bus);
      o.unread <= |t.data| &&
      Handle(b, HeaderOf(t), c) ==
        Conf(t.data[|t.data| - o.unread..] + rest, c.response + PrintReply(t, o), o.bus, c.undefined)
  {
    BodyWords(t, rest, c.request);
    NiWriteOutcome(b, t, c.bus);
    var h := HeaderOf(t);
    var r := WriteRun(b, c.bus, ModifyAddress(t.addr), t.data, |t.data|);
    assert Handle(b, h, c) == HandleNiWrite(b, h, c);
    PlainReply(t, Execute(b, t, c.bus));
    hide Reply, ModifyAddress, WriteRun, HeaderOf, WellFormed, Body, Handle, Execute, Words, HandleNiWrite, PrintReply;
    NiWriteHandled(b, h, t.data, rest, c);
    assert |t.data| - (|t.data| - r.2) == r.2;
  }

  lemma PlainReply<S>(t: Txn, o: Outcome<S>)
    requires o.payload == []
    ensures PrintReply(t, o) == [Reply(HeaderOf(t), o.info)]
  {
    hide Reply;
  }

  lemma NiWriteHandled<S>(b: Bus<S>, h: TxnHdr, data: seq<Word>, rest: seq<Word>, c: Conf<S>)
    requires c.request != [] && c.request[1..] == data + rest && |data| == Words(h)
    ensures var r := WriteRun(b, c.bus, ModifyAddress(c.request[0]), data, |data|);
      HandleNiWrite(b, h, c) == Conf(data[r.2..] + rest,
        c.response + [Reply(h, if r.1 then SUCCESS else BUSERR_WRITE)], r.0, c.undefined)
  {
    hide Reply, ModifyAddress, Words, WriteRun;
    var addr := ModifyAddress(c.request[0]);
    WriteRunPrefix(b, c.bus, addr, data, rest, |data|);
    var used := WriteRun(b, c.bus, addr, data, |data|).2;
    assert c.request[1 + used..] == c.request[1..][used..] == data[used..] + rest;
  }

  lemma NiWriteOutcome<S>(b: Bus<S>, t: Txn, s: S)
    requires WellFormed(t) && t.NiWrite?
    ensures var r := WriteRun(b, s, ModifyAddress(t.addr), t.data, |t.data|);
      Execute(b, t, s) == Outcome(r.0, if r.1 then SUCCESS else BUSERR_WRITE, [], |t.data| - r.2)
  {
    hide ModifyAddress, WriteRun;
  }

  lemma BodyWords(t: Txn, rest: seq<Word>, q: seq<Word>)
    requires WellFormed(t) && q == Body(t) + rest && (t.Write? || t.NiWrite? || t.CfgWrite?)
    ensures Words(HeaderOf(t)) == |t.data| && HeaderOf(t).typeId == TypeOf(t)
    ensures |q| >= 1 + |t.data| && q[0] == t.addr && q[1..] == t.data + rest
  {
    hide Words;
    assert Body(t) == [t.addr] + t.data;
    hide Body;
    assert q == [t.addr] + (t.data + rest);
  }

  /** The words a transaction takes off the response. */
  function Loses(t: Txn): nat {
    if t.CfgWrite? then |t.data| else 0
  }

  /** The configuration after a printed transaction: `left` are its unread data words. Popping more words
      than the response has is undefined. */
  ghost function After<S>(t: Txn, o: Outcome<S>, left: seq<Word>, rest: seq<Word>, c: Conf<S>): Conf<S> {
    if |c.response| < Loses(t) then c.(undefined := true)
    else Conf(left + rest, c.response[Loses(t)..] + PrintReply(t, o), o.bus, c.undefined)
  }

  lemma CfgWriteConsumes<S>(b: Bus<S>, t: Txn, rest: seq<Word>, c: Conf<S>)
    requires WellFormed(t) && c.request == Body(t) + rest && t.CfgWrite?
    ensures Handle(b, HeaderOf(t), c) == After(t, Execute(b, t, c.bus), t.data, rest, c)
  {
    BodyWords(t, rest, c.request);
    var h := HeaderOf(t);
    var o := Execute(b, t, c.bus);
    assert o == Outcome(c.bus, SUCCESS, [], |t.data|);
    assert Handle(b, h, c) == HandleCfgWrite(h, c);
    PlainReply(t, o);
    hide Reply, HeaderOf, Body, WellFormed, Words, Execute, Handle, HandleCfgWrite, PrintReply;
    CfgWriteHandled(h, t.data, rest, c);
  }

  lemma CfgWriteHandled<S>(h: TxnHdr, data: seq<Word>, rest: seq<Word>, c: Conf<S>)
    requires c.request != [] && c.request[1..] == data + rest && |data| == Words(h)
    ensures HandleCfgWrite(h, c) ==
      if |c.response| < |data| then c.(undefined := true)
      else Conf(data + rest, c.response[|data|..] + [Reply(h, SUCCESS)], c.bus, c.undefined)
  {
    hide Reply, Words;
  }

  /** Handling a printed transaction executes it, and leaves exactly its unread data words. */
  lemma HandlePrinted<S>(b: Bus<S>, t: Txn, rest: seq<Word>, c: Conf<S>) returns (left: seq<Word>)
    requires WellFormed(t) && c.request == Body(t) + rest
    ensures var o := Execute(b, t, c.bus);
      Loses(t) <= |left| == o.unread && (t.CfgWrite? ==> left == t.data) &&
      Handle(b, HeaderOf(t), c) == After(t, o, left, rest, c)
  {
    assert c.response[0..] == c.response;
    if t.NiWrite? {
      NiWriteConsumes(b, t, rest, c);
      left := t.data[|t.data| - Execute(b, t, c.bus).unread..];
    } else if t.CfgWrite? {
      CfgWriteConsumes(b, t, rest, c);
      left := t.data;
    } else {
      left := [];
      assert left + rest == rest;
      hide Handle;
      if t.RmwBits? || t.RmwSum? {
        RmwSucceeds(b, t, rest, c);
      } else {
        PlainSucceeds(b, t, rest, c);
      }
    }
  }

  /** A configuration write of `n` words is handled as meant, its words read and its reply appended,
      exactly if `n` is 0. */
  lemma CfgWriteRightIff<S>(h: TxnHdr, addr: Word, data: seq<Word>, rest: seq<Word>, c: Conf<S>)
    requires c.request == [addr] + data + rest && |data| == Words(h) && !c.undefined
    ensures HandleCfgWrite(h, c) == Conf(rest, c.response + [Reply(h, SUCCESS)], c.bus, false) <==> Words(h) == 0
  {
    hide Reply, Words;
    var after := HandleCfgWrite(h, c);
    if |data| == 0 {
      assert c.request[1..] == rest && c.response[0..] == c.response;
    } else {
      assert !after.undefined ==> |after.request| == |data| + |rest|;
    }
  }

  /** A write the bus refuses is always answered by the code of a failed read. */
  lemma FailedWriteReportsRead<S>(b: Bus<S>, t: Txn, c: Conf<S>)
    requires WellFormed(t) && t.Write? && c.request == Print(t) && !c.undefined && c.response == []
    requires !b.write(c.bus, ModifyAddress(t.addr), t.data).ok
    ensures Process(b, c).response == [Reply(HeaderOf(t), BUSERR_READ)]
    ensures Parse(Process(b, c).response[0]).info == 4 && BUSERR_WRITE == 5
  {
    assert c.request == Print(t) + [];
    var left, c' := ProcessPrinted(b, t, [], c);
    assert left == [] && c.response[0..] == [];
    ReplyCarriesHeader(t, BUSERR_READ);
  }

  // ----- the packet

  /** How much of the request is left each time the loop takes a header. */
  ghost function Boundaries<S>(b: Bus<S>, c: Conf<S>): seq<nat>
    decreases |c.request|
  {
    if c.request == [] || c.undefined then []
    else
      var h := Parse(c.request[0]);
      var c1 := c.(request := c.request[1..]);
      [|c.request|] +
      if h.version != 2 || h.info != REQUEST then []
      else
        HandleConsumes(b, h, c1);
        Boundaries(b, Handle(b, h, c1))
  }

  /** One turn of the loop on a packet that starts with a printed transaction. */
  lemma ProcessPrinted<S>(b: Bus<S>, t: Txn, rest: seq<Word>, c: Conf<S>)
    returns (left: seq<Word>, c': Conf<S>)
    requires WellFormed(t) && c.request == Print(t) + rest && !c.undefined
    ensures var o := Execute(b, t, c.bus);
      && Loses(t) <= |left| == o.unread && (t.CfgWrite? ==> left == t.data)
      && (if |c.response| < Loses(t) then c'.undefined
          else c' == Conf(left + rest, c.response[Loses(t)..] + PrintReply(t, o), o.bus, false))
    ensures Process(b, c) == Process(b, c') && Boundaries(b, c) == [|c.request|] + Boundaries(b, c')
  {
    var h := HeaderOf(t);
    ParseSerialize(h);
    var c1 := c.(request := c.request[1..]);
    assert c.request[0] == h.Serialize() && c1.request == Body(t) + rest;
    hide Handle, Execute, HeaderOf, Body, Print, PrintReply;
    left := HandlePrinted(b, t, rest, c1);
    c' := Handle(b, h, c1);
  }

  /** Nothing unread, nothing lost. */
  lemma ProcessPrintedInStep<S>(b: Bus<S>, t: Txn, rest: seq<Word>, c: Conf<S>) returns (c': Conf<S>)
    requires WellFormed(t) && c.request == Print(t) + rest && !c.undefined && Execute(b, t, c.bus).unread == 0
    ensures var o := Execute(b, t, c.bus); c' == Conf(rest, c.response + PrintReply(t, o), o.bus, false)
    ensures Process(b, c) == Process(b, c') && Boundaries(b, c) == [|c.request|] + Boundaries(b, c')
  {
    hide Process, Boundaries, Execute, Print, PrintReply, WellFormed, Loses;
    var left;
    left, c' := ProcessPrinted(b, t, rest, c);
    assert left + rest == rest && c.response[0..] == c.response;
  }

  /** Parse, fold, print: a packet of well-formed transactions is answered by the replies in order, and
      the bus sees exactly their effects in order. */
  lemma {:induction false} ProcessRefines<S>(b: Bus<S>, ts: seq<Txn>, c: Conf<S>)
    requires forall i :: 0 <= i < |ts| ==> WellFormed(ts[i])
    requires c.request == PrintAll(ts) && !c.undefined && InStep(b, ts, c.bus)
    ensures Process(b, c) == Conf([], c.response + Replies(b, ts, c.bus), Final(b, ts, c.bus), false)
    decreases |ts|
  {
    if ts == [] {
      assert c.response + [] == c.response;
    } else {
      Split(b, ts, c.bus);
      hide *;
      var o := Execute(b, ts[0], c.bus);
      var reply := PrintReply(ts[0], o);
      var c' := ProcessPrintedInStep(b, ts[0], PrintAll(ts[1..]), c);
      ProcessRefines(b, ts[1..], c');
      Associative(c.response, reply, Replies(b, ts[1..], o.bus));
    }
  }

  lemma Associative(x: seq<Word>, y: seq<Word>, z: seq<Word>)
    ensures x + y + z == x + (y + z)
  {
  }

  /** A packet, taken apart behind its first transaction. */
  lemma Split<S>(b: Bus<S>, ts: seq<Txn>, s: S)
    requires ts != [] && forall i :: 0 <= i < |ts| ==> WellFormed(ts[i])
    ensures PrintAll(ts) == Print(ts[0]) + PrintAll(ts[1..])
    ensures var o := Execute(b, ts[0], s);
      && (InStep(b, ts, s) <==> o.unread == 0 && InStep(b, ts[1..], o.bus))
      && Replies(b, ts, s) == PrintReply(ts[0], o) + Replies(b, ts[1..], o.bus)
      && Final(b, ts, s) == Final(b, ts[1..], o.bus)
  {
    hide Execute, WellFormed, Print, PrintReply;
  }

  function Expected(ts: seq<Txn>): seq<nat> {
    if ts == [] then [] else [|PrintAll(ts)|] + Expected(ts[1..])
  }

  /** Without a pop on an empty deque, the loop takes its headers where the client put them exactly if no
      transaction leaves data words unread. */
  lemma {:induction false} FramingInStepIff<S>(b: Bus<S>, ts: seq<Txn>, c: Conf<S>)
    requires forall i :: 0 <= i < |ts| ==> WellFormed(ts[i])
    requires c.request == PrintAll(ts) && !c.undefined
    ensures Boundaries(b, c) == Expected(ts) && !Process(b, c).undefined <==> InStep(b, ts, c.bus)
    decreases |ts|
  {
    if ts != [] {
      Split(b, ts, c.bus);
      hide Execute, WellFormed, Print, PrintReply, Loses, InStep, PrintAll;
      var rest := PrintAll(ts[1..]);
      if Execute(b, ts[0], c.bus).unread == 0 {
        var c' := ProcessPrintedInStep(b, ts[0], rest, c);
        assert Boundaries(b, c)[1..] == Boundaries(b, c') && Expected(ts)[1..] == Expected(ts[1..]);
        FramingInStepIff(b, ts[1..], c');
      } else {
        var left, c' := ProcessPrinted(b, ts[0], rest, c);
        assert Boundaries(b, c)[1..] == Boundaries(b, c') && Expected(ts)[1..] == Expected(ts[1..]);
        if !c'.undefined {
          assert Boundaries(b, c')[0] == |left| + |rest|;
          assert Expected(ts[1..]) != [] ==> Expected(ts[1..])[0] == |rest|;
        }
      }
    }
  }

  // ----- packets that are in step on every bus

  lemma SafeStep<S>(b: Bus<S>, t: Txn, s: S)
    requires WellFormed(t) && Safe([t])
    ensures Execute(b, t, s).unread == 0
  {
    assert t in [t];
    if t.NiWrite? {
      assert WriteRun(b, s, ModifyAddress(t.addr), t.data, |t.data|).2 == |t.data|;
    }
  }

  lemma {:induction false} SafeInStep<S>(b: Bus<S>, ts: seq<Txn>, s: S)
    requires (forall i :: 0 <= i < |ts| ==> WellFormed(ts[i])) && Safe(ts)
    ensures InStep(b, ts, s)
    decreases |ts|
  {
    hide Execute, WellFormed;
    if ts != [] {
      assert ts[0] in ts && forall t <- ts[1..] :: t in ts;
      SafeStep(b, ts[0], s);
      SafeInStep(b, ts[1..], Execute(b, ts[0], s).bus);
    }
  }

  /** A bus whose accesses all fail. */
  function DeadBus(): Bus<int> {
    Bus((s, _, _) => ReadResult(s, false, _ => 0), (s, _, _) => WriteResult(s, false))
  }

  lemma {:induction false} DeadRead(addr: Word, n: nat)
    ensures ReadRun(DeadBus(), 0, addr, n).0 == 0
  {
    if n > 0 {
      DeadRead(addr, n - 1);
    }
  }

  lemma DeadWrite(data: seq<Word>, addr: Word)
    ensures WriteRun(DeadBus(), 0, addr, data, |data|) == if data == [] then (0, true, 0) else (0, false, 1)
  {
    if data != [] {
      assert WriteRun(DeadBus(), 0, addr, data, 1) == (0, false, 1);
      WriteRunFails(DeadBus(), 0, addr, data, 1, |data|);
    }
  }

  /** On the dead bus a transaction leaves words unread exactly if it is not safe. */
  lemma DeadStep(t: Txn)
    requires WellFormed(t)
    ensures Execute(DeadBus(), t, 0).bus == 0
    ensures Execute(DeadBus(), t, 0).unread == 0 <==> Safe([t])
  {
    assert t in [t];
    if t.NiWrite? {
      DeadWrite(t.data, ModifyAddress(t.addr));
    } else if t.NiRead? {
      DeadRead(ModifyAddress(t.addr), Words(HeaderOf(t)));
    }
  }

  lemma {:induction false} UnsafeOutOfStep(ts: seq<Txn>)
    requires (forall i :: 0 <= i < |ts| ==> WellFormed(ts[i])) && !Safe(ts)
    ensures !InStep(DeadBus(), ts, 0)
    decreases |ts|
  {
    hide Execute, WellFormed, DeadBus;
    var t0 := ts[0];
    DeadStep(t0);
    if Safe([t0]) {
      assert t0 in [t0];
      assert forall t <- ts :: t == t0 || t in ts[1..];
      UnsafeOutOfStep(ts[1..]);
    }
  }

  /** A client can tell from the packet: it stays in step whatever the bus does exactly if it is safe.
      In particular it does without non-incrementing and configuration writes. */
  lemma InStepOnEveryBusIff<S>(b: Bus<S>, ts: seq<Txn>, s: S)
    requires forall i :: 0 <= i < |ts| ==> WellFormed(ts[i])
    ensures Safe(ts) ==> InStep(b, ts, s)
    ensures Safe(ts) <==> InStep(DeadBus(), ts, 0)
  {
    if Safe(ts) {
      SafeInStep(b, ts, s);
      SafeInStep(DeadBus(), ts, 0);
    } else {
      UnsafeOutOfStep(ts);
    }
  }

  /** Safe packets are parsed, executed and answered in order under arbitrary bus failures. */
  lemma SafePacketsRefine<S>(b: Bus<S>, ts: seq<Txn>, c: Conf<S>)
    requires (forall i :: 0 <= i < |ts| ==> WellFormed(ts[i])) && Safe(ts)
    requires c.request == PrintAll(ts) && !c.undefined
    ensures Process(b, c) == Conf([], c.response + Replies(b, ts, c.bus), Final(b, ts, c.bus), false)
    ensures Boundaries(b, c) == Expected(ts)
  {
    SafeInStep(b, ts, c.bus);
    ProcessRefines(b, ts, c);
    FramingInStepIff(b, ts, c);
  }

  // ----- packets that are not

  /** Out of step, data words are taken for headers; one that is no valid header costs the client the
      replies to the whole packet, including transactions that were carried out. */
  lemma OutOfStepDropsReplies<S>(b: Bus<S>, t: Txn, rest: seq<Word>, c: Conf<S>)
    requires WellFormed(t) && t.NiWrite? && c.request == Print(t) + rest && !c.undefined
    requires var unread := Execute(b, t, c.bus).unread;
      0 < unread <= |t.data| && var w := Parse(t.data[|t.data| - unread]); w.version != 2 || w.info != REQUEST
    ensures Process(b, c).response == []
  {
    var h := HeaderOf(t);
    ParseSerialize(h);
    var c1 := c.(request := c.request[1..]);
    assert c.request[0] == h.Serialize() && c1.request == Body(t) + rest;
    NiWriteConsumes(b, t, rest, c1);
    hide Handle, Execute, HeaderOf, Body, Print, PrintReply, WellFormed;
    var c' := Handle(b, h, c1);
    assert Process(b, c) == Process(b, c');
    assert c'.request[0] == t.data[|t.data| - Execute(b, t, c.bus).unread];
    hide Process;
    InvalidHeaderDrops(b, c');
  }

  lemma InvalidHeaderDrops<S>(b: Bus<S>, c: Conf<S>)
    requires c.request != [] && !c.undefined
    requires var w := Parse(c.request[0]); w.version != 2 || w.info != REQUEST
    ensures Process(b, c).response == []
  {
    hide Handle, Parse;
  }

  /** For instance: two zero words for one address of a dead bus, and the client gets no reply at all,
      where parse-fold-print would report the write error. */
  lemma LostErrorReport(t: Txn)
    requires t == NiWrite(1, 2, 0x10, [0, 0])
    ensures WellFormed(t) && !InStep(DeadBus(), [t], 0)
    ensures Process(DeadBus(), Conf(PrintAll([t]), [], 0, false)).response == []
    ensures Replies(DeadBus(), [t], 0) == [Reply(HeaderOf(t), BUSERR_WRITE)]
  {
    var b := DeadBus();
    assert Words(HeaderOf(t)) == 2;
    DeadWrite(t.data, ModifyAddress(t.addr));
    assert Execute(b, t, 0) == Outcome(0, BUSERR_WRITE, [], 1);
    assert PrintAll([t]) == Print(t) + [];
    OutOfStepDropsReplies(b, t, [], Conf(PrintAll([t]), [], 0, false));
  }

  /** A configuration write of one word behind a read pops the header of the read's reply, and its word,
      here an empty read request, is taken for the next transaction. */
  lemma CfgWriteEatsReply<S>(b: Bus<S>, read: Txn, write: Txn, c: Conf<S>)
    requires read == Read(1, 1, 0x10) && write == CfgWrite(2, 1, 0x20, [0x2000_000f])
    requires c.request == PrintAll([read, write]) && c.response == [] && !c.undefined
    requires b.read(c.bus, ModifyAddress(0x10), 1).ok
    ensures var r := b.read(c.bus, ModifyAddress(0x10), 1);
      Process(b, c).response ==
        [r.data(0), Reply(HeaderOf(write), SUCCESS), Reply(Parse(0x2000_000f), BAD_HEADER)]
  {
    assert PrintAll([read, write]) == Print(read) + PrintAll([write]) && PrintAll([write]) == Print(write) + [];
    var c1 := OneWordRead(b, read, Print(write), c);
    hide Reply, Print;
    var left, c2 := ProcessPrinted(b, write, [], c1);
    assert c1.response[1..] == [b.read(c.bus, ModifyAddress(0x10), 1).data(0)];
    assert left == write.data && c2.request == left + [] == left;
    EmptyRead(b, c2);
  }

  lemma OneWordRead<S>(b: Bus<S>, t: Txn, rest: seq<Word>, c: Conf<S>) returns (c': Conf<S>)
    requires WellFormed(t) && t.Read? && t.words == 1
    requires c.request == Print(t) + rest && c.response == [] && !c.undefined
    requires b.read(c.bus, ModifyAddress(t.addr), 1).ok
    ensures var r := b.read(c.bus, ModifyAddress(t.addr), 1);
      c' == Conf(rest, [Reply(HeaderOf(t), SUCCESS), r.data(0)], r.state, false)
    ensures Process(b, c) == Process(b, c')
  {
    hide Reply, Process, Boundaries, Print;
    var r := b.read(c.bus, ModifyAddress(t.addr), 1);
    c' := ProcessPrintedInStep(b, t, rest, c);
    assert Words(HeaderOf(t)) == 1 && Taken(r.data, 1) == [] + [r.data(0)];
  }

  lemma EmptyRead<S>(b: Bus<S>, c: Conf<S>)
    requires c.request == [0x2000_000f] && !c.undefined
    ensures Process(b, c).response == c.response + [Reply(Parse(0x2000_000f), BAD_HEADER)]
  {
    hide Reply;
    var h := Parse(0x2000_000f);
    assert h.version == 2 && h.info == REQUEST && h.typeId == 0;
    assert Process(b, c) == Handle(b, h, c.(request := []));
  }

  /** A configuration write of one word at the start of a packet pops an empty deque. */
  lemma CfgWritePopsNothing<S>(b: Bus<S>, t: Txn, c: Conf<S>)
    requires t == CfgWrite(1, 1, 0x20, [0])
    requires c.request == PrintAll([t]) && c.response == [] && !c.undefined
    ensures Process(b, c).undefined
  {
  }
}
