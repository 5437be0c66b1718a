/** Read-modify-write requests of the IPbus server, from the words of the packet to the word on the bus. */
module IpbusModify {
  import opened IpbusHeader
  import opened Ipbus

  /** Where the bus is accessed for an address of a request. */
  function BusAddress(addr: Word): Word {
    0x6400_0000 + (addr << 2)
  }

  lemma SameAddress(addr: Word)
    ensures ModifyAddress(addr) == BusAddress(addr)
  {
  }

  /** The header of a reply is that of the request with another info code. */
  function ReplyWord(head: Word, info: Word): Word {
    (head & 0xffff_fff0) | info
  }

  lemma ReplyIs(head: Word, info: bv8)
    requires info <= 0x0f
    ensures Reply(Parse(head), info) == ReplyWord(head, info as Word)
  {
  }

  lemma BitsHeader(head: Word)
    requires head & 0xf000_ffff == 0x2000_014f
    ensures var h := Parse(head); h.version == 2 && h.words == 1 && h.typeId == 4 && h.info == REQUEST
  {
  }

  lemma SumHeader(head: Word)
    requires head & 0xf000_ffff == 0x2000_015f
    ensures var h := Parse(head); h.version == 2 && h.words == 1 && h.typeId == 5 && h.info == REQUEST
  {
  }

  /** The configuration after a modification that wrote `w`: the replies carry 4 for a failed read, 5 for a
      failed write, and 0 with the old word otherwise. */
  ghost function Modified<S>(b: Bus<S>, s: S, head: Word, addr: Word, w: Word): Conf<S> {
    var at := BusAddress(addr);
    var r := b.read(s, at, 1);
    if !r.ok then Conf([], [ReplyWord(head, 4)], r.state, false)
    else
      var u := b.write(r.state, at, [w]);
      if !u.ok then Conf([], [ReplyWord(head, 5)], u.state, false)
      else Conf([], [ReplyWord(head, 0), r.data(0)], u.state, false)
  }

  lemma ModifyHandled<S>(b: Bus<S>, head: Word, c: Conf<S>, operands: nat, update: Word -> Word)
    requires 0 < operands == |c.request| && c.response == [] && !c.undefined && Parse(head).words == 1
    ensures var d := b.read(c.bus, BusAddress(c.request[0]), 1).data(0);
      HandleModify(b, Parse(head), c, operands, update) == Modified(b, c.bus, head, c.request[0], update(d))
  {
    SameAddress(c.request[0]);
    ReplyIs(head, 0);
    ReplyIs(head, 4);
    ReplyIs(head, 5);
    hide Reply, ReplyWord, ModifyAddress, BusAddress, Parse;
  }

  /** A packet of one transaction is handled, and nothing is left of it. */
  lemma OneTransaction<S>(b: Bus<S>, c: Conf<S>)
    requires c.request != [] && !c.undefined
    requires var h := Parse(c.request[0]); h.version == 2 && h.info == REQUEST
    requires Handle(b, Parse(c.request[0]), c.(request := c.request[1..])).request == []
    ensures Process(b, c) == Handle(b, Parse(c.request[0]), c.(request := c.request[1..]))
  {
    hide Handle, Parse;
  }

  /** `w` is `d` with the or-bits set, and otherwise cut to the and-mask; this determines it. */
  ghost predicate Masked(w: Word, d: Word, andTerm: Word, orTerm: Word) {
    w & orTerm == orTerm && w & !orTerm == d & andTerm & !orTerm
  }

  lemma MaskedUnique(v: Word, w: Word, d: Word, andTerm: Word, orTerm: Word)
    requires Masked(v, d, andTerm, orTerm) && Masked(w, d, andTerm, orTerm)
    ensures v == w
  {
    TwoHalves(v, w, orTerm);
  }

  lemma MaskWordMasks(d: Word, andTerm: Word, orTerm: Word)
    ensures Masked(MaskWord(d, andTerm, orTerm), d, andTerm, orTerm)
  {
    MaskWordBits(d, andTerm, orTerm);
    hide MaskWord;
  }

  /** A packet of one read-modify-write of bits: in the word that goes to the bus the or-bits are set, and the
      others are those of the word read that the and-mask lets through. */
  lemma RmwBitsPacket<S>(b: Bus<S>, c: Conf<S>, head: Word, addr: Word, andTerm: Word, orTerm: Word) returns (w: Word)
    requires c.request == [head, addr, andTerm, orTerm] && c.response == [] && !c.undefined
    requires head & 0xf000_ffff == 0x2000_014f
    ensures Masked(w, b.read(c.bus, BusAddress(addr), 1).data(0), andTerm, orTerm)
    ensures Process(b, c) == Modified(b, c.bus, head, addr, w)
  {
    var q := c.request[1..];
    var c1 := c.(request := q);
    var d := b.read(c.bus, BusAddress(addr), 1).data(0);
    w := MaskWord(d, andTerm, orTerm);
    MaskWordMasks(d, andTerm, orTerm);
    BitsHeader(head);
    assert q == [addr, andTerm, orTerm];
    hide Masked, MaskWord, Parse, BusAddress, ModifyAddress, BitsUpdate;
    BitsUpdateAt(q, d);
    ModifyHandled(b, head, c1, 3, BitsUpdate(q));
    assert Handle(b, Parse(head), c1) == HandleModify(b, Parse(head), c1, 3, BitsUpdate(q));
    OneTransaction(b, c);
  }

  /** A packet of one read-modify-write of sums: the word that goes to the bus is the sum modulo 2^32. */
  lemma RmwSumPacket<S>(b: Bus<S>, c: Conf<S>, head: Word, addr: Word, addend: Word) returns (w: Word)
    requires c.request == [head, addr, addend] && c.response == [] && !c.undefined
    requires head & 0xf000_ffff == 0x2000_015f
    ensures var d := b.read(c.bus, BusAddress(addr), 1).data(0);
      w as bv33 == ((d as bv33) + (addend as bv33)) & 0xffff_ffff
    ensures Process(b, c) == Modified(b, c.bus, head, addr, w)
  {
    var q := c.request[1..];
    var c1 := c.(request := q);
    var d := b.read(c.bus, BusAddress(addr), 1).data(0);
    w := AddWords(d, addend);
    AddWordsValue(d, addend);
    SumHeader(head);
    assert q == [addr, addend];
    hide AddWords, Parse, BusAddress, ModifyAddress, SumUpdate;
    SumUpdateAt(q, d);
    ModifyHandled(b, head, c1, 2, SumUpdate(q));
    assert Handle(b, Parse(head), c1) == HandleModify(b, Parse(head), c1, 2, SumUpdate(q));
    OneTransaction(b, c);
  }

  /** The server, given such a packet. */
  method ServeRmwBits<S(!new)>(client: Client<S>, ghost head: Word, ghost addr: Word, ghost andTerm: Word,
                               ghost orTerm: Word, ghost s: S) returns (ghost w: Word)
    requires client.Now() == Conf([head, addr, andTerm, orTerm], [], s, false)
    requires head & 0xf000_ffff == 0x2000_014f
    modifies client
    ensures Masked(w, client.memory.read(s, BusAddress(addr), 1).data(0), andTerm, orTerm)
    ensures client.Now() == Modified(client.memory, s, head, addr, w)
  {
    w := RmwBitsPacket(client.memory, client.Now(), head, addr, andTerm, orTerm);
    hide Process, Modified, BusAddress, Masked;
    client.ProcessControlPacket();
  }
}
