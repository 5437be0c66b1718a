/** Words of the IPbus protocol, version 2.0: transaction headers (`Client.h`) and the address and
    header arithmetic of `Client.cpp`. */
module IpbusHeader {
  type Word = bv32

  const SUCCESS: bv8 := 0
  const BAD_HEADER: bv8 := 1
  const BUSERR_READ: bv8 := 4
  const BUSERR_WRITE: bv8 := 5
  const REQUEST: bv8 := 0xf

  /** `IPBusTxnHdr` */
  datatype TxnHdr = TxnHdr(id: bv16, version: bv8, words: bv8, typeId: bv8, info: bv8) {
    function Serialize(): Word {
      (((version & 0x0f) as bv32) << 28) | (((id & 0x0fff) as bv32) << 16) | ((words as bv32) << 8) |
      (((typeId & 0x0f) as bv32) << 4) | ((info & 0x0f) as bv32)
    }

    /** Every field fits the bits it is printed to. */
    predicate Fits() {
      version <= 0x0f && id <= 0x0fff && typeId <= 0x0f && info <= 0x0f
    }
  }

  function Parse(w: Word): TxnHdr {
    TxnHdr(((w >> 16) & 0x0fff) as bv16, ((w >> 28) & 0x0f) as bv8, ((w >> 8) & 0xff) as bv8,
           ((w >> 4) & 0x0f) as bv8, (w & 0x0f) as bv8)
  }

  /** Printing a parsed header gives the word back, for all 2^32 words. */
  lemma SerializeParse(w: Word)
    ensures Parse(w).Serialize() == w && Parse(w).Fits()
  {
  }

  /** Parsing a printed header gives the header back exactly if its fields fit. */
  lemma ParseSerialize(h: TxnHdr)
    ensures Parse(h.Serialize()) == h <==> h.Fits()
  {
  }

  /** `modifyAddress` */
  function ModifyAddress(base: Word): Word {
    (base << 2) + 0x6400_0000
  }

  /** The bus address determines the low 30 bits of the address, and depends on nothing else. */
  lemma ModifyAddressInverse(a: Word)
    ensures (ModifyAddress(a) - 0x6400_0000) >> 2 == a & 0x3fff_ffff
    ensures ModifyAddress(a) == ModifyAddress(a & 0x3fff_ffff)
  {
  }

  /** `__builtin_bswap32` */
  function Bswap(w: Word): Word {
    (w << 24) | ((w & 0xff00) << 8) | ((w >> 8) & 0xff00) | (w >> 24)
  }

  /** The two header tests of `process_frame`. */
  predicate StandardEndian(w: Word) { w & 0xff00_00f0 == 0x2000_00f0 }

  predicate ReverseEndian(w: Word) { w & 0x0f00_00ff == 0x0f00_0020 }

  /** The second test does not do what it is for: of the byte-swapped valid headers it accepts exactly
      those of packet type 15, so a swapped control packet (type 0) is always ignored. */
  lemma SwappedHeaderRecognisedIff(w: Word)
    requires StandardEndian(w)
    ensures ReverseEndian(Bswap(w)) <==> w & 0x0f == 0x0f
    ensures Bswap(Bswap(w)) == w
  {
  }

  // ----- by value

  /** Where the fields of a header are in its word. */
  lemma FieldPositions(h: TxnHdr)
    requires h.Fits()
    ensures var w := h.Serialize();
      && w >> 28 == h.version as Word && (w >> 16) & 0xfff == h.id as Word
      && (w >> 8) & 0xff == h.words as Word && (w >> 4) & 0xf == h.typeId as Word && w & 0xf == h.info as Word
  {
  }

  /** A request of version 2 is told by four of its nibbles. */
  lemma RequestWord(w: Word, typeId: bv8)
    requires typeId <= 0x0f
    ensures w & 0xf000_00ff == 0x2000_000f | ((typeId as Word) << 4) <==>
            Parse(w).version == 2 && Parse(w).info == REQUEST && Parse(w).typeId == typeId
  {
  }

  /** Two zero bits behind the address, and the base of the bus added modulo 2^32. */
  lemma ModifyAddressValue(a: Word)
    ensures ModifyAddress(a) - 0x6400_0000 == a << 2
  {
  }

  /** The four bytes of a word, reversed. */
  lemma BswapBytes(w: Word)
    ensures var r := Bswap(w);
      && r & 0xff == w >> 24 && (r >> 8) & 0xff == (w >> 16) & 0xff
      && (r >> 16) & 0xff == (w >> 8) & 0xff && r >> 24 == w & 0xff
  {
  }
}
