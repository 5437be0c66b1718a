/** The bytevalue text format of `mdb_dump` and `mdb_load`: digits, lines and whole dumps. */
module HexText {
  type Byte = bv8

  const NEWLINE: Byte := 10
  const BLANK: Byte := 32

  /** `hexc[n]` */
  function Digit(n: Byte): Byte
    requires n <= 15
  {
    if n < 10 then 48 + n else 87 + n
  }

  /** `isxdigit` */
  predicate IsDigit(c: Byte) {
    (48 <= c <= 57) || (65 <= c <= 70) || (97 <= c <= 102)
  }

  /** The value of one digit as `unhex` computes it. */
  function Value(c: Byte): Byte {
    var x := c & 0x4f;
    if x & 0x40 != 0 then x - 55 else x
  }

  /** `unhex` */
  function Unhex(c: Byte, d: Byte): Byte {
    (Value(c) << 4) | Value(d)
  }

  /** The two characters `hex` prints. */
  function High(b: Byte): Byte {
    Digit(b >> 4)
  }

  function Low(b: Byte): Byte {
    Digit(b & 0xf)
  }

  /** What `hex` prints for a byte consists of digits, and `unhex` gives the byte back. */
  lemma UnhexDigits(b: Byte)
    ensures IsDigit(High(b)) && IsDigit(Low(b)) && Unhex(High(b), Low(b)) == b
  {
  }

  /** The digits that are printed. */
  const LOWER: string := "0123456789abcdef"

  /** The digits that are read besides. */
  const UPPER: string := "0123456789ABCDEF"

  lemma DigitIs(n: Byte)
    requires n <= 15
    ensures Digit(n) as int == LOWER[n] as int
  {
  }

  /** A byte is printed as the two digits of its value. */
  lemma HexOf(b: Byte)
    ensures High(b) as int == LOWER[b as int / 16] as int && Low(b) as int == LOWER[b as int % 16] as int
  {
    Nibbles(b);
    DigitIs(b >> 4);
    DigitIs(b & 0xf);
    hide Digit;
  }

  lemma Nibbles(b: Byte)
    ensures (b >> 4) as int == b as int / 16 && (b & 0xf) as int == b as int % 16
  {
  }

  lemma DigitCodes(i: nat)
    requires i < 16
    ensures LOWER[i] as int == (if i < 10 then 48 + i else 87 + i)
    ensures UPPER[i] as int == (if i < 10 then 48 + i else 55 + i)
  {
  }

  /** The characters that are read as digits. */
  lemma IsDigitIff(c: Byte)
    ensures IsDigit(c) <==> exists i :: 0 <= i < 16 && (c as int == LOWER[i] as int || c as int == UPPER[i] as int)
  {
    if IsDigit(c) {
      DigitValue(c);
      var i := Value(c) as int;
      assert c as int == LOWER[i] as int || c as int == UPPER[i] as int;
    }
    if i :| 0 <= i < 16 && (c as int == LOWER[i] as int || c as int == UPPER[i] as int) {
      DigitCodes(i);
    }
  }

  /** The value of a digit is its position among them. */
  lemma DigitValue(c: Byte)
    requires IsDigit(c)
    ensures var i := Value(c) as int; i < 16 && (c as int == LOWER[i] as int || c as int == UPPER[i] as int)
  {
    DigitCodes(if c < 58 then c as int - 48 else if c < 71 then c as int - 55 else c as int - 87);
  }

  /** Two digits are read as the byte they are the hexadecimal notation of. */
  lemma UnhexValue(c: Byte, d: Byte)
    requires IsDigit(c) && IsDigit(d)
    ensures Unhex(c, d) as int == 16 * (Value(c) as int) + Value(d) as int
  {
  }

  /** Digits are neither line ends nor string ends. */
  lemma DigitsAreInk(c: Byte)
    ensures IsDigit(c) ==> c != NEWLINE && c != 0 && c != BLANK
  {
  }

  // ----- texts

  function Hex(v: seq<Byte>): seq<Byte> {
    if v == [] then [] else [High(v[0]), Low(v[0])] + Hex(v[1..])
  }

  function HexLine(v: seq<Byte>): seq<Byte> {
    [BLANK] + Hex(v) + [NEWLINE]
  }

  /** `DATA=END` and a newline. */
  const DATA_END: seq<Byte> := [68, 65, 84, 65, 61, 69, 78, 68, 10]

  const ATA_END: seq<Byte> := [65, 84, 65, 61, 69, 78, 68]

  datatype Pair = Pair(key: seq<Byte>, data: seq<Byte>)

  function Dump(ps: seq<Pair>): seq<Byte> {
    if ps == [] then DATA_END else HexLine(ps[0].key) + HexLine(ps[0].data) + Dump(ps[1..])
  }

  // ----- reading, as a function of the text

  predicate AllDigits(s: seq<Byte>) {
    forall i :: 0 <= i < |s| ==> IsDigit(s[i])
  }

  /** The bytes that pairs of digits stand for. */
  function Decoded(s: seq<Byte>): seq<Byte>
    requires |s| % 2 == 0
  {
    if s == [] then [] else [Unhex(s[0], s[1])] + Decoded(s[2..])
  }

  /** The length of the first line of `s`, its newline included; none if there is no newline. */
  function LineEnd(s: seq<Byte>): (n: nat)
    ensures n <= |s| && (n == 0 <==> NEWLINE !in s)
    ensures 0 < n ==> s[n - 1] == NEWLINE && NEWLINE !in s[..n - 1]
  {
    if s == [] then 0
    else if s[0] == NEWLINE then 1
    else
      var n := LineEnd(s[1..]);
      if n == 0 then 0
      else
        assert s[..n] == [s[0]] + s[1..][..n - 1];
        n + 1
  }

  datatype Outcome = Line(bytes: seq<Byte>) | EndOfData | Broken | AtEof

  /** What `readline` reports for the text still to come. */
  function ReadSpec(s: seq<Byte>): (r: Outcome)
    ensures r.Line? ==> s != []
  {
    if s == [] then AtEof
    else if s[0] != BLANK then
      if s[0] == DATA_END[0] && ATA_END <= s[1..] then EndOfData else Broken
    else if s[1..] == [] then AtEof
    else
      var n := LineEnd(s[1..]);
      if n == 0 || n % 2 == 0 || !AllDigits(s[1..n]) then Broken else Line(Decoded(s[1..n]))
  }

  // ----- round trip

  lemma {:induction false} DecodedHex(v: seq<Byte>)
    ensures |Hex(v)| == 2 * |v| && AllDigits(Hex(v)) && Decoded(Hex(v)) == v
  {
    hide High, Low, IsDigit, Unhex;
    if v != [] {
      UnhexDigits(v[0]);
      DecodedHex(v[1..]);
      var h := Hex(v);
      assert h[2..] == Hex(v[1..]) && h[0] == High(v[0]) && h[1] == Low(v[0]);
      assert forall i :: 2 <= i < |h| ==> h[i] == Hex(v[1..])[i - 2];
    }
  }

  lemma FirstLineEnd(line: seq<Byte>, rest: seq<Byte>)
    requires NEWLINE !in line
    ensures LineEnd(line + [NEWLINE] + rest) == |line| + 1
  {
    var s := line + [NEWLINE] + rest;
    assert s[|line|] == NEWLINE;
    var n := LineEnd(s);
    assert forall i :: 0 <= i < |line| ==> s[i] == line[i] != NEWLINE;
    assert forall i :: 0 <= i < n - 1 ==> s[i] == s[..n - 1][i] != NEWLINE;
  }

  /** A printed line is read back, whatever follows it. */
  lemma ReadHexLine(v: seq<Byte>, rest: seq<Byte>)
    ensures ReadSpec(HexLine(v) + rest) == Line(v)
    ensures LineEnd((HexLine(v) + rest)[1..]) == |HexLine(v)| - 1
  {
    hide High, Low, IsDigit, Unhex, Decoded;
    var s, h := HexLine(v) + rest, Hex(v);
    DecodedHex(v);
    forall c | c in h ensures c != NEWLINE {
      DigitsAreInk(c);
    }
    FirstLineEnd(h, rest);
    assert s[1..] == h + [NEWLINE] + rest;
    assert s[1..|h| + 1] == h;
  }

  /** What is behind the first line of `s`, its leading blank included. */
  function Behind(s: seq<Byte>): seq<Byte>
    requires s != []
  {
    s[1 + LineEnd(s[1..])..]
  }

  /** What loading a text yields: the pairs stored, and whether the end of the data was reached. */
  datatype Loaded = Loaded(pairs: seq<Pair>, complete: bool)

  function Load(s: seq<Byte>): Loaded
    decreases |s|
  {
    var key := ReadSpec(s);
    if !key.Line? then Loaded([], key == EndOfData)
    else
      var s1 := Behind(s);
      var data := ReadSpec(s1);
      if !data.Line? then Loaded([], false)
      else
        var more := Load(Behind(s1));
        Loaded([Pair(key.bytes, data.bytes)] + more.pairs, more.complete)
  }

  /** Loading a dump gives back every pair, in order. */
  lemma {:induction false} LoadDump(ps: seq<Pair>)
    ensures Load(Dump(ps)) == Loaded(ps, true)
  {
    hide ReadSpec, HexLine, LineEnd;
    if ps == [] {
      ReadEnd();
    } else {
      var p, rest := ps[0], Dump(ps[1..]);
      var s := HexLine(p.key) + (HexLine(p.data) + rest);
      assert Dump(ps) == s;
      ReadHexLine(p.key, HexLine(p.data) + rest);
      ReadHexLine(p.data, rest);
      HexLineLength(p.key);
      HexLineLength(p.data);
      assert Behind(s) == HexLine(p.data) + rest && Behind(Behind(s)) == rest;
      LoadDump(ps[1..]);
      assert [p] + ps[1..] == ps;
    }
  }

  lemma HexLineLength(v: seq<Byte>)
    ensures 2 <= |HexLine(v)|
  {
  }

  lemma ReadEnd()
    ensures ReadSpec(DATA_END) == EndOfData
  {
    assert DATA_END[1..] == ATA_END + [NEWLINE];
    assert DATA_END[1..][..7] == ATA_END;
  }

  /** A dump contains no string terminator. */
  lemma {:induction false} DumpHasNoZero(ps: seq<Pair>)
    ensures 0 !in Dump(ps)
  {
    hide Hex;
    if ps != [] {
      HexHasNoZero(ps[0].key);
      HexHasNoZero(ps[0].data);
      DumpHasNoZero(ps[1..]);
    }
  }

  lemma HexHasNoZero(v: seq<Byte>)
    ensures 0 !in Hex(v)
  {
    DecodedHex(v);
    forall c | c in Hex(v) ensures c != 0 {
      DigitsAreInk(c);
    }
  }

  // ----- by position

  lemma {:induction false} HexAt(v: seq<Byte>, i: nat)
    requires i < |v|
    ensures |Hex(v)| == 2 * |v| && Hex(v)[2 * i] == High(v[i]) && Hex(v)[2 * i + 1] == Low(v[i])
  {
    hide High, Low;
    DecodedHex(v);
    if i > 0 {
      HexAt(v[1..], i - 1);
    }
  }

  /** A line is a blank, the two digits of every byte, and a newline. */
  lemma HexLineLayout(v: seq<Byte>)
    ensures var t := HexLine(v);
      && |t| == 2 * |v| + 2 && t[0] as int == ' ' as int && t[|t| - 1] as int == '\n' as int
      && (forall i {:trigger v[i]} :: 0 <= i < |v| ==>
            && t[2 * i + 1] as int == LOWER[v[i] as int / 16] as int
            && t[2 * i + 2] as int == LOWER[v[i] as int % 16] as int)
  {
    hide Hex, High, Low;
    DecodedHex(v);
    forall i {:trigger v[i]} | 0 <= i < |v| ensures
      var t := HexLine(v);
      t[2 * i + 1] as int == LOWER[v[i] as int / 16] as int && t[2 * i + 2] as int == LOWER[v[i] as int % 16] as int
    {
      HexAt(v, i);
      HexOf(v[i]);
    }
  }

  /** The mark behind the data. */
  lemma DataEndText()
    ensures |DATA_END| == 9
    ensures forall i {:trigger DATA_END[i]} :: 0 <= i < 9 ==> DATA_END[i] as int == "DATA=END\n"[i] as int
  {
  }
}
