/** `SocketBuffer` of log4cplus: a bounded byte array with a cursor (`socketbuffer.cxx`). */
module SocketBuffers {
  import opened Options

  type Byte = x: int | 0 <= x < 256

  const TWO32 := 0x1_0000_0000

  /** The four bytes of an unsigned integer, most significant first (`htonl`). */
  function IntBytes(v: int): (r: seq<Byte>)
    requires 0 <= v < TWO32
    ensures |r| == 4
  {
    [v / 0x100_0000, v / 0x1_0000 % 256, v / 256 % 256, v % 256]
  }

  function IntOf(b: seq<Byte>): (v: int)
    requires |b| == 4
    ensures 0 <= v < TWO32
  {
    b[0] as int * 0x100_0000 + b[1] as int * 0x1_0000 + b[2] as int * 256 + b[3]
  }

  /** The most significant byte comes first. */
  lemma IntBytesValue(v: int)
    requires 0 <= v < TWO32
    ensures var b := IntBytes(v);
      v == 0x100_0000 * (b[0] as int) + 0x1_0000 * (b[1] as int) + 0x100 * (b[2] as int) + b[3] as int
  {
    IntRoundTrip(v);
  }

  lemma IntRoundTrip(v: int)
    requires 0 <= v < TWO32
    ensures IntOf(IntBytes(v)) == v
  {
    var a := v / 256;
    var b := a / 256;
    var c := b / 256;
    Quotients(v, a, b, c);
    assert v == 256 * a + v % 256 && a == 256 * b + a % 256 && b == 256 * c + b % 256;
  }

  lemma Quotients(v: int, a: int, b: int, c: int)
    requires 0 <= v < TWO32 && a == v / 256 && b == a / 256 && c == b / 256
    ensures v / 0x1_0000 == b && v / 0x100_0000 == c && 0 <= c < 256
  {
    assert 0x1_0000 * b <= v < 0x1_0000 * (b + 1);
    assert 0x100_0000 * c <= v < 0x100_0000 * (c + 1);
  }

  /** Conversion of a C `int` to `unsigned` and back. */
  function ToUnsigned(i: int): (u: int)
    ensures 0 <= u < TWO32
  {
    i % TWO32
  }

  function ToSigned(u: int): int {
    if u < 0x8000_0000 then u else u - TWO32
  }

  /** A signed value survives the trip exactly if it is an `int`. */
  lemma SignedRoundTrip(i: int)
    ensures ToSigned(ToUnsigned(i)) == i <==> -0x8000_0000 <= i < 0x8000_0000
  {
  }

  // ----- what the readers return, as functions of the bytes and the cursor

  datatype Got<T> = Got(value: T, pos: nat)

  function ReadByteAt(b: seq<Byte>, pos: nat): Got<Byte> {
    if pos + 1 > |b| then Got(0, pos) else Got(b[pos], pos + 1)
  }

  function ReadShortAt(b: seq<Byte>, pos: nat): Got<int> {
    if pos + 2 > |b| then Got(0, pos) else Got(b[pos] as int * 256 + b[pos + 1], pos + 2)
  }

  function ReadIntAt(b: seq<Byte>, pos: nat): Got<int> {
    if pos + 4 > |b| then Got(0, pos) else Got(IntOf(b[pos..pos + 4]), pos + 4)
  }

  /** `n` two-byte characters, those above 255 replaced by a blank. */
  function WideAt(b: seq<Byte>, pos: nat, n: nat): Got<seq<Byte>> {
    if n == 0 then Got([], pos)
    else
      var before := WideAt(b, pos, n - 1);
      var c := ReadShortAt(b, before.pos);
      Got(before.value + [if 0 <= c.value < 256 then c.value else 32], c.pos)
  }

  /** A length and that many characters; a length running over the end is cut short. With nothing left
      after the length the cut underflows and no string is delivered. */
  function ReadStringAt(b: seq<Byte>, pos: nat, sizeOfChar: Byte): Option<Got<seq<Byte>>> {
    var len := ReadIntAt(b, pos);
    var p := len.pos;
    if len.value <= 0 || p > |b| || (sizeOfChar != 1 && sizeOfChar != 2) then Some(Got([], p))
    else if p + len.value * sizeOfChar <= |b| then Some(CharsAt(b, p, len.value, sizeOfChar))
    else if p == |b| then None
    else Some(CharsAt(b, p, (|b| - 1 - p) / sizeOfChar, sizeOfChar))
  }

  /** Reading a string throws exactly if its length is not 0 and nothing is left behind it. */
  lemma ReadStringThrowsIff(b: seq<Byte>, pos: nat, sizeOfChar: Byte)
    ensures ReadStringAt(b, pos, sizeOfChar) == None <==>
            pos + 4 == |b| && IntOf(b[pos..pos + 4]) > 0 && (sizeOfChar == 1 || sizeOfChar == 2)
  {
    hide IntOf;
  }

  function CharsAt(b: seq<Byte>, p: nat, n: nat, sizeOfChar: Byte): Got<seq<Byte>>
    requires sizeOfChar == 1 ==> p + n <= |b|
  {
    if sizeOfChar == 1 then Got(b[p..p + n], p + n) else WideAt(b, p, n)
  }

  class SocketBuffer {
    const buffer: array<Byte>
    var size: nat
    var pos: nat

    ghost predicate Valid()
      reads this
    {
      pos <= buffer.Length && size <= buffer.Length
    }

    /** Everything before the cursor. */
    ghost function Written(): seq<Byte>
      requires Valid()
      reads this, buffer
    {
      buffer[..pos]
    }

    constructor (maxsize: nat)
      ensures Valid() && fresh(buffer) && buffer.Length == maxsize && pos == 0 && size == 0
    {
      buffer := new Byte[maxsize];
      size, pos := 0, 0;
    }

    // ----- writing

    /** `memcpy` to the cursor, which moves on. */
    method Put(bytes: seq<Byte>)
      requires Valid() && pos + |bytes| <= buffer.Length
      modifies this, buffer
      ensures Valid() && size == pos && Written() == old(Written()) + bytes
    {
      forall i | 0 <= i < |bytes| {
        buffer[pos + i] := bytes[i];
      }
      pos := pos + |bytes|;
      size := pos;
    }

    method AppendByte(val: Byte)
      requires Valid()
      modifies this, buffer
      ensures Valid() && Written() == Fitted(old(Written()), [val], buffer.Length)
      ensures size == pos || (size == old(size) && pos == old(pos))
    {
      if pos + 1 > buffer.Length {
        return;
      }
      Put([val]);
    }

    method AppendInt(val: int)
      requires Valid() && 0 <= val < TWO32
      modifies this, buffer
      ensures Valid() && Written() == Fitted(old(Written()), IntBytes(val), buffer.Length)
      ensures size == pos || (size == old(size) && pos == old(pos))
    {
      if pos + 4 > buffer.Length {
        return;
      }
      Put(IntBytes(val));
    }

    /** A string that does not fit is left out altogether, its length included. */
    method AppendString(str: seq<Byte>)
      requires Valid() && |str| < TWO32
      modifies this, buffer
      ensures Valid() && Written() == Fitted(old(Written()), IntBytes(|str|) + str, buffer.Length)
      ensures size == pos || (size == old(size) && pos == old(pos))
    {
      if pos + 4 + |str| > buffer.Length {
        return;
      }
      AppendInt(|str|);
      Put(str);
    }

    method AppendBuffer(buf: SocketBuffer)
      requires Valid() && buf.Valid() && buf != this && buf.buffer != buffer
      modifies this, buffer
      ensures Valid() && Written() == Fitted(old(Written()), buf.buffer[..buf.size], buffer.Length)
      ensures size == pos || (size == old(size) && pos == old(pos))
    {
      if pos + buf.size > buffer.Length {
        return;
      }
      Put(buf.buffer[..buf.size]);
    }

    // ----- reading

    method ReadByte() returns (ret: Byte)
      requires Valid()
      modifies this`pos
      ensures Valid() && Got(ret, pos) == ReadByteAt(buffer[..], old(pos))
    {
      if pos >= buffer.Length || pos + 1 > buffer.Length {
        return 0;
      }
      ret := buffer[pos];
      pos := pos + 1;
    }

    method ReadShort() returns (ret: int)
      requires Valid()
      modifies this`pos
      ensures Valid() && Got(ret, pos) == ReadShortAt(buffer[..], old(pos))
    {
      if pos >= buffer.Length || pos + 2 > buffer.Length {
        return 0;
      }
      ret := buffer[pos] as int * 256 + buffer[pos + 1];
      pos := pos + 2;
    }

    method ReadInt() returns (ret: int)
      requires Valid()
      modifies this`pos
      ensures Valid() && Got(ret, pos) == ReadIntAt(buffer[..], old(pos))
    {
      if pos >= buffer.Length || pos + 4 > buffer.Length {
        return 0;
      }
      ret := IntOf(buffer[pos..pos + 4]);
      assert buffer[pos..pos + 4] == buffer[..][pos..pos + 4];
      pos := pos + 4;
    }

    /** The character loop for two-byte characters. */
    method ReadWide(n: nat) returns (s: seq<Byte>)
      requires Valid()
      modifies this`pos
      ensures Valid() && Got(s, pos) == WideAt(buffer[..], old(pos), n)
    {
      s := [];
      for i := 0 to n
        invariant Valid() && Got(s, pos) == WideAt(buffer[..], old(pos), i)
      {
        var tmp := ReadShort();
        s := s + [if 0 <= tmp < 256 then tmp else 32];
      }
    }

    method ReadString(sizeOfChar: Byte) returns (ret: Option<seq<Byte>>)
      requires Valid()
      modifies this`pos
      ensures Valid()
      ensures match ReadStringAt(buffer[..], old(pos), sizeOfChar)
              case None => ret == None
              case Some(g) => ret == Some(g.value) && pos == g.pos
    {
      var strlen := ReadInt();
      if strlen == 0 {
        return Some([]);
      }
      if sizeOfChar != 1 && sizeOfChar != 2 {
        return Some([]);
      }
      var bufferLen := strlen * sizeOfChar;
      if pos + bufferLen > buffer.Length {
        if pos == buffer.Length {
          // (maxsize - 1) - pos wraps around: the constructor of std::string throws, or a loop of 2^63 turns begins
          return None;
        }
        bufferLen := (buffer.Length - 1) - pos;
        strlen := bufferLen / sizeOfChar;
      }
      if sizeOfChar == 1 {
        assert buffer[pos..pos + strlen] == buffer[..][pos..pos + strlen];
        ret := Some(buffer[pos..pos + strlen]);
        pos := pos + strlen;
      } else {
        var s := ReadWide(strlen);
        ret := Some(s);
      }
    }
  }

  /** `more` put behind `c`, unless that exceeds the limit. */
  function Fitted(c: seq<Byte>, more: seq<Byte>, max: nat): seq<Byte> {
    if |c| + |more| <= max then c + more else c
  }
}
