/** `byte` and the loop of `dumpit` (`mdb_dump.c`), `readline` and the reading loop (`mdb_load.c`). */
module DumpLoad {
  import opened Options
  import opened HexText

  // ----- dumping

  /** `byte`: blank, two digits a byte, newline. */
  method EmitLine(v: seq<Byte>) returns (out: seq<Byte>)
    ensures out == HexLine(v)
  {
    hide High, Low;
    out := [BLANK];
    for i := 0 to |v|
      invariant out + Hex(v[i..]) == [BLANK] + Hex(v)
    {
      var c := v[i];
      assert v[i..][1..] == v[i + 1..];
      assert out + ([High(c), Low(c)] + Hex(v[i + 1..])) == out + [High(c)] + [Low(c)] + Hex(v[i + 1..]);
      out := out + [High(c)];
      out := out + [Low(c)];
    }
    assert out + [] == out;
    out := out + [NEWLINE];
  }

  /** The cursor loop of `dumpit`. */
  method DumpIt(ps: seq<Pair>) returns (out: seq<Byte>)
    ensures out == Dump(ps)
  {
    hide HexLine;
    out := [];
    for i := 0 to |ps|
      invariant out + Dump(ps[i..]) == Dump(ps)
    {
      var key := EmitLine(ps[i].key);
      var data := EmitLine(ps[i].data);
      assert ps[i..][1..] == ps[i + 1..];
      assert out + (key + data + Dump(ps[i + 1..])) == out + key + data + Dump(ps[i + 1..]);
      out := out + key + data;
    }
    out := out + DATA_END;
  }

  // ----- standard input

  /** How many characters `fgets` takes: up to `n`, and none beyond the first newline. */
  function Taken(s: seq<Byte>, n: nat): (k: nat)
    ensures k <= n && k <= |s| && (0 < n && s != [] ==> 0 < k)
    ensures NEWLINE !in s[..if k == 0 then 0 else k - 1]
    ensures k < n && k < |s| ==> 0 < k && s[k - 1] == NEWLINE
  {
    if n == 0 || s == [] then 0
    else if s[0] == NEWLINE then 1
    else
      var k := Taken(s[1..], n - 1);
      assert k > 0 ==> s[..k] == [s[0]] + s[1..][..k - 1];
      k + 1
  }

  class Input {
    var rest: seq<Byte>

    constructor (text: seq<Byte>)
      ensures rest == text
    {
      rest := text;
    }

    /** `fgetc` */
    method Getc() returns (c: Byte)
      requires rest != []
      modifies this
      ensures c == old(rest)[0] && rest == old(rest)[1..]
    {
      c := rest[0];
      rest := rest[1..];
    }

    /** `fgets (buf + at, size, stdin)`; false for a null result. */
    method Gets(buf: array<Byte>, at: nat, size: nat) returns (ok: bool)
      requires 2 <= size && at + size <= buf.Length
      modifies this, buf
      ensures ok <==> old(rest) != []
      ensures var k := Taken(old(rest), size - 1);
        && rest == old(rest)[k..]
        && buf[..at] == old(buf[..at]) && buf[at..at + k] == old(rest)[..k] && (ok ==> buf[at + k] == 0)
    {
      ok := rest != [];
      var k := Taken(rest, size - 1);
      forall i | 0 <= i < k {
        buf[at + i] := rest[i];
      }
      if ok {
        buf[at + k] := 0;
      }
      rest := rest[k..];
    }
  }

  /** `strlen (buf + at)` */
  method Strlen(buf: array<Byte>, at: nat, ghost k: nat) returns (len: nat)
    requires at + k < buf.Length && buf[at + k] == 0 && 0 !in buf[at..at + k]
    ensures len == k
  {
    assert forall p :: at <= p < at + k ==> buf[p] in buf[at..at + k];
    len := 0;
    while buf[at + len] != 0
      invariant len <= k
      decreases k - len
    {
      len := len + 1;
    }
  }

  /** `MDB_val` with its allocation. */
  class Val {
    var data: array<Byte>

    constructor (size: nat)
      ensures data.Length == size && fresh(data)
    {
      data := new Byte[size];
    }

    /** `realloc` to twice the size. */
    method Double(ghost used: nat)
      requires used <= data.Length
      modifies this
      ensures fresh(data) && data.Length == 2 * old(data.Length) && data[..used] == old(data[..used])
    {
      var bigger := new Byte[2 * data.Length];
      forall i | 0 <= i < data.Length {
        bigger[i] := data[i];
      }
      data := bigger;
    }
  }

  /** The line is in the buffer: `l2` of its characters so far, then the terminator. */
  ghost predicate Gathering(buf: array<Byte>, body: seq<Byte>, l2: nat, rest: seq<Byte>)
    reads buf
  {
    && 0 < l2 < buf.Length && l2 <= |body| && rest == body[l2..]
    && buf[..l2] == body[..l2]
    && NEWLINE !in body[..l2 - 1]
    && (l2 < buf.Length - 1 ==> rest == [] || body[l2 - 1] == NEWLINE)
  }

  /** A line in the buffer is the first one of the text; without a newline there is none. */
  lemma Gathered(buf: array<Byte>, body: seq<Byte>, l2: nat, rest: seq<Byte>)
    requires Gathering(buf, body, l2, rest)
    ensures buf[l2 - 1] == NEWLINE ==> LineEnd(body) == l2
    ensures buf[l2 - 1] != NEWLINE && rest == [] ==> LineEnd(body) == 0
  {
    assert buf[l2 - 1] == buf[..l2][l2 - 1] == body[l2 - 1];
    var n := LineEnd(body);
    assert forall i :: 0 <= i < l2 - 1 ==> body[i] == body[..l2 - 1][i] != NEWLINE;
    assert buf[l2 - 1] == NEWLINE ==> NEWLINE in body;
    if 0 < n {
      assert forall i :: 0 <= i < n - 1 ==> body[i] == body[..n - 1][i] != NEWLINE;
    }
    assert rest == [] ==> l2 == |body|;
  }

  /** `fgets` into a fresh buffer starts the gathering. */
  method FirstChunk(input: Input, buf: Val) returns (ok: bool, len: nat)
    requires 2 <= buf.data.Length && 0 !in input.rest
    modifies input, buf.data
    ensures ok <==> old(input.rest) != []
    ensures ok ==> Gathering(buf.data, old(input.rest), len, input.rest)
  {
    ghost var body := input.rest;
    ok := input.Gets(buf.data, 0, buf.data.Length);
    len := 0;
    if ok {
      ghost var k := Taken(body, buf.data.Length - 1);
      assert buf.data[0..k] == body[..k];
      len := Strlen(buf.data, 0, k);
      assert buf.data[..len] == buf.data[0..k];
    }
  }

  /** One growth step: double the buffer and read on behind what is there, `size + 1` characters at most. */
  method NextChunk(input: Input, buf: Val, l2: nat, ghost body: seq<Byte>) returns (ok: bool, len: nat)
    requires Gathering(buf.data, body, l2, input.rest) && buf.data[l2 - 1] != NEWLINE && 0 !in body
    modifies input, buf, buf.data
    ensures buf.data == old(buf.data) || fresh(buf.data)
    ensures ok <==> old(input.rest) != []
    ensures ok ==> Gathering(buf.data, body, l2 + len, input.rest) && |input.rest| < |old(input.rest)|
    ensures old(buf.data.Length) <= buf.data.Length
  {
    hide Gathering, Taken;
    var size := buf.data.Length;
    ghost var rest := input.rest;
    NeedsMore(buf.data, body, l2, rest);
    buf.Double(l2);
    ok := input.Gets(buf.data, l2, size + 1);
    len := 0;
    if ok {
      assert l2 == size - 1;
      ghost var k := Taken(rest, size);
      assert 0 !in rest[..k];
      assert buf.data[l2..l2 + k] == rest[..k];
      len := Strlen(buf.data, l2, k);
      assert rest[k..] == body[l2 + k..];
      ChunkJoins(buf.data, body, l2, k);
    }
  }

  /** A line that has not ended fills the buffer, unless the text ends. */
  lemma NeedsMore(buf: array<Byte>, body: seq<Byte>, l2: nat, rest: seq<Byte>)
    requires Gathering(buf, body, l2, rest) && buf[l2 - 1] != NEWLINE
    ensures 0 < l2 < buf.Length && l2 <= |body| && rest == body[l2..] && buf[..l2] == body[..l2]
    ensures body[l2 - 1] != NEWLINE && NEWLINE !in body[..l2 - 1]
    ensures rest != [] ==> l2 == buf.Length - 1
  {
    assert body[l2 - 1] == body[..l2][l2 - 1] == buf[..l2][l2 - 1];
  }

  lemma ChunkJoins(buf: array<Byte>, body: seq<Byte>, l2: nat, k: nat)
    requires 0 < l2 && l2 + 1 < buf.Length && buf.Length == 2 * (l2 + 1) && l2 < |body|
    requires k == Taken(body[l2..], l2 + 1) && l2 + k < buf.Length
    requires buf[..l2] == body[..l2] && buf[l2..l2 + k] == body[l2..][..k]
    requires NEWLINE !in body[..l2 - 1] && body[l2 - 1] != NEWLINE
    ensures Gathering(buf, body, l2 + k, body[l2 + k..])
  {
    var rest := body[l2..];
    assert buf[..l2 + k] == buf[..l2] + buf[l2..l2 + k];
    assert body[..l2 + k - 1] == body[..l2 - 1] + [body[l2 - 1]] + rest[..k - 1];
  }

  /** The line after the blank: `fgets`, and more of it as long as the buffer is too short. `bad` tells a
      line without an end from the end of the text. */
  method GatherLine(input: Input, buf: Val) returns (ok: bool, bad: bool, l2: nat)
    requires 2 <= buf.data.Length && 0 !in input.rest
    modifies input, buf, buf.data
    ensures buf.data == old(buf.data) || fresh(buf.data)
    ensures old(buf.data.Length) <= buf.data.Length
    ensures var body, n := old(input.rest), LineEnd(old(input.rest));
      && (ok <==> 0 < n) && (bad <==> n == 0 && body != [])
      && (ok ==> l2 == n < buf.data.Length && buf.data[..n] == body[..n] && input.rest == body[n..])
  {
    hide Gathering, LineEnd;
    ghost var body := input.rest;
    var len;
    bad := false;
    ok, l2 := FirstChunk(input, buf);
    if !ok {
      NoLine();
      return;
    }
    GatheringBounds(buf.data, body, l2, input.rest);
    while buf.data[l2 - 1] != NEWLINE
      invariant Gathering(buf.data, body, l2, input.rest) && 0 < l2 < buf.data.Length
      invariant buf.data == old(buf.data) || fresh(buf.data)
      invariant old(buf.data.Length) <= buf.data.Length
      decreases |input.rest|
    {
      Gathered(buf.data, body, l2, input.rest);
      ok, len := NextChunk(input, buf, l2, body);
      if !ok {
        return false, true, 0;
      }
      l2 := l2 + len;
      GatheringBounds(buf.data, body, l2, input.rest);
    }
    Gathered(buf.data, body, l2, input.rest);
    GatheringBounds(buf.data, body, l2, input.rest);
  }

  lemma NoLine()
    ensures LineEnd([]) == 0
  {
  }

  lemma GatheringBounds(buf: array<Byte>, body: seq<Byte>, l2: nat, rest: seq<Byte>)
    requires Gathering(buf, body, l2, rest)
    ensures 0 < l2 < buf.Length && l2 <= |body| && rest == body[l2..] && buf[..l2] == body[..l2]
  {
  }

  lemma DecodedStep(s: seq<Byte>, c2: nat)
    requires |s| % 2 == 0 && c2 % 2 == 0 && c2 < |s|
    ensures c2 + 1 < |s| && Decoded(s[c2..]) == [Unhex(s[c2], s[c2 + 1])] + Decoded(s[c2 + 2..])
  {
    assert s[c2..][2..] == s[c2 + 2..];
  }

  /** The in-place decoding: the write pointer never overtakes the digits still to be read. */
  method DecodeInPlace(data: array<Byte>, len: nat) returns (ok: bool)
    requires len <= data.Length && len % 2 == 0
    modifies data
    ensures ok <==> AllDigits(old(data[..len]))
    ensures ok ==> data[..len / 2] == Decoded(old(data[..len]))
  {
    hide Unhex, IsDigit, Decoded;
    ghost var s := data[..len];
    ghost var done: seq<Byte> := [];
    var c1, c2 := 0, 0;
    assert s[0..] == s;
    while c2 < len
      invariant c2 == 2 * c1 <= len
      invariant forall p {:trigger data[p]} :: c2 <= p < len ==> data[p] == s[p]
      invariant forall p :: 0 <= p < c2 ==> IsDigit(s[p])
      invariant data[..c1] == done && done + Decoded(s[c2..]) == Decoded(s)
    {
      if !IsDigit(data[c2]) || !IsDigit(data[c2 + 1]) {
        return false;
      }
      DecodedStep(s, c2);
      ghost var x := Unhex(s[c2], s[c2 + 1]);
      assert done + ([x] + Decoded(s[c2 + 2..])) == done + [x] + Decoded(s[c2 + 2..]);
      data[c1] := Unhex(data[c2], data[c2 + 1]);
      done := done + [x];
      c1 := c1 + 1;
      c2 := c2 + 2;
    }
    Exhausted(s, c2, done);
    ok := true;
  }

  lemma Exhausted(s: seq<Byte>, c2: nat, done: seq<Byte>)
    requires c2 == |s| && |s| % 2 == 0 && done + Decoded(s[c2..]) == Decoded(s)
    ensures done == Decoded(s)
  {
  }

  /** `strncmp (data, prefix, |prefix|) == 0` */
  method Matches(data: array<Byte>, prefix: seq<Byte>) returns (same: bool)
    requires |prefix| <= data.Length
    ensures same <==> data[..|prefix|] == prefix
  {
    for i := 0 to |prefix|
      invariant forall j :: 0 <= j < i ==> data[j] == prefix[j]
    {
      if data[i] != prefix[i] {
        assert data[..|prefix|][i] != prefix[i];
        return false;
      }
    }
    same := true;
  }

  /** The rest of a line that does not start with a blank: the end of the data, or an error. */
  method EndLine(input: Input, buf: Val, c: Byte) returns (o: Outcome)
    requires 8 <= buf.data.Length && 0 !in input.rest
    modifies input, buf.data
    ensures o == if c == DATA_END[0] && ATA_END <= old(input.rest) then EndOfData else Broken
  {
    ghost var body := input.rest;
    var ok := input.Gets(buf.data, 0, buf.data.Length);
    if !ok {
      return Broken;
    }
    var end := Matches(buf.data, ATA_END);
    PrefixRead(buf.data, body);
    o := if c == DATA_END[0] && end then EndOfData else Broken;
  }

  lemma PrefixRead(buf: array<Byte>, body: seq<Byte>)
    requires 8 <= buf.Length && body != [] && 0 !in body
    requires var k := Taken(body, buf.Length - 1); buf[0..k] == body[..k] && buf[k] == 0
    ensures buf[..7] == ATA_END <==> ATA_END <= body
  {
    var k := Taken(body, buf.Length - 1);
    assert ATA_END == [65, 84, 65, 61, 69, 78, 68];
    if k < 7 {
      assert buf[..7][k] == 0 != ATA_END[k];
      if |body| >= 7 {
        assert body[k - 1] == NEWLINE != ATA_END[k - 1];
      }
    } else {
      assert buf[..7] == buf[0..k][..7] == body[..7];
    }
  }

  /** `readline`, for the bytevalue format with headers: the line in the buffer is decoded in place,
      whatever the size of the buffer, and `data` is that buffer, not a copy. */
  method ReadLine(input: Input, buf: Val) returns (failure: Option<Outcome>, data: array<Byte>, size: nat)
    requires 8 <= buf.data.Length && 0 !in input.rest
    modifies input, buf, buf.data
    ensures buf.data == old(buf.data) || fresh(buf.data)
    ensures 8 <= buf.data.Length && data == buf.data && size <= data.Length
    ensures match ReadSpec(old(input.rest))
            case Line(bytes) =>
              failure == None && data[..size] == bytes &&
              old(input.rest) != [] && input.rest == Behind(old(input.rest))
            case other => failure == Some(other)
  {
    hide LineEnd, IsDigit, Decoded;
    data, size := buf.data, 0;
    if input.rest == [] {
      return Some(AtEof), data, size;
    }
    ghost var s := input.rest;
    var c := input.Getc();
    if c != BLANK {
      var o := EndLine(input, buf, c);
      return Some(o), data, size;
    }
    var ok, bad, l2 := GatherLine(input, buf);
    data := buf.data;
    if !ok {
      return Some(if bad then Broken else AtEof), data, size;
    }
    var len := l2 - 1;
    data[len] := 0;
    assert data[..len] == s[1..][..l2][..len] == s[1..l2];
    if len % 2 == 1 {
      return Some(Broken), data, size;
    }
    ok := DecodeInPlace(data, len);
    if !ok {
      return Some(Broken), data, size;
    }
    return None, data, len / 2;
  }

  /** The reading loop of `mdb_load`; what it stores is collected in order. The key is still in its line
      buffer while the data is read into the other one. */
  method LoadAll(input: Input, kbuf: Val, dbuf: Val) returns (r: Loaded)
    requires 8 <= kbuf.data.Length && 8 <= dbuf.data.Length && 0 !in input.rest
    requires kbuf != dbuf && kbuf.data != dbuf.data
    modifies input, kbuf, kbuf.data, dbuf, dbuf.data
    ensures r == Load(old(input.rest))
  {
    var pairs: seq<Pair> := [];
    ghost var text := input.rest;
    assert [] + Load(text).pairs == Load(text).pairs;
    hide ReadSpec, LineEnd, Load, Goes;
    while true
      invariant 8 <= kbuf.data.Length && 8 <= dbuf.data.Length && 0 !in input.rest
      invariant kbuf.data != dbuf.data
      invariant (kbuf.data == old(kbuf.data) || fresh(kbuf.data)) && (dbuf.data == old(dbuf.data) || fresh(dbuf.data))
      invariant Goes(text, pairs, input.rest)
      decreases |input.rest|
    {
      LoadStep(text, pairs, input.rest);
      var failure, key, keySize := ReadLine(input, kbuf);
      if failure.Some? {
        return Loaded(pairs, failure.value == EndOfData);
      }
      var data, dataSize;
      failure, data, dataSize := ReadLine(input, dbuf);
      if failure.Some? {
        return Loaded(pairs, false);
      }
      pairs := pairs + [Pair(key[..keySize], data[..dataSize])];
    }
  }

  /** Loading `text` comes down to `pairs`, then what loading `rest` yields. */
  ghost predicate Goes(text: seq<Byte>, pairs: seq<Pair>, rest: seq<Byte>) {
    Load(text) == Loaded(pairs + Load(rest).pairs, Load(rest).complete)
  }

  lemma LoadStep(text: seq<Byte>, pairs: seq<Pair>, rest: seq<Byte>)
    requires Goes(text, pairs, rest)
    ensures var key := ReadSpec(rest);
      if !key.Line? then Load(text) == Loaded(pairs, key == EndOfData)
      else
        var data := ReadSpec(Behind(rest));
        if !data.Line? then Load(text) == Loaded(pairs, false)
        else Goes(text, pairs + [Pair(key.bytes, data.bytes)], Behind(Behind(rest)))
  {
    hide ReadSpec, LineEnd, Behind;
    var key := ReadSpec(rest);
    if key.Line? {
      var data := ReadSpec(Behind(rest));
      if data.Line? {
        var p, more := Pair(key.bytes, data.bytes), Load(Behind(Behind(rest)));
        assert pairs + ([p] + more.pairs) == pairs + [p] + more.pairs;
      }
    }
    assert pairs + [] == pairs;
  }

  /** Dump, then load, with buffers of any size that holds the end mark: every pair comes back. */
  method DumpThenLoad(ps: seq<Pair>, ksize: nat, dsize: nat) returns (r: Loaded)
    requires 8 <= ksize && 8 <= dsize
    ensures r == Loaded(ps, true)
  {
    hide Dump, Load;
    var text := DumpIt(ps);
    DumpHasNoZero(ps);
    LoadDump(ps);
    var input := new Input(text);
    var kbuf := new Val(ksize);
    var dbuf := new Val(dsize);
    r := LoadAll(input, kbuf, dbuf);
  }
}
