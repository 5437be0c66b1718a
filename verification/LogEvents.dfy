/** Log events on the wire: `convertToBuffer`, `readFromBuffer` and the framing of
    `SocketAppender::append` (`socketappender.cxx`). */
module LogEvents {
  import opened Options
  import opened SocketBuffers

  const MESSAGE_VERSION := 3
  const MAX_MESSAGE_SIZE := 8 * 1024

  type Text = seq<Byte>

  datatype LogEvent = LogEvent(logger: Text, level: int, ndc: Text, message: Text, thread: Text,
                               sec: int, usec: int, file: Text, line: int, function_: Text)

  /** Texts short enough for their length to be printed. */
  predicate Sized(ev: LogEvent, server: Text) {
    && |server| < TWO32 && |ev.logger| < TWO32 && |ev.ndc| < TWO32 && |ev.message| < TWO32
    && |ev.thread| < TWO32 && |ev.file| < TWO32 && |ev.function_| < TWO32
  }

  function Str(s: Text): (r: seq<Byte>)
    requires |s| < TWO32
  {
    IntBytes(|s|) + s
  }

  /** One field on the wire: a text or an unsigned integer. */
  datatype Value = TextV(text: Text) | IntV(number: int)

  predicate Printable(v: Value) {
    match v
    case TextV(s) => |s| < TWO32
    case IntV(u) => 0 <= u < TWO32
  }

  function Print(v: Value): seq<Byte>
    requires Printable(v)
  {
    match v
    case TextV(s) => Str(s)
    case IntV(u) => IntBytes(u)
  }

  /** The fields in the order they are sent; `KINDS` tells the texts from the integers. */
  function Values(ev: LogEvent, server: Text): seq<Value> {
    [TextV(server), TextV(ev.logger), IntV(ToUnsigned(ev.level)), TextV(ev.ndc), TextV(ev.message),
     TextV(ev.thread), IntV(ToUnsigned(ev.sec)), IntV(ToUnsigned(ev.usec)), TextV(ev.file),
     IntV(ToUnsigned(ev.line)), TextV(ev.function_)]
  }

  const KINDS := [true, true, false, true, true, true, false, false, true, false, true]

  /** Everything that is sent: version, character size and the printed values. */
  function Fields(ev: LogEvent, server: Text): seq<seq<Byte>>
    requires Sized(ev, server)
  {
    [[MESSAGE_VERSION], [1]] + PrintEach(Values(ev, server))
  }

  function PrintEach(vs: seq<Value>): (fs: seq<seq<Byte>>)
    requires forall v :: v in vs ==> Printable(v)
    ensures |fs| == |vs| && forall i :: 0 <= i < |vs| ==> fs[i] == Print(vs[i])
  {
    seq(|vs|, i requires 0 <= i < |vs| => Print(vs[i]))
  }

  function Concat(fs: seq<seq<Byte>>): seq<Byte> {
    if fs == [] then [] else fs[0] + Concat(fs[1..])
  }

  /** The encoding of an event. */
  function Encode(ev: LogEvent, server: Text): seq<Byte>
    requires Sized(ev, server)
  {
    Concat(Fields(ev, server))
  }

  /** Appending field after field, leaving out those that do not fit. */
  function AppendAll(c: seq<Byte>, fs: seq<seq<Byte>>, max: nat): seq<Byte> {
    if fs == [] then c else Fitted(AppendAll(c, fs[..|fs| - 1], max), fs[|fs| - 1], max)
  }

  lemma AppendNext(c: seq<Byte>, fs: seq<seq<Byte>>, max: nat, k: nat)
    requires k < |fs|
    ensures AppendAll(c, fs[..k + 1], max) == Fitted(AppendAll(c, fs[..k], max), fs[k], max)
  {
    assert fs[..k + 1][..k] == fs[..k];
  }

  lemma {:induction false} ConcatLast(fs: seq<seq<Byte>>)
    requires fs != []
    ensures Concat(fs) == Concat(fs[..|fs| - 1]) + fs[|fs| - 1]
  {
    if |fs| > 1 {
      ConcatLast(fs[1..]);
      assert fs[1..][..|fs| - 2] == fs[1..|fs| - 1] == fs[..|fs| - 1][1..];
    }
  }

  /** The buffer ends up with the whole encoding exactly if the encoding fits. */
  lemma {:induction false} AppendAllIff(fs: seq<seq<Byte>>, max: nat)
    requires forall i :: 0 <= i < |fs| ==> fs[i] != []
    ensures |AppendAll([], fs, max)| <= |Concat(fs)| && |AppendAll([], fs, max)| <= max
    ensures |Concat(fs)| <= max ==> AppendAll([], fs, max) == Concat(fs)
    ensures |AppendAll([], fs, max)| == |Concat(fs)| ==> |Concat(fs)| <= max
  {
    if fs != [] {
      AppendAllIff(fs[..|fs| - 1], max);
      ConcatLast(fs);
    }
  }

  // ----- receiving

  function ReadValueAt(b: seq<Byte>, pos: nat, soc: Byte, text: bool): Option<Got<Value>> {
    if text then
      match ReadStringAt(b, pos, soc)
      case None => None
      case Some(g) => Some(Got(TextV(g.value), g.pos))
    else
      var g := ReadIntAt(b, pos);
      Some(Got(IntV(g.value), g.pos))
  }

  /** Values of the given kinds, one after the other; none if one of the texts throws. */
  function ReadValues(b: seq<Byte>, pos: nat, soc: Byte, kinds: seq<bool>): (r: Option<Got<seq<Value>>>)
    ensures r.Some? ==> |r.value.value| == |kinds|
    ensures r.Some? ==> forall i :: 0 <= i < |kinds| ==> (r.value.value[i].TextV? <==> kinds[i])
  {
    if kinds == [] then Some(Got([], pos))
    else
      match ReadValues(b, pos, soc, kinds[..|kinds| - 1])
      case None => None
      case Some(before) =>
        match ReadValueAt(b, before.pos, soc, kinds[|kinds| - 1])
        case None => None
        case Some(last) => Some(Got(before.value + [last.value], last.pos))
  }

  /** The event made of the values received. */
  function Build(vs: seq<Value>): LogEvent
    requires |vs| == |KINDS| && forall i :: 0 <= i < |KINDS| ==> (vs[i].TextV? <==> KINDS[i])
  {
    LogEvent(vs[1].text, ToSigned(vs[2].number), Prefixed(vs[0].text, vs[3].text), vs[4].text, vs[5].text,
             vs[6].number, vs[7].number, vs[8].text, ToSigned(vs[9].number), vs[10].text)
  }

  /** `readFromBuffer`; no event when one of its strings throws. */
  function Decode(b: seq<Byte>): Option<LogEvent> {
    var version := ReadByteAt(b, 0);
    var soc := ReadByteAt(b, version.pos);
    match ReadValues(b, soc.pos, soc.value, KINDS)
    case None => None
    case Some(g) => Some(Build(g.value))
  }

  const DASH: Text := [32, 45, 32]

  /** The server name put before the nested diagnostic context. */
  function Prefixed(server: Text, ndc: Text): Text {
    if server == [] then ndc else if ndc == [] then server else server + DASH + ndc
  }

  /** `got` is the context with the server name before it: the name, a blank, a dash, a blank and the context,
      or whichever of the two is not empty. */
  predicate NamesServer(server: Text, ndc: Text, got: Text) {
    if server == [] then got == ndc
    else if ndc == [] then got == server
    else
      && |got| == |server| + 3 + |ndc| && got[..|server|] == server
      && got[|server|] == 32 && got[|server| + 1] == 45 && got[|server| + 2] == 32
      && got[|server| + 3..] == ndc
  }

  lemma PrefixedNamesServer(server: Text, ndc: Text)
    ensures NamesServer(server, ndc, Prefixed(server, ndc))
  {
  }

  /** The context of every event that is decoded is made of the first and the fourth value of the message. */
  lemma DecodedNamesServer(b: seq<Byte>, ev: LogEvent) returns (server: Text, ndc: Text)
    requires Decode(b) == Some(ev)
    ensures var soc := ReadByteAt(b, ReadByteAt(b, 0).pos);
      var r := ReadValues(b, soc.pos, soc.value, KINDS);
      r.Some? && r.value.value[0] == TextV(server) && r.value.value[3] == TextV(ndc)
    ensures NamesServer(server, ndc, ev.ndc)
  {
    var soc := ReadByteAt(b, ReadByteAt(b, 0).pos);
    var vs := ReadValues(b, soc.pos, soc.value, KINDS).value.value;
    hide ReadValues, ReadByteAt;
    server, ndc := vs[0].text, vs[3].text;
    PrefixedNamesServer(server, ndc);
  }

  /** `got` is the event with the server named in its context and its numbers cut to 32 bits. */
  predicate SameEvent(ev: LogEvent, server: Text, got: LogEvent) {
    && got.logger == ev.logger && got.message == ev.message && got.thread == ev.thread
    && got.file == ev.file && got.function_ == ev.function_
    && NamesServer(server, ev.ndc, got.ndc)
    && -0x8000_0000 <= got.level < 0x8000_0000 && (got.level - ev.level) % 0x1_0000_0000 == 0
    && -0x8000_0000 <= got.line < 0x8000_0000 && (got.line - ev.line) % 0x1_0000_0000 == 0
    && 0 <= got.sec < 0x1_0000_0000 && (got.sec - ev.sec) % 0x1_0000_0000 == 0
    && 0 <= got.usec < 0x1_0000_0000 && (got.usec - ev.usec) % 0x1_0000_0000 == 0
  }

  lemma CutTo32(i: int)
    ensures 0 <= ToUnsigned(i) < 0x1_0000_0000 && (ToUnsigned(i) - i) % 0x1_0000_0000 == 0
    ensures -0x8000_0000 <= ToSigned(ToUnsigned(i)) < 0x8000_0000
    ensures (ToSigned(ToUnsigned(i)) - i) % 0x1_0000_0000 == 0
  {
    var q := i / 0x1_0000_0000;
    assert i == q * 0x1_0000_0000 + ToUnsigned(i);
    Multiple(-q);
    Multiple(-q - 1);
  }

  lemma Multiple(q: int)
    ensures q * 0x1_0000_0000 % 0x1_0000_0000 == 0
  {
  }

  lemma ReceivedIsSame(ev: LogEvent, server: Text)
    ensures SameEvent(ev, server, Received(ev, server))
  {
    PrefixedNamesServer(server, ev.ndc);
    CutTo32(ev.level);
    CutTo32(ev.line);
    CutTo32(ev.sec);
    CutTo32(ev.usec);
    hide ToSigned, ToUnsigned, NamesServer, Prefixed;
  }

  /** What arrives of an event: everything but for the NDC prefix and the width of the integers. */
  function Received(ev: LogEvent, server: Text): LogEvent {
    ev.(ndc := Prefixed(server, ev.ndc), level := ToSigned(ToUnsigned(ev.level)), sec := ToUnsigned(ev.sec),
        usec := ToUnsigned(ev.usec), line := ToSigned(ToUnsigned(ev.line)))
  }

  /** Only the NDC changes exactly if level and line are `int`s and the time stamp is not negative and
      fits 32 bits. */
  lemma OnlyNdcChangesIff(ev: LogEvent, server: Text)
    ensures Received(ev, server) == ev.(ndc := Prefixed(server, ev.ndc)) <==>
            -0x8000_0000 <= ev.level < 0x8000_0000 && -0x8000_0000 <= ev.line < 0x8000_0000 &&
            0 <= ev.sec < TWO32 && 0 <= ev.usec < TWO32
  {
    SignedRoundTrip(ev.level);
    SignedRoundTrip(ev.line);
  }

  lemma Peel(fs: seq<seq<Byte>>, k: nat)
    requires k < |fs|
    ensures Concat(fs[k..]) == fs[k] + Concat(fs[k + 1..])
  {
    assert fs[k..][1..] == fs[k + 1..];
  }

  lemma IntComesBack(b: seq<Byte>, pos: nat, u: int, rest: seq<Byte>)
    requires 0 <= u < TWO32 && pos <= |b| && b[pos..] == IntBytes(u) + rest
    ensures ReadIntAt(b, pos) == Got(u, pos + 4) && pos + 4 <= |b| && b[pos + 4..] == rest
  {
    assert b[pos..pos + 4] == b[pos..][..4] == IntBytes(u);
    assert b[pos + 4..] == b[pos..][4..];
    IntRoundTrip(u);
  }

  lemma StrComesBack(b: seq<Byte>, pos: nat, s: Text, rest: seq<Byte>)
    requires |s| < TWO32 && pos <= |b| && b[pos..] == Str(s) + rest
    ensures pos + 4 + |s| <= |b| && b[pos + 4 + |s|..] == rest
    ensures ReadStringAt(b, pos, 1) == Some(Got(s, pos + 4 + |s|))
  {
    hide IntBytes, IntOf;
    assert b[pos..] == IntBytes(|s|) + (s + rest);
    IntComesBack(b, pos, |s|, s + rest);
    var p := pos + 4;
    assert b[p..p + |s|] == b[p..][..|s|] == s;
    assert b[p + |s|..] == b[p..][|s|..];
  }

  lemma ValueComesBack(b: seq<Byte>, pos: nat, v: Value, rest: seq<Byte>) returns (pos': nat)
    requires Printable(v) && pos <= |b| && b[pos..] == Print(v) + rest
    ensures pos' <= |b| && b[pos'..] == rest && ReadValueAt(b, pos, 1, v.TextV?) == Some(Got(v, pos'))
  {
    if v.TextV? {
      StrComesBack(b, pos, v.text, rest);
      pos' := pos + 4 + |v.text|;
    } else {
      IntComesBack(b, pos, v.number, rest);
      pos' := pos + 4;
    }
  }

  /** Printed values are read back, and the cursor stands behind them. */
  lemma {:induction false} ValuesComeBack(b: seq<Byte>, pos: nat, vs: seq<Value>, kinds: seq<bool>, k: nat)
      returns (pos': nat)
    requires k <= |vs| == |kinds| && (forall v :: v in vs ==> Printable(v))
    requires forall i :: 0 <= i < |vs| ==> (vs[i].TextV? <==> kinds[i])
    requires pos <= |b| && b[pos..] == Concat(PrintEach(vs))
    ensures pos' <= |b| && b[pos'..] == Concat(PrintEach(vs)[k..])
    ensures ReadValues(b, pos, 1, kinds[..k]) == Some(Got(vs[..k], pos'))
  {
    hide Print, Printable, ReadValueAt, Concat;
    var fs := PrintEach(vs);
    if k == 0 {
      pos' := pos;
      assert fs[0..] == fs;
    } else {
      var p := ValuesComeBack(b, pos, vs, kinds, k - 1);
      Peel(fs, k - 1);
      pos' := ValueComesBack(b, p, vs[k - 1], Concat(fs[k..]));
      assert kinds[..k][..k - 1] == kinds[..k - 1] && vs[..k] == vs[..k - 1] + [vs[k - 1]];
    }
  }

  lemma ValuesFit(ev: LogEvent, server: Text)
    requires Sized(ev, server)
    ensures var vs := Values(ev, server);
      && |vs| == |KINDS| && (forall v :: v in vs ==> Printable(v))
      && forall i :: 0 <= i < |vs| ==> (vs[i].TextV? <==> KINDS[i])
  {
  }

  lemma EncodeSplit(ev: LogEvent, server: Text)
    requires Sized(ev, server)
    ensures (forall v :: v in Values(ev, server) ==> Printable(v))
    ensures Encode(ev, server) == [MESSAGE_VERSION, 1] + Concat(PrintEach(Values(ev, server)))
  {
    ValuesFit(ev, server);
    hide Values, Concat;
    var fs := Fields(ev, server);
    Peel(fs, 0);
    Peel(fs, 1);
    assert fs[0..] == fs && fs[2..] == PrintEach(Values(ev, server));
  }

  lemma BuildReceived(ev: LogEvent, server: Text)
    requires Sized(ev, server)
    ensures |Values(ev, server)| == |KINDS|
    ensures forall i :: 0 <= i < |KINDS| ==> (Values(ev, server)[i].TextV? <==> KINDS[i])
    ensures Build(Values(ev, server)) == Received(ev, server)
  {
    ValuesFit(ev, server);
  }

  /** Decoding an encoded event gives what is to be received. */
  lemma DecodeEncode(ev: LogEvent, server: Text)
    requires Sized(ev, server)
    ensures Decode(Encode(ev, server)) == Some(Received(ev, server))
  {
    hide Values, Concat, ReadValues, Encode, Build, Received, PrintEach;
    var vs, b := Values(ev, server), Encode(ev, server);
    ValuesFit(ev, server);
    EncodeSplit(ev, server);
    BuildReceived(ev, server);
    assert b[2..] == Concat(PrintEach(vs));
    var pos := ValuesComeBack(b, 2, vs, KINDS, |vs|);
    assert KINDS[..|vs|] == KINDS && vs[..|vs|] == vs;
  }

  /** The encoding, field by field. */
  lemma EncodeLayout(ev: LogEvent, server: Text)
    requires Sized(ev, server)
    ensures Encode(ev, server) ==
      [3, 1] + (Str(server) + (Str(ev.logger) + (IntBytes(ToUnsigned(ev.level)) + (Str(ev.ndc) +
      (Str(ev.message) + (Str(ev.thread) + (IntBytes(ToUnsigned(ev.sec)) + (IntBytes(ToUnsigned(ev.usec)) +
      (Str(ev.file) + (IntBytes(ToUnsigned(ev.line)) + Str(ev.function_)))))))))))
  {
    EncodeSplit(ev, server);
    ValuesFit(ev, server);
    var fs := PrintEach(Values(ev, server));
    assert fs[2] == IntBytes(ToUnsigned(ev.level));
    assert fs[6] == IntBytes(ToUnsigned(ev.sec)) && fs[7] == IntBytes(ToUnsigned(ev.usec));
    assert fs[9] == IntBytes(ToUnsigned(ev.line));
    hide Concat, Str, IntBytes, ToUnsigned;
    assert fs[0..] == fs && fs[11..] == [];
    Eleven(fs);
  }

  lemma Eleven(fs: seq<seq<Byte>>)
    requires |fs| == 11
    ensures Concat(fs) == fs[0] + (fs[1] + (fs[2] + (fs[3] + (fs[4] + (fs[5] + (fs[6] + (fs[7] + (fs[8] +
      (fs[9] + fs[10])))))))))
  {
    assert Concat([]) == [];
    hide Concat;
    assert fs[0..] == fs && fs[11..] == [];
    Four(fs, 0);
    Four(fs, 4);
    Peel(fs, 8);
    Peel(fs, 9);
    Peel(fs, 10);
    assert fs[10] + [] == fs[10];
  }

  lemma Four(fs: seq<seq<Byte>>, k: nat)
    requires k + 4 <= |fs|
    ensures Concat(fs[k..]) == fs[k] + (fs[k + 1] + (fs[k + 2] + (fs[k + 3] + Concat(fs[k + 4..]))))
  {
    hide Concat;
    Peel(fs, k);
    Peel(fs, k + 1);
    Peel(fs, k + 2);
    Peel(fs, k + 3);
  }
}
