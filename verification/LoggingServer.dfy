/** Sending and receiving log events: `SocketAppender::append`, the accumulating `read`
    (`socket-unix.cxx`) and the loop of the logging server (`loggingserver.cxx`). */
module LoggingServer {
  import opened Options
  import opened SocketBuffers
  import opened LogEvents

  // ----- the sender

  /** One append after another, as seen by the fields already sent. */
  method SendText(buf: SocketBuffer, s: Text, ghost fs: seq<seq<Byte>>, ghost k: nat)
    requires buf.Valid() && |s| < TWO32 && k < |fs| && fs[k] == Str(s)
    requires buf.Written() == AppendAll([], fs[..k], buf.buffer.Length) && buf.size == buf.pos
    modifies buf, buf.buffer
    ensures buf.Valid() && buf.Written() == AppendAll([], fs[..k + 1], buf.buffer.Length) && buf.size == buf.pos
  {
    AppendNext([], fs, buf.buffer.Length, k);
    buf.AppendString(s);
  }

  method SendInt(buf: SocketBuffer, i: int, ghost fs: seq<seq<Byte>>, ghost k: nat)
    requires buf.Valid() && k < |fs| && fs[k] == IntBytes(ToUnsigned(i))
    requires buf.Written() == AppendAll([], fs[..k], buf.buffer.Length) && buf.size == buf.pos
    modifies buf, buf.buffer
    ensures buf.Valid() && buf.Written() == AppendAll([], fs[..k + 1], buf.buffer.Length) && buf.size == buf.pos
  {
    AppendNext([], fs, buf.buffer.Length, k);
    buf.AppendInt(ToUnsigned(i));
  }

  method SendByte(buf: SocketBuffer, b: Byte, ghost fs: seq<seq<Byte>>, ghost k: nat)
    requires buf.Valid() && k < |fs| && fs[k] == [b]
    requires buf.Written() == AppendAll([], fs[..k], buf.buffer.Length) && buf.size == buf.pos
    modifies buf, buf.buffer
    ensures buf.Valid() && buf.Written() == AppendAll([], fs[..k + 1], buf.buffer.Length) && buf.size == buf.pos
  {
    AppendNext([], fs, buf.buffer.Length, k);
    buf.AppendByte(b);
  }

  /** `convertToBuffer` */
  method ConvertToBuffer(buf: SocketBuffer, ev: LogEvent, server: Text)
    requires Sized(ev, server) && buf.Valid() && buf.pos == 0 && buf.size == 0
    modifies buf, buf.buffer
    ensures buf.Valid() && buf.size == buf.pos
    ensures buf.Written() == AppendAll([], Fields(ev, server), buf.buffer.Length)
  {
    ghost var fs := Fields(ev, server);
    FieldsAt(ev, server);
    hide AppendAll, Str, Fields, IntBytes, ToUnsigned;
    SendByte(buf, MESSAGE_VERSION, fs, 0);
    SendByte(buf, 1, fs, 1);
    SendText(buf, server, fs, 2);
    SendText(buf, ev.logger, fs, 3);
    SendInt(buf, ev.level, fs, 4);
    SendText(buf, ev.ndc, fs, 5);
    SendText(buf, ev.message, fs, 6);
    SendText(buf, ev.thread, fs, 7);
    SendInt(buf, ev.sec, fs, 8);
    SendInt(buf, ev.usec, fs, 9);
    SendText(buf, ev.file, fs, 10);
    SendInt(buf, ev.line, fs, 11);
    SendText(buf, ev.function_, fs, 12);
  }

  /** The fields, one by one. */
  lemma FieldsAt(ev: LogEvent, server: Text)
    requires Sized(ev, server)
    ensures var fs := Fields(ev, server);
      && |fs| == 13 && fs[..13] == fs && (forall max :: AppendAll([], fs[..0], max) == [])
      && fs[0] == [MESSAGE_VERSION] && fs[1] == [1] && fs[2] == Str(server) && fs[3] == Str(ev.logger)
      && fs[4] == IntBytes(ToUnsigned(ev.level)) && fs[5] == Str(ev.ndc) && fs[6] == Str(ev.message)
      && fs[7] == Str(ev.thread) && fs[8] == IntBytes(ToUnsigned(ev.sec)) && fs[9] == IntBytes(ToUnsigned(ev.usec))
      && fs[10] == Str(ev.file) && fs[11] == IntBytes(ToUnsigned(ev.line)) && fs[12] == Str(ev.function_)
  {
    hide Str, IntBytes, ToUnsigned;
    var fs := Fields(ev, server);
    assert fs[..0] == [];
  }

  /** A length-prefixed message. */
  function Frame(message: seq<Byte>): seq<Byte>
    requires |message| < TWO32
  {
    IntBytes(|message|) + message
  }

  /** `SocketAppender::append`, up to the single `write` of the frame: length, then the fields that fit;
      these are the encoded event exactly if the encoding fits the message limit. */
  method AppendEvent(ev: LogEvent, server: Text) returns (sent: seq<Byte>)
    requires Sized(ev, server)
    ensures 4 <= |sent| <= MAX_MESSAGE_SIZE && sent == Frame(sent[4..])
    ensures sent[4..] == AppendAll([], Fields(ev, server), MAX_MESSAGE_SIZE - 4)
    ensures sent[4..] == Encode(ev, server) <==> |Encode(ev, server)| <= MAX_MESSAGE_SIZE - 4
  {
    var buf := new SocketBuffer(MAX_MESSAGE_SIZE - 4);
    ConvertToBuffer(buf, ev, server);
    ghost var message := AppendAll([], Fields(ev, server), MAX_MESSAGE_SIZE - 4);
    AppendAllIff(Fields(ev, server), MAX_MESSAGE_SIZE - 4);
    assert message == Encode(ev, server) <==> |Encode(ev, server)| <= MAX_MESSAGE_SIZE - 4;
    hide AppendAll, Fields, Encode, Sized, Frame;
    sent := FrameOf(buf);
  }

  /** Length and contents of a buffer, in a buffer of their own. */
  method FrameOf(buf: SocketBuffer) returns (sent: seq<Byte>)
    requires buf.Valid() && buf.size == buf.pos <= MAX_MESSAGE_SIZE - 4
    ensures sent == Frame(buf.Written()) && sent[4..] == buf.Written() && |sent| == 4 + buf.size
  {
    ghost var size, contents := IntBytes(buf.size), buf.Written();
    FitWhole([], size, MAX_MESSAGE_SIZE);
    FitWhole([] + size, contents, MAX_MESSAGE_SIZE);
    assert size == [] + size && Frame(contents) == size + contents;
    hide IntBytes, Fitted, Frame;
    var msg := new SocketBuffer(MAX_MESSAGE_SIZE);
    assert msg.Written() == [];
    msg.AppendInt(buf.size);
    msg.AppendBuffer(buf);
    sent := msg.buffer[..msg.size];
    assert sent == size + contents;
  }

  lemma FitWhole(c: seq<Byte>, more: seq<Byte>, max: nat)
    requires |c| + |more| <= max
    ensures Fitted(c, more, max) == c + more
  {
  }

  // ----- the receiver

  /** A connection: the bytes still to come before it ends or fails, and how the system chops them up. */
  class Connection {
    var rest: seq<Byte>
    var calls: nat
    const chop: nat -> nat

    constructor (stream: seq<Byte>, chop: nat -> nat)
      ensures rest == stream && this.chop == chop
    {
      rest, calls, this.chop := stream, 0, chop;
    }

    /** `::read`: nothing for a request of nothing, at the end or on an error, which the callers do not tell
        apart; else between one byte and all asked for. */
    method ReadSome(count: nat) returns (got: seq<Byte>)
      modifies this
      ensures old(rest) == got + rest && |got| <= count
      ensures got == [] <==> count == 0 || old(rest) == []
    {
      var most := if count <= |rest| then count else |rest|;
      var n := if most == 0 then 0 else if chop(calls) == 0 || most < chop(calls) then most else chop(calls);
      got := rest[..n];
      rest := rest[n..];
      calls := calls + 1;
    }
  }

  /** `read (SOCKET_TYPE, SocketBuffer &)`: fill the buffer, however many reads it takes. */
  method ReadFull(c: Connection, buf: SocketBuffer) returns (ok: bool)
    modifies c, buf.buffer
    ensures ok <==> 0 < buf.buffer.Length <= |old(c.rest)|
    ensures ok ==> buf.buffer[..] == old(c.rest)[..buf.buffer.Length] && c.rest == old(c.rest)[buf.buffer.Length..]
  {
    ghost var stream := c.rest;
    var readbytes := 0;
    while true
      invariant 0 <= readbytes <= buf.buffer.Length && readbytes <= |stream|
      invariant readbytes == buf.buffer.Length ==> readbytes == 0
      invariant c.rest == stream[readbytes..]
      invariant buf.buffer[..readbytes] == stream[..readbytes]
      decreases buf.buffer.Length - readbytes
    {
      var got := c.ReadSome(buf.buffer.Length - readbytes);
      if got == [] {
        return false;
      }
      forall i | 0 <= i < |got| {
        buf.buffer[readbytes + i] := got[i];
      }
      assert stream[readbytes..] == got + c.rest;
      assert buf.buffer[..readbytes + |got|] == stream[..readbytes] + got == stream[..readbytes + |got|];
      readbytes := readbytes + |got|;
      if readbytes >= buf.buffer.Length {
        return true;
      }
    }
  }

  /** The first values of a message, up to the cursor. */
  ghost predicate ReadSoFar(b: seq<Byte>, start: nat, soc: Byte, vs: seq<Value>, pos: nat) {
    |vs| <= |KINDS| && ReadValues(b, start, soc, KINDS[..|vs|]) == Some(Got(vs, pos))
  }

  /** The next value of a message; `None` ends the decoding. */
  method NextText(buf: SocketBuffer, soc: Byte, ghost start: nat, ghost vs: seq<Value>)
    returns (s: Option<Text>)
    requires buf.Valid() && |vs| in {0, 1, 3, 4, 5, 8, 10}
    requires ReadSoFar(buf.buffer[..], start, soc, vs, buf.pos)
    modifies buf`pos
    ensures buf.Valid()
    ensures s.Some? ==> ReadSoFar(buf.buffer[..], start, soc, vs + [TextV(s.value)], buf.pos)
    ensures s.None? ==> ReadValues(buf.buffer[..], start, soc, KINDS) == None
  {
    assert KINDS[|vs|] && KINDS[..|vs| + 1][..|vs|] == KINDS[..|vs|];
    s := buf.ReadString(soc);
    if s.None? {
      NoMoreValues(buf.buffer[..], start, soc, |vs| + 1, |KINDS|);
      assert KINDS[..|KINDS|] == KINDS;
    }
  }

  method NextInt(buf: SocketBuffer, soc: Byte, ghost start: nat, ghost vs: seq<Value>) returns (u: int)
    requires buf.Valid() && |vs| in {2, 6, 7, 9}
    requires ReadSoFar(buf.buffer[..], start, soc, vs, buf.pos)
    modifies buf`pos
    ensures buf.Valid() && ReadSoFar(buf.buffer[..], start, soc, vs + [IntV(u)], buf.pos)
  {
    assert !KINDS[|vs|] && KINDS[..|vs| + 1][..|vs|] == KINDS[..|vs|];
    u := buf.ReadInt();
  }

  lemma {:induction false} NoMoreValues(b: seq<Byte>, pos: nat, soc: Byte, i: nat, k: nat)
    requires i <= k <= |KINDS| && ReadValues(b, pos, soc, KINDS[..i]) == None
    ensures ReadValues(b, pos, soc, KINDS[..k]) == None
  {
    if i < k {
      NoMoreValues(b, pos, soc, i, k - 1);
      assert KINDS[..k][..k - 1] == KINDS[..k - 1];
    }
  }

  /** `readFromBuffer` */
  method ReadFromBuffer(buf: SocketBuffer) returns (ev: Option<LogEvent>)
    requires buf.Valid() && buf.pos == 0
    modifies buf`pos
    ensures ev == Decode(buf.buffer[..])
  {
    hide ReadSoFar, ReadValues, Decode, Build, ToSigned, Prefixed;
    ghost var b := buf.buffer[..];
    var version := buf.ReadByte();
    var soc := buf.ReadByte();
    ghost var start := buf.pos;
    NoValues(b, start, soc);
    ghost var vs: seq<Value> := [];
    Undecodable(b, start, soc);
    var server := NextText(buf, soc, start, vs);
    if server == None { return None; }
    vs := vs + [TextV(server.value)];
    var logger := NextText(buf, soc, start, vs);
    if logger == None { return None; }
    vs := vs + [TextV(logger.value)];
    var level := NextInt(buf, soc, start, vs);
    vs := vs + [IntV(level)];
    var ndc := NextText(buf, soc, start, vs);
    if ndc == None { return None; }
    vs := vs + [TextV(ndc.value)];
    var message := NextText(buf, soc, start, vs);
    if message == None { return None; }
    vs := vs + [TextV(message.value)];
    var thread := NextText(buf, soc, start, vs);
    if thread == None { return None; }
    vs := vs + [TextV(thread.value)];
    var sec := NextInt(buf, soc, start, vs);
    vs := vs + [IntV(sec)];
    var usec := NextInt(buf, soc, start, vs);
    vs := vs + [IntV(usec)];
    var file := NextText(buf, soc, start, vs);
    if file == None { return None; }
    vs := vs + [TextV(file.value)];
    var line := NextInt(buf, soc, start, vs);
    vs := vs + [IntV(line)];
    var function_ := NextText(buf, soc, start, vs);
    if function_ == None { return None; }
    vs := vs + [TextV(function_.value)];
    AllRead(b, start, soc, vs, buf.pos);
    ev := Some(LogEvent(logger.value, ToSigned(level), Prefixed(server.value, ndc.value), message.value,
                        thread.value, sec, usec, file.value, ToSigned(line), function_.value));
    BuildFrom(vs, server.value, logger.value, level, ndc.value, message.value, thread.value, sec, usec,
              file.value, line, function_.value);
  }

  lemma NoValues(b: seq<Byte>, pos: nat, soc: Byte)
    ensures ReadSoFar(b, pos, soc, [], pos)
  {
  }

  ghost predicate Header(b: seq<Byte>, start: nat, soc: Byte) {
    ReadByteAt(b, ReadByteAt(b, 0).pos) == Got(soc, start)
  }

  lemma Undecodable(b: seq<Byte>, start: nat, soc: Byte)
    requires Header(b, start, soc)
    ensures ReadValues(b, start, soc, KINDS) == None ==> Decode(b) == None
  {
  }

  lemma AllRead(b: seq<Byte>, start: nat, soc: Byte, vs: seq<Value>, pos: nat)
    requires Header(b, start, soc) && |vs| == |KINDS| && ReadSoFar(b, start, soc, vs, pos)
    ensures forall i :: 0 <= i < |KINDS| ==> (vs[i].TextV? <==> KINDS[i])
    ensures Decode(b) == Some(Build(vs))
  {
    assert KINDS[..|vs|] == KINDS;
  }

  lemma BuildFrom(vs: seq<Value>, server: Text, logger: Text, level: int, ndc: Text, message: Text, thread: Text,
                  sec: int, usec: int, file: Text, line: int, function_: Text)
    requires vs == [] + [TextV(server)] + [TextV(logger)] + [IntV(level)] + [TextV(ndc)] + [TextV(message)] +
                   [TextV(thread)] + [IntV(sec)] + [IntV(usec)] + [TextV(file)] + [IntV(line)] + [TextV(function_)]
    ensures |vs| == |KINDS| && forall i :: 0 <= i < |KINDS| ==> (vs[i].TextV? <==> KINDS[i])
    ensures Build(vs) == LogEvent(logger, ToSigned(level), Prefixed(server, ndc), message, thread, sec, usec, file,
                                  ToSigned(line), function_)
  {
    assert vs == [TextV(server), TextV(logger), IntV(level), TextV(ndc), TextV(message), TextV(thread), IntV(sec),
                  IntV(usec), TextV(file), IntV(line), TextV(function_)];
  }

  /** What the server makes of a stream: frame after frame, until one is missing, empty or broken. */
  function Served(stream: seq<Byte>): seq<LogEvent>
    decreases |stream|
  {
    if |stream| < 4 then []
    else
      var n := IntOf(stream[..4]);
      if n == 0 || |stream| - 4 < n then []
      else
        match Decode(stream[4..4 + n])
        case None => []
        case Some(ev) => [ev] + Served(stream[4 + n..])
  }

  method ReadSize(c: Connection) returns (ok: bool, msgSize: int)
    modifies c
    ensures ok <==> 4 <= |old(c.rest)|
    ensures ok ==> msgSize == IntOf(old(c.rest)[..4]) && c.rest == old(c.rest)[4..]
  {
    var sizeBuf := new SocketBuffer(4);
    ok := ReadFull(c, sizeBuf);
    msgSize := 0;
    if ok {
      msgSize := sizeBuf.ReadInt();
      assert sizeBuf.buffer[..][0..4] == old(c.rest)[..4];
    }
  }

  method ReadMessage(c: Connection, msgSize: nat) returns (ok: bool, event: Option<LogEvent>)
    modifies c
    ensures ok <==> 0 < msgSize <= |old(c.rest)|
    ensures ok ==> event == Decode(old(c.rest)[..msgSize]) && c.rest == old(c.rest)[msgSize..]
  {
    hide Decode;
    var buf := new SocketBuffer(msgSize);
    ok := ReadFull(c, buf);
    event := None;
    if ok {
      event := ReadFromBuffer(buf);
    }
  }

  /** `ClientThread::run`: the events handed to the loggers do not depend on how the stream was chopped. */
  method Run(c: Connection) returns (events: seq<LogEvent>)
    modifies c
    ensures events == Served(old(c.rest))
  {
    hide Decode, IntOf;
    events := [];
    while true
      invariant events + Served(c.rest) == Served(old(c.rest))
      decreases |c.rest|
    {
      ghost var before := c.rest;
      var ok, msgSize := ReadSize(c);
      if !ok {
        return;
      }
      var event;
      ok, event := ReadMessage(c, msgSize);
      if !ok {
        return;
      }
      assert before[4..][..msgSize] == before[4..4 + msgSize];
      assert before[4..][msgSize..] == before[4 + msgSize..];
      if event == None {
        return;
      }
      events := events + [event.value];
    }
  }

  // ----- end to end

  function FrameAll(evs: seq<LogEvent>, server: Text): seq<Byte>
    requires forall ev :: ev in evs ==> Sized(ev, server) && |Encode(ev, server)| < TWO32
  {
    if evs == [] then [] else Frame(Encode(evs[0], server)) + FrameAll(evs[1..], server)
  }

  function ReceivedAll(evs: seq<LogEvent>, server: Text): seq<LogEvent> {
    if evs == [] then [] else [Received(evs[0], server)] + ReceivedAll(evs[1..], server)
  }

  lemma EncodeNotEmpty(ev: LogEvent, server: Text)
    requires Sized(ev, server)
    ensures Encode(ev, server) != []
  {
    EncodeSplit(ev, server);
  }

  /** Events framed and concatenated are served in order, each as it is to be received, and then what
      follows them. */
  lemma {:induction false} FramesComeThrough(evs: seq<LogEvent>, server: Text, more: seq<Byte>)
    requires forall ev :: ev in evs ==> Sized(ev, server) && |Encode(ev, server)| < TWO32
    ensures Served(FrameAll(evs, server) + more) == ReceivedAll(evs, server) + Served(more)
    decreases |evs|
  {
    if evs == [] {
      assert FrameAll(evs, server) + more == more;
    } else {
      var m, frames := Encode(evs[0], server), FrameAll(evs[1..], server);
      EncodeNotEmpty(evs[0], server);
      DecodeEncode(evs[0], server);
      assert FrameAll(evs, server) == Frame(m) + frames;
      assert ReceivedAll(evs, server) == [Received(evs[0], server)] + ReceivedAll(evs[1..], server);
      hide *;
      ServedFrame(m, frames + more);
      FramesComeThrough(evs[1..], server, more);
      Associative(Frame(m), frames, more);
      Associative([Received(evs[0], server)], ReceivedAll(evs[1..], server), Served(more));
    }
  }

  lemma Associative<T>(x: seq<T>, y: seq<T>, z: seq<T>)
    ensures x + y + z == x + (y + z)
  {
  }

  /** The first frame of a stream is served, or ends the connection. */
  lemma ServedFrame(m: seq<Byte>, rest: seq<Byte>)
    requires 0 < |m| < TWO32
    ensures Served(Frame(m) + rest) ==
            match Decode(m) case None => [] case Some(ev) => [ev] + Served(rest)
  {
    hide Decode, IntBytes, IntOf;
    var stream := Frame(m) + rest;
    IntRoundTrip(|m|);
    assert stream[..4] == IntBytes(|m|) && stream[4..4 + |m|] == m && stream[4 + |m|..] == rest;
  }
}
