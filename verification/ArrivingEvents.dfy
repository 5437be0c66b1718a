/** Exactly which log events arrive at the server with nothing but the NDC prefix added: those that lose
    nothing but empty texts and zeros to the message limit. */
module ArrivingEvents {
  import opened Options
  import opened SocketBuffers
  import opened LogEvents
  import opened LoggingServer
  import opened TruncatedEvents

  /** What the receiver reads where nothing is left. */
  predicate Blank(v: Value) {
    v == TextV([]) || v == IntV(0)
  }

  /** The number of values up to the last one that is not blank. */
  function Needed(vs: seq<Value>): (n: nat)
    ensures n <= |vs| && (n > 0 ==> !Blank(vs[n - 1]))
    ensures forall i :: n <= i < |vs| ==> Blank(vs[i])
  {
    if vs == [] then 0
    else if Blank(vs[|vs| - 1]) then Needed(vs[..|vs| - 1])
    else |vs|
  }

  /** The encoding fits, up to the last value that is neither an empty text nor 0. */
  ghost predicate Arrives(ev: LogEvent, server: Text, max: nat)
    requires Sized(ev, server)
  {
    ValuesFit(ev, server);
    var vs := Values(ev, server);
    2 + |Wire(vs[..Needed(vs)])| <= max
  }

  // ----- the buffer is never longer than the limit

  lemma {:induction false} FittingFits(vs: seq<Value>, used: nat, max: nat)
    requires AllPrintable(vs) && used <= max
    ensures used + |Wire(Fitting(vs, used, max))| <= max
    decreases |vs|
  {
    hide Print, Wire;
    if vs == [] {
      NoWire();
    } else {
      FittingFront(vs, used, max);
      var p := |Print(vs[0])|;
      if used + p <= max {
        FittingFits(vs[1..], used + p, max);
        WireCons(vs[0], Fitting(vs[1..], used + p, max));
      } else {
        FittingFits(vs[1..], used, max);
      }
    }
  }

  lemma NoWire()
    ensures Wire([]) == []
  {
  }

  lemma WireCons(v: Value, vs: seq<Value>)
    requires Printable(v) && AllPrintable(vs)
    ensures AllPrintable([v] + vs) && |Wire([v] + vs)| == |Print(v)| + |Wire(vs)|
  {
    WireFront([v] + vs);
    assert ([v] + vs)[1..] == vs;
  }

  /** Blank values take four bytes each, so of a list of them a prefix fits. */
  lemma {:induction false} BlanksFit(vs: seq<Value>, used: nat, max: nat)
    requires AllPrintable(vs) && forall i :: 0 <= i < |vs| ==> Blank(vs[i])
    ensures Fitting(vs, used, max) <= vs
    decreases |vs|
  {
    if vs != [] {
      if used + 4 <= max {
        BlanksFit(vs[1..], used + 4, max);
      } else {
        NothingFits(vs, used, max);
      }
    }
  }

  // ----- reading at the end of the buffer

  /** With less than a length left, all that is read is blank. */
  lemma {:induction false} ReadsBlanks(b: seq<Byte>, pos: nat, i: nat, k: nat)
    requires i <= k <= |KINDS| && pos <= |b| < pos + 4
    requires ReadValues(b, 2, 1, KINDS[..i]).Some? && ReadValues(b, 2, 1, KINDS[..i]).value.pos == pos
    ensures var r, before := ReadValues(b, 2, 1, KINDS[..k]), ReadValues(b, 2, 1, KINDS[..i]);
      && r.Some? && r.value.pos == pos && r.value.value[..i] == before.value.value
      && forall j :: i <= j < k ==> Blank(r.value.value[j])
    decreases k
  {
    if i < k {
      ReadsBlanks(b, pos, i, k - 1);
      NothingAt(b, pos);
      hide ReadStringAt, ReadIntAt;
      NextValue(b, k - 1);
    }
  }

  /** One value more. */
  lemma NextValue(b: seq<Byte>, k: nat)
    requires k < |KINDS| && ReadValues(b, 2, 1, KINDS[..k]).Some?
    ensures var before := ReadValues(b, 2, 1, KINDS[..k]).value;
      var v := ReadValueAt(b, before.pos, 1, KINDS[k]);
      ReadValues(b, 2, 1, KINDS[..k + 1]) ==
      if v.None? then None else Some(Got(before.value + [v.value.value], v.value.pos))
  {
    hide ReadValueAt;
    assert KINDS[..k + 1][..k] == KINDS[..k];
  }

  /** The values read first are those read first of more. */
  lemma {:induction false} ReadsExtend(b: seq<Byte>, i: nat, k: nat)
    requires i <= k <= |KINDS| && ReadValues(b, 2, 1, KINDS[..k]).Some?
    ensures ReadValues(b, 2, 1, KINDS[..i]).Some?
    ensures ReadValues(b, 2, 1, KINDS[..k]).value.value[..i] == ReadValues(b, 2, 1, KINDS[..i]).value.value
    decreases k
  {
    if i < k {
      assert KINDS[..k][..k - 1] == KINDS[..k - 1];
      ReadsExtend(b, i, k - 1);
      hide ReadValueAt;
      NextValue(b, k - 1);
    }
  }

  /** What reading a value takes: nothing, or a length and the text. */
  function Takes(v: Value): nat {
    if v.TextV? && v.text != [] then 4 + |v.text| else 0
  }

  lemma ReadTakes(b: seq<Byte>, k: nat)
    requires k < |KINDS| && ReadValues(b, 2, 1, KINDS[..k + 1]).Some?
    ensures ReadValues(b, 2, 1, KINDS[..k]).Some?
    ensures var before, after := ReadValues(b, 2, 1, KINDS[..k]).value, ReadValues(b, 2, 1, KINDS[..k + 1]).value;
      before.pos <= |b| ==> before.pos + Takes(after.value[k]) <= after.pos <= |b|
  {
    OneFewer(b, k);
    hide ReadValueAt, ReadValues, Takes;
    NextValue(b, k);
    var before := ReadValues(b, 2, 1, KINDS[..k]).value;
    if before.pos <= |b| {
      ValueTakes(b, before.pos, KINDS[k]);
    }
  }

  lemma OneFewer(b: seq<Byte>, k: nat)
    requires k < |KINDS| && ReadValues(b, 2, 1, KINDS[..k + 1]).Some?
    ensures ReadValues(b, 2, 1, KINDS[..k]).Some?
  {
    hide ReadValueAt;
    assert KINDS[..k + 1][..k] == KINDS[..k];
  }

  lemma ValueTakes(b: seq<Byte>, pos: nat, text: bool)
    requires pos <= |b| && ReadValueAt(b, pos, 1, text).Some?
    ensures var g := ReadValueAt(b, pos, 1, text).value; pos + Takes(g.value) <= g.pos <= |b|
  {
    hide IntOf;
  }

  // ----- from the values to the event

  lemma DecodeIs(b: seq<Byte>)
    requires |b| >= 2 && b[0] == MESSAGE_VERSION && b[1] == 1
    ensures Decode(b) == match ReadValues(b, 2, 1, KINDS) case None => None case Some(g) => Some(Build(g.value))
  {
  }

  /** `vs` and `rs` are of the right kinds, and `rs` has less at `m`. */
  ghost predicate LessAt(vs: seq<Value>, rs: seq<Value>, m: nat) {
    && m < |vs| == |rs| == |KINDS|
    && (forall i :: 0 <= i < |KINDS| ==> (vs[i].TextV? <==> KINDS[i]) && (rs[i].TextV? <==> KINDS[i]))
    && (if KINDS[m] then |rs[m].text| < |vs[m].text| else rs[m].number == 0 < vs[m].number < TWO32)
  }

  /** Less of any value makes another event; of the server name, when that and the context read are shorter
      than the name, and of the context, when the server name is the same. */
  lemma OtherEvent(vs: seq<Value>, rs: seq<Value>, m: nat)
    requires LessAt(vs, rs, m)
    requires m == 0 ==> |Prefixed(rs[0].text, rs[3].text)| < |vs[0].text|
    requires m == 3 ==> rs[0] == vs[0]
    ensures Build(rs) != Build(vs)
  {
    assert m == 0 ==> |Prefixed(vs[0].text, vs[3].text)| >= |vs[0].text|;
    assert m == 3 ==> |Prefixed(rs[0].text, rs[3].text)| < |Prefixed(vs[0].text, vs[3].text)|;
    assert m in {0, 1, 2, 3, 4, 5, 6, 7, 8, 9, 10};
  }

  // ----- events that arrive

  lemma SentPrefix(ev: LogEvent, server: Text, max: nat)
    requires Sized(ev, server) && 2 <= max && Arrives(ev, server, max)
    ensures var vs, ws := Values(ev, server), Sent(ev, server, max); Needed(vs) <= |ws| && ws <= vs
  {
    ValuesFit(ev, server);
    hide Values;
    PrefixFits(Values(ev, server), Needed(Values(ev, server)), max);
  }

  lemma PrefixFits(vs: seq<Value>, n: nat, max: nat)
    requires AllPrintable(vs) && n <= |vs| && 2 + |Wire(vs[..n])| <= max
    requires forall i :: n <= i < |vs| ==> Blank(vs[i])
    ensures n <= |Fitting(vs, 2, max)| && Fitting(vs, 2, max) <= vs
  {
    hide Wire, Fitting, Print, Printable;
    var rest := Fitting(vs[n..], 2 + |Wire(vs[..n])|, max);
    FittingPrefix(vs, 2, max, n);
    BlanksFit(vs[n..], 2 + |Wire(vs[..n])|, max);
    JoinedPrefix(vs, n, rest);
  }

  lemma JoinedPrefix(vs: seq<Value>, n: nat, rest: seq<Value>)
    requires n <= |vs| && rest <= vs[n..]
    ensures vs[..n] + rest <= vs && n <= |vs[..n] + rest|
  {
    assert forall i :: 0 <= i < |rest| ==> rest[i] == vs[n..][i] == vs[n + i];
  }

  /** What is read of a message that holds the first values of an event, the others being blank. */
  lemma ReadsAll(b: seq<Byte>, vs: seq<Value>, k: nat)
    requires |vs| == |KINDS| && k <= |vs| && AllPrintable(vs[..k])
    requires forall i :: 0 <= i < |vs| ==> (vs[i].TextV? <==> KINDS[i])
    requires forall i :: k <= i < |vs| ==> Blank(vs[i])
    requires b == [MESSAGE_VERSION, 1] + Wire(vs[..k])
    ensures ReadValues(b, 2, 1, KINDS).Some? && ReadValues(b, 2, 1, KINDS).value.value == vs
  {
    hide Wire, ReadValues, Concat;
    var pos := AlignedComeBack(b, vs[..k], k);
    NoBytes(PrintEach(vs[..k]));
    assert vs[..k][..k] == vs[..k] && KINDS[..|KINDS|] == KINDS;
    ReadsBlanks(b, pos, k, |KINDS|);
    var rs := ReadValues(b, 2, 1, KINDS).value.value;
    forall i | 0 <= i < |vs| ensures rs[i] == vs[i] {
      assert i < k ==> rs[i] == rs[..k][i] == vs[..k][i];
    }
  }

  lemma ArrivesIntact(ev: LogEvent, server: Text, max: nat)
    requires Sized(ev, server) && 2 <= max && Arrives(ev, server, max)
    ensures Decode(Message(ev, server, max)) == Some(Received(ev, server))
  {
    var vs, ws, b := Values(ev, server), Sent(ev, server, max), Message(ev, server, max);
    ValuesFit(ev, server);
    SentPrefix(ev, server, max);
    MessageIsSent(ev, server, max);
    BuildReceived(ev, server);
    hide Values, Sent, Message, Decode, Build, Received, Wire;
    assert ws == vs[..|ws|];
    ReadsAll(b, vs, |ws|);
    DecodeIs(b);
  }

  // ----- events that do not

  lemma {:induction false} WireSplit(vs: seq<Value>, d: nat)
    requires AllPrintable(vs) && d <= |vs|
    ensures |Wire(vs)| == |Wire(vs[..d])| + |Concat(PrintEach(vs)[d..])|
    decreases d
  {
    hide Print;
    if d == 0 {
      assert PrintEach(vs)[0..] == PrintEach(vs);
    } else {
      WireFront(vs);
      WireFront(vs[..d]);
      assert vs[..d][1..] == vs[1..][..d - 1];
      assert PrintEach(vs)[d..] == PrintEach(vs)[1..][d - 1..];
      WireSplit(vs[1..], d - 1);
    }
  }

  /** The first value that does not fit any more. */
  lemma {:induction false} FirstLeftOut(vs: seq<Value>, n: nat, max: nat) returns (d: nat)
    requires AllPrintable(vs) && n <= |vs| && 2 + |Wire(vs[..n])| > max >= 2
    ensures d < n && 2 + |Wire(vs[..d])| <= max < 2 + |Wire(vs[..d])| + |Print(vs[d])|
    decreases n
  {
    hide Print, Wire;
    NoWire();
    assert vs[..0] == [];
    if 2 + |Wire(vs[..n - 1])| <= max {
      d := n - 1;
      WireLast(vs, d);
    } else {
      d := FirstLeftOut(vs, n - 1, max);
    }
  }

  lemma WireLast(vs: seq<Value>, d: nat)
    requires AllPrintable(vs) && d < |vs|
    ensures |Wire(vs[..d + 1])| == |Wire(vs[..d])| + |Print(vs[d])|
  {
    var fs := PrintEach(vs[..d + 1]);
    WireSplit(vs[..d + 1], d);
    assert vs[..d + 1][..d] == vs[..d];
    assert fs[d] == Print(vs[d]);
    hide Print;
    Peel(fs, d);
    NoBytes(fs);
  }

  /** Where the receiver stands when the first `d` values are those sent and the next one was left out. */
  lemma StandsAt(ev: LogEvent, server: Text, max: nat, d: nat) returns (pos: nat)
    requires Sized(ev, server) && 2 <= max && d < |KINDS|
    requires var vs := Values(ev, server);
      AllPrintable(vs) && |vs| == |KINDS| && 2 + |Wire(vs[..d])| <= max < 2 + |Wire(vs[..d])| + |Print(vs[d])|
    ensures var vs, b := Values(ev, server), Message(ev, server, max);
      && pos <= |b| <= max < pos + |Print(vs[d])|
      && ReadValues(b, 2, 1, KINDS[..d]) == Some(Got(vs[..d], pos))
  {
    var vs, ws, b := Values(ev, server), Sent(ev, server, max), Message(ev, server, max);
    ValuesFit(ev, server);
    FittingFits(vs, 2, max);
    FittingPrefix(vs, 2, max, d);
    MessageIsSent(ev, server, max);
    hide Values, Wire, Fitting, Message, Print, ReadValues, Concat;
    assert ws[..d] == vs[..d];
    assert forall i :: 0 <= i < d ==> ws[i] == vs[i];
    pos := AlignedComeBack(b, ws, d);
    WireSplit(ws, d);
  }

  /** A text left out is longer than anything that can be read in its place. */
  lemma ShorterText(b: seq<Byte>, vs: seq<Value>, d: nat, pos: nat)
    requires d < |KINDS| == |vs| && KINDS[d] && vs[d].TextV? && vs[d].text != []
    requires pos <= |b| < pos + 4 + |vs[d].text|
    requires ReadValues(b, 2, 1, KINDS[..d]) == Some(Got(vs[..d], pos)) && ReadValues(b, 2, 1, KINDS).Some?
    ensures var rs := ReadValues(b, 2, 1, KINDS).value.value; rs[..d] == vs[..d] && |rs[d].text| < |vs[d].text|
  {
    hide ReadValues;
    assert KINDS[..|KINDS|] == KINDS;
    ReadsExtend(b, d, |KINDS|);
    ReadsExtend(b, d + 1, |KINDS|);
    ReadTakes(b, d);
    var rs := ReadValues(b, 2, 1, KINDS).value.value;
    assert rs[d] == rs[..d + 1][d];
  }

  /** Read in the place of a server name left out, server name and context are shorter together. */
  lemma ShorterPrefix(b: seq<Byte>, server: Text)
    requires 2 <= |b| < 6 + |server| && server != [] && ReadValues(b, 2, 1, KINDS).Some?
    ensures var rs := ReadValues(b, 2, 1, KINDS).value.value;
      |Prefixed(rs[0].text, rs[3].text)| < |server|
  {
    assert KINDS[..|KINDS|] == KINDS;
    hide ReadValues, Prefixed;
    ReadsExtend(b, 4, |KINDS|);
    OneFewer(b, 3);
    FirstAndFourth(b);
    var rs := ReadValues(b, 2, 1, KINDS).value.value;
    assert rs[0] == rs[..4][0] && rs[3] == rs[..4][3];
    PrefixedSize(rs[0].text, rs[3].text);
  }

  lemma PrefixedSize(server: Text, ndc: Text)
    ensures |Prefixed(server, ndc)| <= Takes(TextV(server)) + Takes(TextV(ndc))
    ensures server != [] || ndc != [] ==> |Prefixed(server, ndc)| + 4 <= Takes(TextV(server)) + Takes(TextV(ndc))
  {
  }

  /** Server name and context, as read, with their lengths lie in the buffer side by side. */
  lemma FirstAndFourth(b: seq<Byte>)
    requires 2 <= |b| && ReadValues(b, 2, 1, KINDS[..4]).Some? && ReadValues(b, 2, 1, KINDS[..3]).Some?
    ensures var rs := ReadValues(b, 2, 1, KINDS[..4]).value.value; 2 + Takes(rs[0]) + Takes(rs[3]) <= |b|
  {
    assert KINDS[..0] == [] && ReadValues(b, 2, 1, KINDS[..0]) == Some(Got([], 2));
    hide ReadValues, Takes;
    ReadsExtend(b, 1, 4);
    ReadTakes(b, 0);
    PositionGrows(b, 1, 3);
    ReadTakes(b, 3);
    var rs := ReadValues(b, 2, 1, KINDS[..4]).value.value;
    assert rs[0] == rs[..1][0];
  }

  lemma {:induction false} PositionGrows(b: seq<Byte>, i: nat, k: nat)
    requires i <= k <= |KINDS| && ReadValues(b, 2, 1, KINDS[..k]).Some?
    ensures ReadValues(b, 2, 1, KINDS[..i]).Some?
    ensures var p, q := ReadValues(b, 2, 1, KINDS[..i]).value.pos, ReadValues(b, 2, 1, KINDS[..k]).value.pos;
      p <= |b| ==> p <= q <= |b|
    decreases k
  {
    hide ReadValues, Takes;
    if i < k {
      ReadTakes(b, k - 1);
      PositionGrows(b, i, k - 1);
    }
  }

  lemma LostText(ev: LogEvent, server: Text, b: seq<Byte>, d: nat, pos: nat)
    requires Sized(ev, server) && d < |KINDS| && |b| >= 2 && b[0] == MESSAGE_VERSION && b[1] == 1
    requires var vs := Values(ev, server);
      && vs[d].TextV? && vs[d].text != [] && pos <= |b| < pos + 4 + |vs[d].text|
      && ReadValues(b, 2, 1, KINDS[..d]) == Some(Got(vs[..d], pos))
    ensures Decode(b) != Some(Received(ev, server))
  {
    ValuesFit(ev, server);
    BuildReceived(ev, server);
    DecodeIs(b);
    var vs := Values(ev, server);
    if d == 0 {
      assert KINDS[..0] == [] && vs[0] == TextV(server);
      assert pos == 2;
    }
    hide Values, Decode, ReadValues, Build, Received;
    if ReadValues(b, 2, 1, KINDS).Some? {
      ShorterText(b, vs, d, pos);
      var rs := ReadValues(b, 2, 1, KINDS).value.value;
      if d == 0 {
        ShorterPrefix(b, server);
      }
      assert d == 3 ==> rs[0] == rs[..d][0] == vs[..d][0];
      OtherEvent(vs, rs, d);
    }
  }

  /** Nothing fits behind a value of four bytes that was left out, and what is read instead is blank. */
  lemma LostRest(ev: LogEvent, server: Text, b: seq<Byte>, d: nat, pos: nat, m: nat)
    requires Sized(ev, server) && d <= m < |KINDS| && |b| >= 2 && b[0] == MESSAGE_VERSION && b[1] == 1
    requires var vs := Values(ev, server);
      && !Blank(vs[m]) && (d < m ==> Blank(vs[d]) || vs[d].IntV?) && pos <= |b| < pos + 4
      && ReadValues(b, 2, 1, KINDS[..d]) == Some(Got(vs[..d], pos))
    ensures Decode(b) != Some(Received(ev, server))
  {
    ValuesFit(ev, server);
    BuildReceived(ev, server);
    DecodeIs(b);
    var vs := Values(ev, server);
    assert Printable(vs[m]);
    hide Values, Decode, ReadValues, Build, Received;
    assert KINDS[..|KINDS|] == KINDS;
    ReadsBlanks(b, pos, d, |KINDS|);
    var rs := ReadValues(b, 2, 1, KINDS).value.value;
    assert 0 < d ==> rs[0] == rs[..d][0] == vs[..d][0];
    OtherEvent(vs, rs, m);
  }

  lemma LosesSomething(ev: LogEvent, server: Text, max: nat)
    requires Sized(ev, server) && 2 <= max && !Arrives(ev, server, max)
    ensures Decode(Message(ev, server, max)) != Some(Received(ev, server))
  {
    var vs, b := Values(ev, server), Message(ev, server, max);
    ValuesFit(ev, server);
    MessageIsSent(ev, server, max);
    var n := Needed(vs);
    hide Values, Wire, Message, Decode, Received, ReadValues, Sent;
    var d := FirstLeftOut(vs, n, max);
    var pos := StandsAt(ev, server, max, d);
    PrintSize(vs[d]);
    if vs[d].TextV? && vs[d].text != [] {
      LostText(ev, server, b, d, pos);
    } else {
      LostRest(ev, server, b, d, pos, n - 1);
    }
  }

  lemma PrintSize(v: Value)
    requires Printable(v)
    ensures |Print(v)| == if v.TextV? then 4 + |v.text| else 4
  {
  }

  /** For every event: it arrives with nothing but the NDC prefix exactly if its encoding fits up to the last
      value that is neither an empty text nor 0. Otherwise the server gets another event, or none. */
  lemma ArrivesIff(ev: LogEvent, server: Text, max: nat)
    requires Sized(ev, server) && 2 <= max
    ensures Decode(Message(ev, server, max)) == Some(Received(ev, server)) <==> Arrives(ev, server, max)
  {
    if Arrives(ev, server, max) {
      ArrivesIntact(ev, server, max);
    } else {
      LosesSomething(ev, server, max);
    }
  }

  /** In particular events arrive whose encodings fit. */
  lemma FittingArrives(ev: LogEvent, server: Text, max: nat)
    requires Sized(ev, server) && |Encode(ev, server)| <= max
    ensures Arrives(ev, server, max)
  {
    var vs := Values(ev, server);
    ValuesFit(ev, server);
    EncodeSplit(ev, server);
    hide Values, Encode, Concat;
    WireSplit(vs, Needed(vs));
  }

  // ----- end to end

  const LIMIT := MAX_MESSAGE_SIZE - 4

  /** The frames of some events, as they are sent. */
  ghost function SentFrames(evs: seq<LogEvent>, server: Text): seq<Byte>
    requires forall ev <- evs :: Sized(ev, server)
  {
    if evs == [] then []
    else
      MessageFits(evs[0], server, LIMIT);
      Frame(Message(evs[0], server, LIMIT)) + SentFrames(evs[1..], server)
  }

  lemma MessageFits(ev: LogEvent, server: Text, max: nat)
    requires Sized(ev, server) && 2 <= max
    ensures 2 <= |Message(ev, server, max)| <= max
  {
    MessageIsSent(ev, server, max);
    AppendAllIff(Fields(ev, server), max);
  }

  ghost predicate AllArrive(evs: seq<LogEvent>, server: Text)
    requires forall ev <- evs :: Sized(ev, server)
  {
    forall ev <- evs :: Arrives(ev, server, LIMIT)
  }

  lemma AllArriveFront(evs: seq<LogEvent>, server: Text)
    requires evs != [] && forall ev <- evs :: Sized(ev, server)
    ensures AllArrive(evs, server) <==> Arrives(evs[0], server, LIMIT) && AllArrive(evs[1..], server)
  {
    hide Arrives, Sized;
    assert evs[0] in evs && forall ev <- evs :: ev == evs[0] || ev in evs[1..];
  }

  lemma SameLists<T>(x: T, xs: seq<T>, y: T, ys: seq<T>)
    ensures [x] + xs == [y] + ys <==> x == y && xs == ys
  {
    assert ([x] + xs)[0] == x && ([y] + ys)[0] == y && ([x] + xs)[1..] == xs && ([y] + ys)[1..] == ys;
  }

  /** The server gets exactly what was to be received exactly if every event arrives. */
  lemma {:induction false} AllServedIff(evs: seq<LogEvent>, server: Text)
    requires forall ev <- evs :: Sized(ev, server)
    ensures Served(SentFrames(evs, server)) == ReceivedAll(evs, server) <==> AllArrive(evs, server)
    decreases |evs|
  {
    if evs != [] {
      var ev, rest := evs[0], SentFrames(evs[1..], server);
      var m := Message(ev, server, LIMIT);
      MessageFits(ev, server, LIMIT);
      AllArriveFront(evs, server);
      assert SentFrames(evs, server) == Frame(m) + rest;
      assert ReceivedAll(evs, server) == [Received(ev, server)] + ReceivedAll(evs[1..], server);
      hide *;
      ServedFrame(m, rest);
      ArrivesIff(ev, server, LIMIT);
      AllServedIff(evs[1..], server);
      if Decode(m).Some? {
        SameLists(Decode(m).value, Served(rest), Received(ev, server), ReceivedAll(evs[1..], server));
      }
    }
  }

  /** From the appender to the loggers of the server, however the stream is chopped up on the way: the events
      are received in order, each with nothing but the NDC prefix, exactly if every one of them arrives. */
  method SendAndServe(evs: seq<LogEvent>, server: Text, chop: nat -> nat) returns (events: seq<LogEvent>)
    requires forall ev <- evs :: Sized(ev, server)
    ensures events == ReceivedAll(evs, server) <==> AllArrive(evs, server)
    ensures AllArrive(evs, server) ==>
      |events| == |evs| && forall i :: 0 <= i < |evs| ==> SameEvent(evs[i], server, events[i])
  {
    ReceivedAllSame(evs, server);
    var stream: seq<Byte> := [];
    assert evs[0..] == evs;
    assert SentFrames([], server) == [];
    hide SameEvent, Sized, AllArrive, Served, ReceivedAll, SentFrames, Message, Frame, Encode;
    for i := 0 to |evs|
      invariant stream + SentFrames(evs[i..], server) == SentFrames(evs, server)
    {
      assert evs[i] in evs;
      var sent := AppendEvent(evs[i], server);
      FramesSent(evs[i..], server, sent);
      Associative(stream, sent, SentFrames(evs[i + 1..], server));
      stream := stream + sent;
    }
    assert evs[|evs|..] == [] && stream + [] == stream;
    AllServedIff(evs, server);
    var c := new Connection(stream, chop);
    events := Run(c);
  }

  lemma {:induction false} ReceivedAllSame(evs: seq<LogEvent>, server: Text)
    ensures var got := ReceivedAll(evs, server);
      |got| == |evs| && forall i :: 0 <= i < |evs| ==> SameEvent(evs[i], server, got[i])
    decreases |evs|
  {
    hide SameEvent, Received;
    if evs != [] {
      ReceivedIsSame(evs[0], server);
      ReceivedAllSame(evs[1..], server);
    }
  }

  lemma FramesSent(evs: seq<LogEvent>, server: Text, sent: seq<Byte>)
    requires evs != [] && forall ev <- evs :: Sized(ev, server)
    requires 4 <= |sent| < TWO32 && sent == Frame(sent[4..])
    requires sent[4..] == AppendAll([], Fields(evs[0], server), LIMIT)
    ensures SentFrames(evs, server) == sent + SentFrames(evs[1..], server)
  {
  }
}
