/** Log events too long for a message: what the sender leaves out, and which of them end the connection
    because the receiver takes an integer for the length of a string. */
module TruncatedEvents {
  import opened Options
  import opened SocketBuffers
  import opened LogEvents
  import opened LoggingServer

  ghost predicate AllPrintable(vs: seq<Value>) {
    forall v :: v in vs ==> Printable(v)
  }

  /** The values on the wire, printed one after the other. */
  ghost function Wire(vs: seq<Value>): seq<Byte>
    requires AllPrintable(vs)
  {
    Concat(PrintEach(vs))
  }

  // ----- what is left out

  /** The values that still fit when `used` bytes are taken. */
  ghost function Fitting(vs: seq<Value>, used: nat, max: nat): (r: seq<Value>)
    requires AllPrintable(vs)
    ensures AllPrintable(r)
  {
    if vs == [] then []
    else if used + |Print(vs[0])| <= max then [vs[0]] + Fitting(vs[1..], used + |Print(vs[0])|, max)
    else Fitting(vs[1..], used, max)
  }

  lemma {:induction false} AppendFront(c: seq<Byte>, fs: seq<seq<Byte>>, max: nat)
    requires fs != []
    ensures AppendAll(c, fs, max) == AppendAll(Fitted(c, fs[0], max), fs[1..], max)
    decreases |fs|
  {
    if |fs| > 1 {
      AppendFront(c, fs[..|fs| - 1], max);
      assert fs[..|fs| - 1][1..] == fs[1..][..|fs| - 2];
    }
  }

  lemma WireFront(vs: seq<Value>)
    requires AllPrintable(vs) && vs != []
    ensures Wire(vs) == Print(vs[0]) + Wire(vs[1..]) && PrintEach(vs)[1..] == PrintEach(vs[1..])
  {
    hide Print;
    assert PrintEach(vs)[0] == Print(vs[0]) && PrintEach(vs)[1..] == PrintEach(vs[1..]);
  }

  /** Appending value after value leaves the fitting ones behind what was there. */
  lemma {:induction false} AppendsFitting(c: seq<Byte>, vs: seq<Value>, max: nat)
    requires AllPrintable(vs)
    ensures AppendAll(c, PrintEach(vs), max) == c + Wire(Fitting(vs, |c|, max))
    decreases |vs|
  {
    hide Print;
    if vs != [] {
      AppendFront(c, PrintEach(vs), max);
      WireFront(vs);
      var p := Print(vs[0]);
      if |c| + |p| <= max {
        AppendsFitting(c + p, vs[1..], max);
        var more := Fitting(vs[1..], |c| + |p|, max);
        WireFront([vs[0]] + more);
        Associative(c, p, Wire(more));
      } else {
        AppendsFitting(c, vs[1..], max);
      }
    }
  }

  /** The values of an event that reach the buffer, behind version and character size. */
  ghost function Sent(ev: LogEvent, server: Text, max: nat): (ws: seq<Value>)
    requires Sized(ev, server)
    ensures AllPrintable(ws)
  {
    ValuesFit(ev, server);
    Fitting(Values(ev, server), 2, max)
  }

  /** What `convertToBuffer` leaves in a buffer of `max` bytes. */
  ghost function Message(ev: LogEvent, server: Text, max: nat): seq<Byte>
    requires Sized(ev, server)
  {
    AppendAll([], Fields(ev, server), max)
  }

  lemma MessageIsSent(ev: LogEvent, server: Text, max: nat)
    requires Sized(ev, server) && 2 <= max
    ensures Message(ev, server, max) == [MESSAGE_VERSION, 1] + Wire(Sent(ev, server, max))
  {
    ValuesFit(ev, server);
    var vs, fs := Values(ev, server), Fields(ev, server);
    var rest := fs[1..];
    assert fs[0] == [MESSAGE_VERSION] && rest[0] == [1] && rest[1..] == PrintEach(vs);
    hide Values, AppendAll, Wire, Fitting, Fields, PrintEach;
    AppendFront([], fs, max);
    AppendFront([MESSAGE_VERSION], rest, max);
    assert [] + [MESSAGE_VERSION] == [MESSAGE_VERSION] && [MESSAGE_VERSION] + [1] == [MESSAGE_VERSION, 1];
    AppendsFitting([MESSAGE_VERSION, 1], vs, max);
  }

  // ----- which kinds of values arrive

  ghost function Kinds(ws: seq<Value>): seq<bool> {
    seq(|ws|, i requires 0 <= i < |ws| => ws[i].TextV?)
  }

  /** `ws` is `ks` without some of its texts, and cut short somewhere. */
  ghost predicate Thinned(ks: seq<bool>, ws: seq<bool>) {
    ws == [] || (ks != [] && ((ws[0] == ks[0] && Thinned(ks[1..], ws[1..])) || (ks[0] && Thinned(ks[1..], ws))))
  }

  /** Every value takes four bytes or more, so nothing fits any more behind an integer left out. */
  lemma {:induction false} NothingFits(vs: seq<Value>, used: nat, max: nat)
    requires AllPrintable(vs) && used + 4 > max
    ensures Fitting(vs, used, max) == []
    decreases |vs|
  {
    if vs != [] {
      NothingFits(vs[1..], used, max);
    }
  }

  lemma {:induction false} FittingThins(vs: seq<Value>, used: nat, max: nat)
    requires AllPrintable(vs)
    ensures Thinned(Kinds(vs), Kinds(Fitting(vs, used, max)))
    decreases |vs|
  {
    NoKinds();
    if vs != [] {
      var k, p := vs[0].TextV?, |Print(vs[0])|;
      KindsFront(vs);
      FittingFront(vs, used, max);
      hide Kinds, Thinned, Print, Printable, Fitting;
      if used + p <= max {
        var more := Fitting(vs[1..], used + p, max);
        FittingThins(vs[1..], used + p, max);
        KindsOf(vs[0], more);
        ThinnedFront(k, Kinds(vs[1..]), Kinds(more));
      } else {
        FittingThins(vs[1..], used, max);
        ThinnedFront(k, Kinds(vs[1..]), Kinds(Fitting(vs[1..], used, max)));
      }
    }
  }

  lemma FittingFront(vs: seq<Value>, used: nat, max: nat)
    requires AllPrintable(vs) && vs != []
    ensures used + |Print(vs[0])| <= max ==>
      Fitting(vs, used, max) == [vs[0]] + Fitting(vs[1..], used + |Print(vs[0])|, max)
    ensures used + |Print(vs[0])| > max ==> Fitting(vs, used, max) == Fitting(vs[1..], used, max)
    ensures used + |Print(vs[0])| > max && vs[0].IntV? ==> Fitting(vs, used, max) == []
  {
    if used + |Print(vs[0])| > max && vs[0].IntV? {
      NothingFits(vs, used, max);
    }
  }

  lemma KindsOf(v: Value, ws: seq<Value>)
    ensures Kinds([v] + ws) == [v.TextV?] + Kinds(ws)
  {
  }

  lemma KindsFront(ws: seq<Value>)
    requires ws != []
    ensures Kinds(ws) == [ws[0].TextV?] + Kinds(ws[1..])
  {
  }

  lemma NoKinds()
    ensures Kinds([]) == [] && forall ks :: Thinned(ks, [])
  {
  }

  lemma ThinnedFront(k: bool, ks: seq<bool>, ws: seq<bool>)
    requires Thinned(ks, ws)
    ensures Thinned([k] + ks, [k] + ws) && (k ==> Thinned([k] + ks, ws))
  {
    assert ([k] + ks)[1..] == ks && ([k] + ws)[1..] == ws;
  }

  ghost function Ints(ks: seq<bool>): nat {
    if ks == [] then 0 else (if ks[0] then 0 else 1) + Ints(ks[1..])
  }

  lemma {:induction false} IntsGrow(ks: seq<bool>, j: nat, i: nat)
    requires j < i <= |ks| && !ks[j]
    ensures Ints(ks[..j]) < Ints(ks[..i])
    decreases j
  {
    if j > 0 {
      IntsGrow(ks[1..], j - 1, i - 1);
      assert ks[..j][1..] == ks[1..][..j - 1];
    }
    assert ks[..i][1..] == ks[1..][..i - 1];
  }

  /** No integer is missing before a value that arrives. */
  lemma {:induction false} ThinnedFrom(ks: seq<bool>, ws: seq<bool>, j: nat) returns (i: nat)
    requires Thinned(ks, ws) && j < |ws|
    ensures j <= i < |ks| && ks[i] == ws[j] && Ints(ks[..i]) == Ints(ws[..j])
    decreases |ks|
  {
    if ws[0] == ks[0] && Thinned(ks[1..], ws[1..]) {
      if j == 0 {
        i := 0;
      } else {
        i := ThinnedFrom(ks[1..], ws[1..], j - 1);
        i := i + 1;
        assert ks[..i][1..] == ks[1..][..i - 1] && ws[..j][1..] == ws[1..][..j - 1];
      }
    } else {
      i := ThinnedFrom(ks[1..], ws, j);
      i := i + 1;
      assert ks[..i][1..] == ks[1..][..i - 1];
    }
  }

  /** The first value of the wrong kind is an integer where a text is due. */
  lemma FirstWrongIsInt(ks: seq<bool>, ws: seq<bool>, j: nat)
    requires Thinned(ks, ws) && j < |ws| && ws[..j] <= ks && (j < |ks| ==> ws[j] != ks[j])
    ensures j < |ks| && ks[j] && !ws[j]
  {
    var i := ThinnedFrom(ks, ws, j);
    assert ks[..j] == ws[..j];
    if !ks[j] {
      IntsGrow(ks, j, i);
    }
  }

  // ----- reading what arrives

  /** How many of the values are of the kind the receiver expects. */
  ghost function Aligned(ws: seq<Value>, j: nat): (r: nat)
    requires j <= |ws| && j <= |KINDS|
    ensures j <= r <= |ws| && r <= |KINDS|
    ensures r < |ws| && r < |KINDS| ==> ws[r].TextV? != KINDS[r]
    ensures forall i :: j <= i < r ==> ws[i].TextV? == KINDS[i]
    decreases |ws| - j
  {
    if j == |ws| || j == |KINDS| || ws[j].TextV? != KINDS[j] then j else Aligned(ws, j + 1)
  }

  /** The aligned values are read back. */
  lemma AlignedComeBack(b: seq<Byte>, ws: seq<Value>, j: nat) returns (pos: nat)
    requires AllPrintable(ws) && b == [MESSAGE_VERSION, 1] + Wire(ws)
    requires j <= |ws| && j <= |KINDS| && forall i :: 0 <= i < j ==> ws[i].TextV? == KINDS[i]
    ensures pos <= |b| && b[pos..] == Concat(PrintEach(ws)[j..])
    ensures ReadValues(b, 2, 1, KINDS[..j]) == Some(Got(ws[..j], pos))
  {
    hide Print, ReadValues, Concat;
    var kinds := Kinds(ws);
    assert b[2..] == Wire(ws);
    pos := ValuesComeBack(b, 2, ws, kinds, j);
    assert kinds[..j] == KINDS[..j];
  }

  lemma NothingAt(b: seq<Byte>, pos: nat)
    requires |b| < pos + 4 && pos <= |b|
    ensures ReadStringAt(b, pos, 1) == Some(Got([], pos)) && ReadIntAt(b, pos) == Got(0, pos)
  {
  }

  /** With less than a length left, reading goes on and finds nothing. */
  lemma {:induction false} ReadsNothing(b: seq<Byte>, pos: nat, i: nat, k: nat)
    requires i <= k <= |KINDS| && pos <= |b| < pos + 4
    requires ReadValues(b, 2, 1, KINDS[..i]).Some? && ReadValues(b, 2, 1, KINDS[..i]).value.pos == pos
    ensures ReadValues(b, 2, 1, KINDS[..k]).Some? && ReadValues(b, 2, 1, KINDS[..k]).value.pos == pos
    decreases k
  {
    if i < k {
      ReadsNothing(b, pos, i, k - 1);
      NothingAt(b, pos);
      hide ReadValues, ReadStringAt, ReadIntAt;
      if KINDS[k - 1] {
        ReadsOneMore(b, k - 1, ReadValues(b, 2, 1, KINDS[..k - 1]).value);
      } else {
        ReadsInteger(b, k - 1, ReadValues(b, 2, 1, KINDS[..k - 1]).value);
      }
    }
  }

  lemma DecodeSome(b: seq<Byte>)
    requires |b| >= 2 && b[0] == MESSAGE_VERSION && b[1] == 1
    ensures Decode(b) == None <==> ReadValues(b, 2, 1, KINDS) == None
  {
  }

  /** An integer taken for the length of a string throws exactly if it is not 0 and nothing follows it; one
      that exceeds what follows consumes all but a byte of it. */
  lemma Misread(b: seq<Byte>, pos: nat, u: int, tail: seq<Byte>)
    requires 0 <= u < TWO32 && pos <= |b| && b[pos..] == IntBytes(u) + tail
    ensures ReadStringAt(b, pos, 1) == None <==> tail == [] && 0 < u
    ensures |tail| < u && tail != [] ==>
      ReadStringAt(b, pos, 1).Some? && ReadStringAt(b, pos, 1).value.pos == |b| - 1
    ensures u == 0 ==> ReadStringAt(b, pos, 1) == Some(Got([], pos + 4))
  {
    hide IntBytes, IntOf;
    IntComesBack(b, pos, u, tail);
  }

  lemma ReadsOneMore(b: seq<Byte>, j: nat, before: Got<seq<Value>>)
    requires j < |KINDS| && KINDS[j] && ReadValues(b, 2, 1, KINDS[..j]) == Some(before)
    ensures var s := ReadStringAt(b, before.pos, 1);
      if s.None? then ReadValues(b, 2, 1, KINDS[..j + 1]) == None
      else ReadValues(b, 2, 1, KINDS[..j + 1]).Some? && ReadValues(b, 2, 1, KINDS[..j + 1]).value.pos == s.value.pos
  {
    hide ReadStringAt;
    assert KINDS[..j + 1][..j] == KINDS[..j];
  }

  /** Decoding what arrives of an event: all aligned, fine; a wrong integer at the end, fine exactly if it
      is 0; a wrong integer that exceeds what follows it, fine. */
  lemma DecodeWire(b: seq<Byte>, ws: seq<Value>)
    requires AllPrintable(ws) && b == [MESSAGE_VERSION, 1] + Wire(ws) && Thinned(KINDS, Kinds(ws))
    ensures var j := Aligned(ws, 0);
      && (j == |ws| ==> Decode(b).Some?)
      && (j < |ws| ==> j < |KINDS| && ws[j].IntV?)
      && (j == |ws| - 1 ==> (Decode(b) == None <==> ws[j].number > 0))
      && (j < |ws| - 1 && ws[j].number > |Wire(ws[j + 1..])| ==> Decode(b).Some?)
  {
    hide Print, ReadValues, Decode, ReadStringAt, Thinned, Concat;
    var j := Aligned(ws, 0);
    var pos := AlignedComeBack(b, ws, j);
    DecodeSome(b);
    assert KINDS[..|KINDS|] == KINDS;
    if j == |ws| {
      NoBytes(PrintEach(ws));
      ReadsNothing(b, pos, j, |KINDS|);
    } else {
      WrongInteger(b, ws, j, pos);
    }
  }

  lemma NoBytes(fs: seq<seq<Byte>>)
    ensures Concat(fs[|fs|..]) == []
  {
  }

  lemma WrongInteger(b: seq<Byte>, ws: seq<Value>, j: nat, pos: nat)
    requires AllPrintable(ws) && |b| >= 2 && b[0] == MESSAGE_VERSION && b[1] == 1 && Thinned(KINDS, Kinds(ws))
    requires j == Aligned(ws, 0) < |ws| && pos <= |b| && b[pos..] == Concat(PrintEach(ws)[j..])
    requires ReadValues(b, 2, 1, KINDS[..j]) == Some(Got(ws[..j], pos))
    ensures j < |KINDS| && ws[j].IntV?
    ensures j == |ws| - 1 ==> (Decode(b) == None <==> ws[j].number > 0)
    ensures j < |ws| - 1 && ws[j].number > |Wire(ws[j + 1..])| ==> Decode(b).Some?
  {
    hide ReadValues, Decode, ReadStringAt, Thinned, Concat, IntBytes;
    assert Kinds(ws)[..j] == KINDS[..j];
    FirstWrongIsInt(KINDS, Kinds(ws), j);
    var u, tail := ws[j].number, Wire(ws[j + 1..]);
    assert ws[j] in ws && Printable(ws[j]);
    Peel(PrintEach(ws), j);
    assert PrintEach(ws)[j + 1..] == PrintEach(ws[j + 1..]);
    TailEmptyIff(ws[j + 1..]);
    Misread(b, pos, u, tail);
    ReadsOneMore(b, j, Got(ws[..j], pos));
    DecodeSome(b);
    assert KINDS[..|KINDS|] == KINDS;
    if ReadValues(b, 2, 1, KINDS[..j + 1]) == None {
      NoMoreValues(b, 2, 1, j + 1, |KINDS|);
    } else if tail == [] {
      assert |b[pos..]| == 4;
      ReadsNothing(b, pos + 4, j + 1, |KINDS|);
    } else if |tail| < u {
      ReadsNothing(b, |b| - 1, j + 1, |KINDS|);
    }
  }

  lemma TailEmptyIff(ws: seq<Value>)
    requires AllPrintable(ws)
    ensures Wire(ws) == [] <==> ws == []
  {
    if ws != [] {
      WireFront(ws);
    }
  }

  // ----- which events are not decoded

  /** For every event: with `j` values of the right kind arriving, the server cannot decode what arrives if
      the next value is the last one and not 0, and can if it is 0 or exceeds what is behind it. */
  lemma UndecodableIff(ev: LogEvent, server: Text, max: nat)
    requires Sized(ev, server) && 2 <= max
    ensures var ws, m := Sent(ev, server, max), Message(ev, server, max);
      var j := Aligned(ws, 0);
      && (j < |ws| ==> ws[j].IntV?)
      && (j >= |ws| - 1 || ws[j].number > |Wire(ws[j + 1..])| ==>
            (Decode(m) == None <==> j == |ws| - 1 && ws[j].number > 0))
  {
    hide Values, Wire, Decode, Aligned, Sent, Message, Thinned, Kinds, Sized, AllPrintable;
    MessageIsSent(ev, server, max);
    SentThins(ev, server, max);
    DecodeWire(Message(ev, server, max), Sent(ev, server, max));
  }

  lemma SentThins(ev: LogEvent, server: Text, max: nat)
    requires Sized(ev, server)
    ensures Thinned(KINDS, Kinds(Sent(ev, server, max)))
  {
    ValuesFit(ev, server);
    assert Kinds(Values(ev, server)) == KINDS;
    hide Values, Thinned;
    FittingThins(Values(ev, server), 2, max);
  }

  lemma {:induction false} FittingPrefix(vs: seq<Value>, used: nat, max: nat, k: nat)
    requires AllPrintable(vs) && k <= |vs| && used + |Wire(vs[..k])| <= max
    ensures Fitting(vs, used, max) == vs[..k] + Fitting(vs[k..], used + |Wire(vs[..k])|, max)
    decreases k
  {
    hide Print;
    if k == 0 {
      assert vs[0..] == vs;
    } else {
      var p := |Print(vs[0])|;
      WireFront(vs[..k]);
      assert vs[..k][1..] == vs[1..][..k - 1] && vs[1..][k - 1..] == vs[k..];
      FittingPrefix(vs[1..], used + p, max, k - 1);
    }
  }

  /** Where the file name starts in the encoding of an event. */
  function FileAt(ev: LogEvent, server: Text): nat {
    34 + |server| + |ev.logger| + |ev.ndc| + |ev.message| + |ev.thread|
  }

  lemma HeadSize(ev: LogEvent, server: Text)
    requires Sized(ev, server)
    ensures var head := Values(ev, server)[..8]; AllPrintable(head) && 2 + |Wire(head)| == FileAt(ev, server)
  {
    ValuesFit(ev, server);
    var head := Values(ev, server)[..8];
    assert head[3..] == [TextV(ev.ndc), TextV(ev.message), TextV(ev.thread), IntV(ToUnsigned(ev.sec)),
                         IntV(ToUnsigned(ev.usec))];
    var fs := PrintEach(head);
    assert |fs[2]| == |fs[6]| == |fs[7]| == 4;
    hide Concat, IntBytes, Values;
    EightSizes(fs);
  }

  lemma EightSizes(fs: seq<seq<Byte>>)
    requires |fs| == 8
    ensures |Concat(fs)| ==
            |fs[0]| + |fs[1]| + |fs[2]| + |fs[3]| + |fs[4]| + |fs[5]| + |fs[6]| + |fs[7]|
  {
    hide Concat;
    assert fs[0..] == fs;
    Peel(fs, 0);
    Peel(fs, 1);
    Peel(fs, 2);
    Peel(fs, 3);
    Peel(fs, 4);
    Peel(fs, 5);
    Peel(fs, 6);
    Peel(fs, 7);
    NoBytes(fs);
  }

  /** The last three fields: file name, line and function. */
  lemma LastThree(ev: LogEvent, server: Text, max: nat)
    requires Sized(ev, server) && FileAt(ev, server) <= max
    ensures var vs := Values(ev, server); var head := vs[..8];
      && AllPrintable(vs)
      && Sent(ev, server, max) == head + Fitting(vs[8..], FileAt(ev, server), max)
      && vs[8..] == [TextV(ev.file), IntV(ToUnsigned(ev.line)), TextV(ev.function_)]
  {
    var vs := Values(ev, server);
    ValuesFit(ev, server);
    HeadSize(ev, server);
    assert vs[8..] == [TextV(ev.file), IntV(ToUnsigned(ev.line)), TextV(ev.function_)];
    hide Values, Wire;
    FittingPrefix(vs, 2, max, 8);
  }

  /** Which of the last three fields are sent. */
  lemma LastFitting(file: Text, u: int, fn: Text, at: nat, max: nat)
    requires |file| < TWO32 && 0 <= u < TWO32 && |fn| < TWO32 && at <= max
    ensures var vs := [TextV(file), IntV(u), TextV(fn)]; var r := Fitting(vs, at, max);
      && AllPrintable(vs)
      && (at + 4 + |file| > max && at + 4 > max ==> r == [])
      && (at + 4 + |file| > max && at + 4 <= max < at + 8 + |fn| ==> r == [IntV(u)])
      && (at + 4 + |file| > max && at + 8 + |fn| <= max ==> r == [IntV(u), TextV(fn)])
      && (at + 4 + |file| <= max ==> r <= vs)
  {
    var f, i, g := TextV(file), IntV(u), TextV(fn);
    assert Printable(f) && Printable(i) && Printable(g);
    assert [f, i, g] == [f] + [i, g];
    FittingStep(f, [i, g], at, max);
    if at + 4 + |file| <= max {
      LastTwo(u, fn, at + 4 + |file|, max);
    } else {
      LastTwo(u, fn, at, max);
    }
  }

  lemma LastTwo(u: int, fn: Text, at: nat, max: nat)
    requires 0 <= u < TWO32 && |fn| < TWO32
    ensures var vs := [IntV(u), TextV(fn)];
      && AllPrintable(vs)
      && Fitting(vs, at, max) ==
         if at + 4 > max then [] else if at + 8 + |fn| > max then [IntV(u)] else vs
  {
    var i, g := IntV(u), TextV(fn);
    assert Printable(i) && Printable(g);
    assert [i, g] == [i] + [g] && [g] == [g] + [];
    FittingStep(i, [g], at, max);
    FittingStep(g, [], at, max);
    FittingStep(g, [], at + 4, max);
    hide Printable;
    assert forall used: nat :: Fitting([], used, max) == [];
  }

  lemma FittingStep(v: Value, vs: seq<Value>, used: nat, max: nat)
    requires Printable(v) && AllPrintable(vs)
    ensures AllPrintable([v] + vs)
    ensures var size := if v.TextV? then 4 + |v.text| else 4;
      Fitting([v] + vs, used, max) ==
      if used + size <= max then [v] + Fitting(vs, used + size, max) else Fitting(vs, used, max)
  {
    assert ([v] + vs)[1..] == vs;
  }

  /** Values all of the right kind. */
  lemma AllAligned(ws: seq<Value>)
    requires |ws| <= |KINDS| && forall i :: 0 <= i < |ws| ==> ws[i].TextV? == KINDS[i]
    ensures Aligned(ws, 0) == |ws|
  {
  }

  /** The line number taken for the length of the file name, when that is not longer than what follows: the
      rest is decoded unless it ends right behind what is taken for the length of the function name. */
  lemma ShortFile(b: seq<Byte>, before: Got<seq<Value>>, u: int, fn: Text)
    requires |b| >= 2 && b[0] == MESSAGE_VERSION && b[1] == 1 && |fn| < TWO32 && 0 <= u <= 4 + |fn|
    requires ReadValues(b, 2, 1, KINDS[..8]) == Some(before) && before.pos <= |b|
    requires u < TWO32 && b[before.pos..] == IntBytes(u) + Str(fn)
    ensures Decode(b) == None <==> u == |fn| - 4 && IntOf(fn[u..]) > 0
  {
    hide ReadValues, Decode, IntBytes, IntOf;
    var pos := before.pos;
    IntComesBack(b, pos, u, Str(fn));
    ReadsOneMore(b, 8, before);
    var p := pos + 4 + u;
    assert |b| == pos + 8 + |fn|;
    var got := ReadValues(b, 2, 1, KINDS[..9]).value;
    assert got.pos == p;
    ReadsInteger(b, 9, got);
    var q := ReadValues(b, 2, 1, KINDS[..10]).value;
    ReadsOneMore(b, 10, q);
    ReadStringThrowsIff(b, q.pos, 1);
    DecodeSome(b);
    assert KINDS[..11] == KINDS;
    if u == |fn| - 4 {
      LastFour(b, pos, u, fn);
    }
  }

  lemma LastFour(b: seq<Byte>, pos: nat, u: nat, fn: Text)
    requires pos <= |b| && u == |fn| - 4 && u < TWO32 && |fn| < TWO32 && b[pos..] == IntBytes(u) + Str(fn)
    ensures pos + 12 + u == |b| && b[pos + 8 + u..pos + 12 + u] == fn[u..]
  {
    hide IntBytes;
    assert b[pos..] == IntBytes(u) + IntBytes(|fn|) + fn;
    assert b[pos + 8 + u..] == b[pos..][8 + u..];
  }

  lemma ReadsInteger(b: seq<Byte>, j: nat, before: Got<seq<Value>>)
    requires j < |KINDS| && !KINDS[j] && ReadValues(b, 2, 1, KINDS[..j]) == Some(before)
    ensures ReadValues(b, 2, 1, KINDS[..j + 1]).Some?
    ensures ReadValues(b, 2, 1, KINDS[..j + 1]).value.pos == ReadIntAt(b, before.pos).pos
  {
    hide ReadIntAt, ReadStringAt;
    assert KINDS[..j + 1][..j] == KINDS[..j];
  }

  /** An event whose file name does not fit although line number and perhaps function name do. */
  ghost predicate LosesFile(ev: LogEvent, server: Text, max: nat) {
    FileAt(ev, server) + 4 <= max < FileAt(ev, server) + 4 + |ev.file|
  }

  /** Exactly which events that fit up to their time stamp cannot be decoded: the file name is left out, and
      either the function name too and the line number is not 0, or the line number is four less than the
      length of the function name and the last four characters of that are not all NUL. */
  lemma UndecodableAtFileIff(ev: LogEvent, server: Text, max: nat)
    requires Sized(ev, server) && FileAt(ev, server) <= max
    ensures var u, n, fn := ToUnsigned(ev.line), FileAt(ev, server), ev.function_;
      Decode(Message(ev, server, max)) == None <==>
      LosesFile(ev, server, max) &&
      if n + 8 + |fn| > max then u != 0 else u == |fn| - 4 && IntOf(fn[u..]) > 0
  {
    var n, u, fn := FileAt(ev, server), ToUnsigned(ev.line), ev.function_;
    SentAtFile(ev, server, max);
    hide Values, Decode, Message, Sent, FileAt, ToUnsigned, Aligned, Wire, IntOf;
    var ws := Sent(ev, server, max);
    UndecodableIff(ev, server, max);
    if !LosesFile(ev, server, max) {
      AllAligned(ws);
    } else {
      AlignedHead(ws);
      if n + 8 + |fn| <= max {
        FileMissing(ev, server, max, ws, u, fn);
      }
    }
  }

  /** What is sent of an event that fits up to its time stamp. */
  lemma SentAtFile(ev: LogEvent, server: Text, max: nat)
    requires Sized(ev, server) && FileAt(ev, server) <= max
    ensures var n, u, fn, ws := FileAt(ev, server), ToUnsigned(ev.line), ev.function_, Sent(ev, server, max);
      && 8 <= |ws| <= 11 && (forall i :: 0 <= i < 8 ==> ws[i].TextV? == KINDS[i])
      && (!LosesFile(ev, server, max) ==> forall i :: 0 <= i < |ws| ==> ws[i].TextV? == KINDS[i])
      && (LosesFile(ev, server, max) ==> ws[8..] == [IntV(u)] + if n + 8 + |fn| > max then [] else [TextV(fn)])
  {
    var n, u, fn := FileAt(ev, server), ToUnsigned(ev.line), ev.function_;
    var vs := Values(ev, server);
    ValuesFit(ev, server);
    LastThree(ev, server, max);
    LastFitting(ev.file, u, fn, n, max);
    hide Values, Sent, Fitting, FileAt, ToUnsigned;
    var head, r, ws := vs[..8], Fitting(vs[8..], n, max), Sent(ev, server, max);
    assert forall i :: 0 <= i < 8 ==> ws[i] == vs[i];
    assert ws[8..] == r;
    if !LosesFile(ev, server, max) {
      assert forall i :: 8 <= i < |ws| ==> ws[i] == r[i - 8] == vs[8..][i - 8] == vs[i];
    }
  }

  lemma AlignedHead(ws: seq<Value>)
    requires 8 < |ws| && ws[8..][0].IntV? && forall i :: 0 <= i < 8 ==> ws[i].TextV? == KINDS[i]
    ensures Aligned(ws, 0) == 8
  {
    assert ws[8] == ws[8..][0];
  }

  lemma FileMissing(ev: LogEvent, server: Text, max: nat, ws: seq<Value>, u: int, fn: Text)
    requires Sized(ev, server) && 2 <= max && 0 <= u < TWO32 && |fn| < TWO32
    requires ws == Sent(ev, server, max) && |ws| == 10 && ws[8..] == [IntV(u), TextV(fn)]
    requires forall i :: 0 <= i < 8 ==> ws[i].TextV? == KINDS[i]
    ensures Decode(Message(ev, server, max)) == None <==> u == |fn| - 4 && IntOf(fn[u..]) > 0
  {
    hide Decode, Message, Sent, Aligned, ReadValues, IntOf, IntBytes, Concat;
    var b := Message(ev, server, max);
    MessageIsSent(ev, server, max);
    assert ws[8] == ws[8..][0] && ws[9] == ws[8..][1];
    AlignedHead(ws);
    var fs := PrintEach(ws);
    Peel(fs, 8);
    Peel(fs, 9);
    NoBytes(fs);
    assert fs[8] == IntBytes(u) && fs[9] == Str(fn) && fs[9] + [] == fs[9];
    if u <= 4 + |fn| {
      var pos := AlignedComeBack(b, ws, 8);
      ShortFile(b, Got(ws[..8], pos), u, fn);
    } else {
      assert PrintEach(ws[9..]) == fs[9..];
      UndecodableIff(ev, server, max);
    }
  }

  // ----- what an undecodable event costs

  /** The events sent before it are served; it ends the connection, and nothing behind it is served. */
  lemma ConnectionLost(evs: seq<LogEvent>, server: Text, bad: LogEvent, more: seq<Byte>)
    requires forall ev :: ev in evs ==> Sized(ev, server) && |Encode(ev, server)| < TWO32
    requires Sized(bad, server) && Decode(Message(bad, server, MAX_MESSAGE_SIZE - 4)) == None
    ensures 0 < |Message(bad, server, MAX_MESSAGE_SIZE - 4)| < TWO32
    ensures Served(FrameAll(evs, server) + (Frame(Message(bad, server, MAX_MESSAGE_SIZE - 4)) + more)) ==
            ReceivedAll(evs, server)
  {
    var max := MAX_MESSAGE_SIZE - 4;
    AppendAllIff(Fields(bad, server), max);
    MessageIsSent(bad, server, max);
    hide Decode, Served, ReceivedAll, FrameAll, Encode, Wire, AppendAll, Fields;
    var m := Message(bad, server, max);
    ServedFrame(m, more);
    FramesComeThrough(evs, server, Frame(m) + more);
    assert ReceivedAll(evs, server) + [] == ReceivedAll(evs, server);
  }

  /** For instance: no names, a message of 8150 characters, a file name of 5, and any line but 0. */
  lemma LongMessageLosesConnection(ev: LogEvent, more: seq<Byte>)
    requires ev.logger == ev.ndc == ev.thread == ev.function_ == [] && |ev.message| == 8150 && |ev.file| == 5
    requires 0 < ev.line < 0x8000_0000
    ensures Sized(ev, []) && |Message(ev, [], MAX_MESSAGE_SIZE - 4)| < TWO32
    ensures Served(Frame(Message(ev, [], MAX_MESSAGE_SIZE - 4)) + more) == []
  {
    hide Decode, Served, Message, Frame;
    UndecodableAtFileIff(ev, [], MAX_MESSAGE_SIZE - 4);
    ConnectionLost([], [], ev, more);
    assert FrameAll([], []) + (Frame(Message(ev, [], MAX_MESSAGE_SIZE - 4)) + more) ==
           Frame(Message(ev, [], MAX_MESSAGE_SIZE - 4)) + more;
  }

  /** The shortest message that is not decoded: a string length with nothing behind it. */
  lemma ShortestUndecodable()
    ensures Decode([3, 1, 0, 0, 0, 1]) == None
  {
    var b: seq<Byte> := [3, 1, 0, 0, 0, 1];
    assert b[2..6] == [0, 0, 0, 1];
    ReadStringThrowsIff(b, 2, 1);
    assert KINDS[..0] == [] && KINDS[..1] == [true] && KINDS[..11] == KINDS;
    ReadsOneMore(b, 0, Got([], 2));
    hide ReadValues, Decode;
    NoMoreValues(b, 2, 1, 1, 11);
    DecodeSome(b);
  }
}
