/** The stretches of `put_event`, `signal_exit` and `get_events` that run under the queue's mutex, on
    the real flag word, tied to the steps of the protocol. */
module QueueCode {
  import opened QueueProtocol

  /** The flags fill the low bits of an unsigned integer; no other bit is ever set. */
  type Word = bv8

  const EVENT: Word := 0x0001
  const QUEUE: Word := 0x0002
  const EXIT: Word := 0x0004
  const DRAIN: Word := 0x0008
  const ERROR_BIT: Word := 0x0010
  const ERROR_AFTER: Word := 0x0020

  function With(w: Word, bits: Word): Word { w | bits }

  function Without(w: Word, bits: Word): Word { w & !bits }

  predicate Any(w: Word, bits: Word) { w & bits != 0 }

  predicate All(w: Word, bits: Word) { w & bits == bits }

  /** What a flag word says to the protocol. */
  function Decode(w: Word): Flags {
    Flags(Any(w, QUEUE), Any(w, EXIT), Any(w, DRAIN))
  }

  const ERRORS: Word := ERROR_BIT | ERROR_AFTER

  /** The bits a caller looks at besides the state flags. */
  ghost predicate Reports(ret: Word, f: Flags, event: bool, error: bool) {
    Decode(ret) == f && (Any(ret, EVENT) <==> event) && (Any(ret, ERRORS) <==> error)
  }

  /** The flag word never holds result bits. */
  ghost predicate Clean(w: Word) {
    !Any(w, EVENT | ERRORS)
  }

  // ----- the flag word

  /** The bits of the flags. */
  lemma FlagBits(w: Word)
    ensures Decode(w) == Flags(w & 0x02 == 0x02, w & 0x04 == 0x04, w & 0x08 == 0x08)
    ensures (Any(w, EVENT) <==> w & 0x01 == 0x01) && (Any(w, ERRORS) <==> w & 0x30 != 0)
  {
  }

  lemma SetQueue(w: Word)
    requires Clean(w)
    ensures Clean(With(w, QUEUE)) && Decode(With(w, QUEUE)) == Decode(w).(queue := true)
  {
  }

  lemma ClearQueue(w: Word)
    requires Clean(w)
    ensures Clean(Without(w, QUEUE)) && Decode(Without(w, QUEUE)) == Decode(w).(queue := false)
  {
  }

  lemma SetDrain(w: Word, drain: bool)
    requires Clean(w)
    ensures var w' := if drain then With(w, DRAIN) else Without(w, DRAIN);
      Clean(w') && Decode(w') == Decode(w).(drain := drain)
  {
  }

  lemma SetExit(w: Word)
    requires Clean(w)
    ensures Clean(With(w, EXIT)) && Decode(With(w, EXIT)) == Decode(w).(exit := true)
  {
  }

  lemma InitialBits()
    ensures Clean(DRAIN) && Decode(DRAIN) == Flags(false, false, true)
  {
  }

  /** What a clean word reports, alone or with `EVENT`. */
  lemma CleanReports(w: Word)
    requires Clean(w)
    ensures Reports(w, Decode(w), false, false) && Reports(With(w, EVENT), Decode(w), true, false)
  {
  }

  /** What `put_event` reports: nothing but the flags, on both ways. */
  lemma PutReports(w: Word)
    requires Clean(w)
    ensures Reports(Without(With(ERROR_BIT, w), ERRORS), Decode(w), false, false)
    ensures var w' := With(w, QUEUE);
      Reports(Without(With(With(With(ERROR_BIT, w), ERROR_AFTER), w'), ERRORS), Decode(w'), false, false)
  {
  }

  /** The tests of `get_events` and of the consumer loop. */
  lemma Tests(w: Word)
    ensures All(w, EXIT | DRAIN | QUEUE) <==> Decode(w).exit && Decode(w).drain && Decode(w).queue
    ensures All(w, EXIT | QUEUE) <==> Decode(w).exit && Decode(w).queue
    ensures All(w, EXIT | DRAIN | EVENT) <==> Decode(w).exit && Decode(w).drain && Any(w, EVENT)
    ensures Any(w, QUEUE) <==> Decode(w).queue
    ensures Any(w, EXIT) <==> Decode(w).exit
  {
  }

  lemma ExitStep(s: State, t: nat, drain: bool)
    requires t < |s.threads| && s.threads[t] == InExit(drain)
    ensures ThreadStep(s, t) ==
      if s.flags.exit then At(s, t, ExitSeen)
      else At(s, t, ExitSet).(flags := s.flags.(drain := drain).(exit := true))
  {
  }

  class Queue {
    var queue: seq<Event>
    var flags: Word
    var sem: nat
    var signaled: bool

    ghost predicate Valid()
      reads this`flags
    {
      Clean(flags)
    }

    /** This object holds the data of protocol state `s`. */
    ghost predicate Shows(s: State)
      reads this
    {
      s.queue == queue && s.flags == Decode(flags) && s.sem == sem && s.signaled == signaled
    }

    constructor (len: nat)
      ensures Valid() && Shows(Initial(len, 0))
    {
      InitialBits();
      hide Clean, Decode;
      queue := [];
      flags := DRAIN;
      sem := len;
      signaled := false;
    }

    /** `put_event` under the mutex; `refused` when it returns without having queued the event. */
    method Put(ev: Event, ghost s: State, ghost t: nat) returns (ret: Word, refused: bool)
      requires Valid() && Shows(s) && t < |s.threads| && s.threads[t] == InPut(ev)
      modifies this`queue, this`flags
      ensures Valid()
      ensures Shows(ThreadStep(s, t)) && ThreadStep(s, t).threads[t] == if refused then Refused else Pushed
      ensures Reports(ret, Decode(flags), false, false)
    {
      Tests(flags);
      SetQueue(flags);
      PutReports(flags);
      hide Decode, Clean, Reports, With, Without, Any, All;
      ret := ERROR_BIT;
      ret := With(ret, flags);
      refused := Any(flags, EXIT);
      if refused {
        ret := Without(ret, ERRORS);
      } else {
        queue := queue + [ev];
        ret := With(ret, ERROR_AFTER);
        flags := With(flags, QUEUE);
        ret := With(ret, flags);
        ret := Without(ret, ERRORS);
      }
    }

    /** `signal_exit` under the mutex; `first` when it was this call that set the flag. */
    method Exit(drain: bool, ghost s: State, ghost t: nat) returns (ret: Word, first: bool)
      requires Valid() && Shows(s) && t < |s.threads| && s.threads[t] == InExit(drain)
      modifies this`flags
      ensures Valid()
      ensures Shows(ThreadStep(s, t)) && ThreadStep(s, t).threads[t] == if first then ExitSet else ExitSeen
      ensures Reports(ret, Decode(flags), false, false)
    {
      Tests(flags);
      ExitStep(s, t, drain);
      CleanReports(flags);
      hide Decode, Clean, Reports, Any, ThreadStep;
      ret := flags;
      first := !Any(flags, EXIT);
      if first {
        MarkExit(drain);
        CleanReports(flags);
        ret := flags;
      }
    }

    /** The update of the flags in `signal_exit`. */
    method MarkExit(drain: bool)
      requires Clean(flags)
      modifies this`flags
      ensures Clean(flags) && Decode(flags) == Decode(old(flags)).(drain := drain).(exit := true)
    {
      SetDrain(flags, drain);
      hide Decode, Clean, With, Without;
      if drain {
        flags := With(flags, DRAIN);
      } else {
        flags := Without(flags, DRAIN);
      }
      SetExit(flags);
      flags := With(flags, EXIT);
    }

    /** `get_events` under the mutex: the swap with the caller's buffer, whose old contents are cleared
        away, the discard, the exit, or the preparation for waiting. */
    method Get(buf0: seq<Event>, ghost s: State) returns (ret: Word, buf: seq<Event>, park: bool)
      requires Valid() && (Decode(flags).queue <==> queue != [])
      requires Shows(s) && s.consumer == Inside && s.buf == buf0
      modifies this
      ensures Valid()
      ensures
        var e := Examine(s);
        && e.queue == queue && e.flags == Decode(flags) && e.signaled == signaled && e.buf == buf
        && sem == s.sem + Pending(e.consumer)
        && (if park then e.consumer == Parking
            else e.consumer.Giving? && Reports(ret, e.consumer.flags, e.consumer.event, false))
    {
      Tests(flags);
      CleanReports(flags);
      ClearQueue(flags);
      hide Decode, Clean, Reports, With, Without, Any, All;
      buf, park := buf0, false;
      ret := flags;
      if (Any(flags, QUEUE) && !Any(flags, EXIT)) || All(flags, EXIT | DRAIN | QUEUE) {
        assert queue != [];
        ret, buf := TakeAll(buf);
        CleanReports(flags);
      } else if All(flags, EXIT | QUEUE) {
        assert queue != [];
        queue := [];
        flags := Without(flags, QUEUE);
        CleanReports(flags);
        signaled := false;
        sem := sem + 1;
        ret := flags;
      } else if Any(flags, EXIT) {
        // the flags already tell the thread to end
      } else {
        signaled := false;
        park := true;
      }
    }

    /** The branch of `get_events` that hands the events over and returns a token for each of them. */
    method TakeAll(buf0: seq<Event>) returns (ret: Word, buf: seq<Event>)
      modifies this`queue, this`flags, this`sem
      ensures queue == [] && buf == old(queue) && sem == old(sem) + |buf|
      ensures flags == Without(old(flags), QUEUE) && ret == With(flags, EVENT)
    {
      hide With, Without;
      var count := |queue|;
      queue, buf := buf0, queue;
      queue := [];
      flags := Without(flags, QUEUE);
      for i := 0 to count
        invariant sem == old(sem) + i && queue == [] && buf == old(queue)
        invariant flags == Without(old(flags), QUEUE)
      {
        sem := sem + 1;
      }
      ret := With(flags, EVENT);
    }
  }

  /** The test by which `QueueThread::run` decides on its next turn. */
  method NextTurnOf(flags: Word) returns (next: Consumer)
    ensures next == NextTurn(Any(flags, EVENT), Decode(flags))
  {
    Tests(flags);
    hide Decode, Any, All;
    if All(flags, EXIT | DRAIN | EVENT) {
      next := Enter;
    } else if Any(flags, EXIT) {
      next := Stopped;
    } else {
      next := Enter;
    }
  }
}
