/** The event queue of log4cplus (`queue.cxx`) and the consumer thread of its asynchronous appender
    (`asyncappender.cxx`), as atomic steps of any number of calling threads and one consumer. */
module QueueProtocol {
  type Event = int

  /** The bits kept in `Queue::flags`. */
  datatype Flags = Flags(queue: bool, exit: bool, drain: bool)

  datatype Owner = Free | Caller(t: nat) | TheConsumer

  /** Where a calling thread is, inside `put_event` or `signal_exit`. */
  datatype Pc =
    | Idle
    | WantToken(e: Event)
    | WantMutex(e: Event)
    | InPut(e: Event)
    | Pushed
    | Refused
    | ReturnToken
    | WantExit(drain: bool)
    | InExit(drain: bool)
    | ExitSet
    | ExitSeen
    | MustSignal

  /** Where the consumer is: in `get_events`, in `ManualResetEvent::wait`, or handing `buf` on. */
  datatype Consumer =
    | Enter
    | Inside
    | Giving(tokens: nat, event: bool, flags: Flags)
    | Parking
    | Waiting
    | Blocked(seen: nat)
    | Delivering(next: nat, flags: Flags)
    | Stopped

  /** `accepted`, `delivered` and `dropped` record what happened to events; `lost` counts tokens that
      will never be returned. */
  datatype State = State(
    len: nat, sem: nat, owner: Owner, flags: Flags, queue: seq<Event>, signaled: bool, sigcount: nat,
    threads: seq<Pc>, consumer: Consumer, buf: seq<Event>,
    accepted: seq<Event>, delivered: seq<Event>, dropped: seq<Event>, lost: nat)

  function Initial(len: nat, n: nat): State {
    State(len, len, Free, Flags(false, false, true), [], false, 0,
          seq(n, _ => Idle), Enter, [], [], [], [], 0)
  }

  // ----- the steps

  predicate ThreadEnabled(s: State, t: nat)
    requires t < |s.threads|
  {
    match s.threads[t]
    case Idle => false
    case WantToken(_) => s.sem > 0
    case WantMutex(_) => s.owner == Free
    case WantExit(_) => s.owner == Free
    case _ => true
  }

  function At(s: State, t: nat, pc: Pc): State
    requires t < |s.threads|
  {
    s.(threads := s.threads[t := pc])
  }

  /** What a thread does next. */
  function ThreadStep(s: State, t: nat): State
    requires t < |s.threads| && ThreadEnabled(s, t)
  {
    match s.threads[t]
    case WantToken(e) => At(s, t, WantMutex(e)).(sem := s.sem - 1)
    case WantMutex(e) => At(s, t, InPut(e)).(owner := Caller(t))
    case InPut(e) =>
      if s.flags.exit then At(s, t, Refused)
      else At(s, t, Pushed).(queue := s.queue + [e], flags := s.flags.(queue := true), accepted := s.accepted + [e])
    case Pushed => At(s, t, MustSignal).(owner := Free)
    case Refused => At(s, t, ReturnToken).(owner := Free)
    case ReturnToken => At(s, t, Idle).(sem := s.sem + 1)
    case WantExit(d) => At(s, t, InExit(d)).(owner := Caller(t))
    case InExit(d) =>
      if s.flags.exit then At(s, t, ExitSeen)
      else At(s, t, ExitSet).(flags := s.flags.(exit := true, drain := d))
    case ExitSet => At(s, t, MustSignal).(owner := Free)
    case ExitSeen => At(s, t, Idle).(owner := Free)
    case MustSignal => At(s, t, Idle).(signaled := true, sigcount := s.sigcount + 1)
  }

  predicate ConsumerEnabled(s: State) {
    match s.consumer
    case Enter => s.owner == Free
    case Blocked(seen) => s.sigcount != seen
    case Stopped => false
    case _ => true
  }

  /** The branch `get_events` takes under the mutex. */
  function Examine(s: State): State {
    var f := s.flags;
    if (f.queue && !f.exit) || (f.exit && f.drain && f.queue) then
      var f' := f.(queue := false);
      s.(buf := s.queue, queue := [], flags := f', consumer := Giving(|s.queue|, true, f'))
    else if f.exit && f.queue then
      var f' := f.(queue := false);
      s.(queue := [], flags := f', signaled := false, consumer := Giving(1, false, f'),
         dropped := s.dropped + s.queue, lost := s.lost + if s.queue == [] then 0 else |s.queue| - 1)
    else if f.exit then
      s.(consumer := Giving(0, false, f))
    else
      s.(signaled := false, consumer := Parking)
  }

  /** The end of one turn of `QueueThread::run`. */
  function NextTurn(event: bool, f: Flags): Consumer {
    if f.exit && f.drain && event then Enter else if f.exit then Stopped else Enter
  }

  function ConsumerStep(s: State): State
    requires ConsumerEnabled(s)
  {
    match s.consumer
    case Enter => s.(owner := TheConsumer, consumer := Inside)
    case Inside => Examine(s)
    case Giving(k, event, f) =>
      if k > 0 then s.(sem := s.sem + 1, consumer := Giving(k - 1, event, f))
      else s.(owner := Free, consumer := if event then Delivering(0, f) else NextTurn(false, f))
    case Parking => s.(owner := Free, consumer := Waiting)
    case Waiting => s.(consumer := if s.signaled then Enter else Blocked(s.sigcount))
    case Blocked(_) => s.(consumer := Enter)
    case Delivering(i, f) =>
      if i < |s.buf| then s.(delivered := s.delivered + [s.buf[i]], consumer := Delivering(i + 1, f))
      else s.(consumer := NextTurn(true, f))
  }

  /** A call starts, a thread takes its next step, or the consumer does. */
  datatype Step = CallPut(t: nat, e: Event) | CallExit(t: nat, drain: bool) | Thread(t: nat) | Consume

  predicate Enabled(s: State, step: Step) {
    match step
    case CallPut(t, _) => t < |s.threads| && s.threads[t] == Idle
    case CallExit(t, _) => t < |s.threads| && s.threads[t] == Idle
    case Thread(t) => t < |s.threads| && ThreadEnabled(s, t)
    case Consume => ConsumerEnabled(s)
  }

  function Apply(s: State, step: Step): State
    requires Enabled(s, step)
  {
    match step
    case CallPut(t, e) => At(s, t, WantToken(e))
    case CallExit(t, d) => At(s, t, WantExit(d))
    case Thread(t) => ThreadStep(s, t)
    case Consume => ConsumerStep(s)
  }

  /** `run` is an interleaving that can happen from `s` on, and `s'` is where it ends. */
  ghost predicate Runs(s: State, run: seq<Step>, s': State)
    decreases |run|
  {
    if run == [] then s' == s
    else Enabled(s, run[0]) && Runs(Apply(s, run[0]), run[1..], s')
  }

  // ----- the invariant

  predicate HoldsToken(pc: Pc) {
    pc.WantMutex? || pc.InPut? || pc.Refused? || pc.ReturnToken?
  }

  predicate HoldsMutex(pc: Pc) {
    pc.InPut? || pc.Pushed? || pc.Refused? || pc.InExit? || pc.ExitSet? || pc.ExitSeen?
  }

  /** The thread is past its update and has not signalled yet. */
  predicate WillSignal(pc: Pc) {
    pc.Pushed? || pc.ExitSet? || pc.MustSignal?
  }

  function TokenOf(pc: Pc): nat {
    if HoldsToken(pc) then 1 else 0
  }

  function Tokens(threads: seq<Pc>): nat {
    if threads == [] then 0 else Tokens(threads[..|threads| - 1]) + TokenOf(threads[|threads| - 1])
  }

  predicate ConsumerHoldsMutex(c: Consumer) {
    c.Inside? || c.Giving? || c.Parking?
  }

  function Pending(c: Consumer): nat {
    if c.Giving? then c.tokens else 0
  }

  /** Events taken out of the queue and not handed on yet. */
  function InHand(s: State): seq<Event> {
    match s.consumer
    case Giving(_, event, _) => if event then s.buf else []
    case Delivering(i, _) => if i <= |s.buf| then s.buf[i..] else []
    case _ => []
  }

  predicate Discarding(c: Consumer) {
    c.Stopped? || (c.Giving? && !c.event)
  }

  ghost predicate MutexOk(s: State) {
    && (forall t :: 0 <= t < |s.threads| ==> (HoldsMutex(s.threads[t]) <==> s.owner == Caller(t)))
    && (s.owner.Caller? ==> s.owner.t < |s.threads|)
    && (ConsumerHoldsMutex(s.consumer) <==> s.owner == TheConsumer)
  }

  /** Conservation of semaphore tokens: a discard returns one token for all events it drops. */
  ghost predicate TokensOk(s: State) {
    && s.sem + Tokens(s.threads) + Pending(s.consumer) + |s.queue| + s.lost == s.len
    && s.lost == (if s.dropped == [] then 0 else |s.dropped| - 1) && |s.dropped| <= s.len
  }

  /** Every accepted event is delivered, in hand, queued or dropped, in that order. */
  ghost predicate EventsOk(s: State) {
    && s.accepted == s.delivered + InHand(s) + s.queue + s.dropped
    && (s.dropped != [] ==> s.flags.exit && !s.flags.drain && s.queue == [] && Discarding(s.consumer))
    && (s.flags.queue <==> s.queue != [])
  }

  ghost predicate ConsumerOk(s: State) {
    match s.consumer
    case Giving(_, event, f) => f == s.flags && s.queue == [] && (f.exit && event ==> f.drain) && (!event ==> f.exit)
    case Parking => !s.flags.queue && !s.flags.exit
    case Blocked(seen) => seen <= s.sigcount && (s.signaled <==> seen != s.sigcount)
    case Delivering(i, f) =>
      i <= |s.buf| && (f.exit ==> f.drain && s.flags.exit && s.flags.drain && s.queue == [])
    case Stopped => s.flags.exit && s.queue == []
    case _ => true
  }

  /** Whoever waits while there is something to do has been signalled or is about to be. */
  ghost predicate WakeUpOk(s: State) {
    (s.consumer.Waiting? || s.consumer.Blocked?) && (s.flags.queue || s.flags.exit) ==>
      s.signaled || exists t :: 0 <= t < |s.threads| && WillSignal(s.threads[t])
  }

  ghost predicate Inv(s: State) {
    MutexOk(s) && TokensOk(s) && EventsOk(s) && ConsumerOk(s) && WakeUpOk(s)
  }

  // ----- the invariant holds in every reachable state

  lemma {:induction false} TokensUpdate(threads: seq<Pc>, t: nat, pc: Pc)
    requires t < |threads|
    ensures Tokens(threads[t := pc]) + TokenOf(threads[t]) == Tokens(threads) + TokenOf(pc)
  {
    var n := |threads| - 1;
    if t == n {
      assert threads[t := pc][..n] == threads[..n];
    } else {
      assert threads[t := pc][..n] == threads[..n][t := pc];
      TokensUpdate(threads[..n], t, pc);
    }
  }

  lemma {:induction false} NoTokens(threads: seq<Pc>)
    requires forall t :: 0 <= t < |threads| ==> !HoldsToken(threads[t])
    ensures Tokens(threads) == 0
  {
    if threads != [] {
      NoTokens(threads[..|threads| - 1]);
    }
  }

  lemma InitialInv(len: nat, n: nat)
    ensures Inv(Initial(len, n))
  {
    NoTokens(seq(n, _ => Idle));
  }

  lemma CallKeepsInv(s: State, t: nat, pc: Pc)
    requires Inv(s) && t < |s.threads| && s.threads[t] == Idle && (pc.WantToken? || pc.WantExit?)
    ensures Inv(At(s, t, pc))
  {
    TokensUpdate(s.threads, t, pc);
    var s' := At(s, t, pc);
    assert forall u :: 0 <= u < |s.threads| && WillSignal(s.threads[u]) ==> WillSignal(s'.threads[u]);
  }

  lemma ThreadKeepsMutex(s: State, t: nat)
    requires MutexOk(s) && t < |s.threads| && ThreadEnabled(s, t)
    ensures MutexOk(ThreadStep(s, t))
  {
  }

  /** A thread only moves tokens between the semaphore, itself and the queue. */
  lemma ThreadMovesTokens(s: State, t: nat)
    requires t < |s.threads| && ThreadEnabled(s, t)
    ensures var s' := ThreadStep(s, t);
      && |s'.threads| == |s.threads|
      && s'.sem + TokenOf(s'.threads[t]) + |s'.queue| == s.sem + TokenOf(s.threads[t]) + |s.queue|
  {
    if s.threads[t].InPut? {
      assert |ThreadStep(s, t).queue| == |s.queue| + if s.flags.exit then 0 else 1;
    } else {
      assert ThreadStep(s, t).queue == s.queue;
    }
  }

  lemma ThreadLeavesRest(s: State, t: nat)
    requires t < |s.threads| && ThreadEnabled(s, t)
    ensures var s' := ThreadStep(s, t);
      && |s'.threads| == |s.threads| && s'.threads == s.threads[t := s'.threads[t]]
      && s'.consumer == s.consumer && s'.lost == s.lost && s'.dropped == s.dropped && s'.len == s.len
  {
  }

  lemma ThreadKeepsTokens(s: State, t: nat)
    requires TokensOk(s) && t < |s.threads| && ThreadEnabled(s, t)
    ensures TokensOk(ThreadStep(s, t))
  {
    ThreadMovesTokens(s, t);
    ThreadLeavesRest(s, t);
    hide ThreadStep, Tokens;
    TokensUpdate(s.threads, t, ThreadStep(s, t).threads[t]);
  }

  /** Steps that neither accept, take out nor drop events. */
  lemma EventsUntouched(s: State, s': State)
    requires EventsOk(s)
    requires s'.accepted == s.accepted && s'.queue == s.queue && s'.dropped == s.dropped
    requires s'.delivered + InHand(s') == s.delivered + InHand(s)
    requires s'.flags.queue == s.flags.queue && (s.flags.exit ==> s'.flags == s.flags)
    requires Discarding(s.consumer) ==> Discarding(s'.consumer)
    ensures EventsOk(s')
  {
  }

  lemma PushKeepsEvents(s: State, t: nat)
    requires EventsOk(s) && t < |s.threads| && s.threads[t].InPut? && !s.flags.exit
    ensures EventsOk(ThreadStep(s, t))
  {
    var e := s.threads[t].e;
    var before := s.delivered + InHand(s);
    assert InHand(ThreadStep(s, t)) == InHand(s);
    assert before + s.queue + [] + [e] == before + (s.queue + [e]) + [];
  }

  lemma ThreadKeepsEvents(s: State, t: nat)
    requires EventsOk(s) && t < |s.threads| && ThreadEnabled(s, t)
    ensures EventsOk(ThreadStep(s, t))
  {
    hide EventsOk;
    if s.threads[t].InPut? && !s.flags.exit {
      PushKeepsEvents(s, t);
    } else {
      ThreadLeavesEvents(s, t);
      hide ThreadStep;
      EventsUntouched(s, ThreadStep(s, t));
    }
  }

  lemma ThreadLeavesEvents(s: State, t: nat)
    requires t < |s.threads| && ThreadEnabled(s, t) && !(s.threads[t].InPut? && !s.flags.exit)
    ensures var s' := ThreadStep(s, t);
      && s'.accepted == s.accepted && s'.queue == s.queue && s'.dropped == s.dropped
      && s'.delivered == s.delivered && s'.consumer == s.consumer && s'.buf == s.buf
      && s'.flags.queue == s.flags.queue && (s.flags.exit ==> s'.flags == s.flags)
  {
  }

  lemma ThreadKeepsConsumer(s: State, t: nat)
    requires ConsumerOk(s) && MutexOk(s) && t < |s.threads| && ThreadEnabled(s, t)
    ensures ConsumerOk(ThreadStep(s, t))
  {
    assert HoldsMutex(s.threads[t]) ==> !ConsumerHoldsMutex(s.consumer);
  }

  lemma ThreadKeepsWakeUp(s: State, t: nat)
    requires WakeUpOk(s) && t < |s.threads| && ThreadEnabled(s, t)
    ensures WakeUpOk(ThreadStep(s, t))
  {
    var s' := ThreadStep(s, t);
    assert WillSignal(s'.threads[t]) || s'.signaled || (s'.flags == s.flags && !WillSignal(s.threads[t]));
    assert forall u :: 0 <= u < |s.threads| && u != t ==> s'.threads[u] == s.threads[u];
  }

  /** The look at the flags under the mutex. */
  lemma ExamineKeepsTokensAndEvents(s: State)
    requires TokensOk(s) && EventsOk(s) && s.consumer == Inside
    ensures TokensOk(Examine(s)) && EventsOk(Examine(s))
  {
    var s' := Examine(s);
    assert s.dropped == [];
    assert s.accepted == s.delivered + s.queue;
    assert s'.accepted == s'.delivered + InHand(s') + s'.queue + s'.dropped;
  }

  lemma ExamineKeepsMutexAndConsumer(s: State)
    requires MutexOk(s) && EventsOk(s) && s.consumer == Inside
    ensures MutexOk(Examine(s)) && ConsumerOk(Examine(s)) && WakeUpOk(Examine(s))
  {
  }

  lemma ConsumerKeepsMutex(s: State)
    requires MutexOk(s) && ConsumerEnabled(s) && s.consumer != Inside
    ensures MutexOk(ConsumerStep(s))
  {
  }

  lemma ConsumerKeepsTokens(s: State)
    requires TokensOk(s) && ConsumerEnabled(s) && s.consumer != Inside
    ensures TokensOk(ConsumerStep(s))
  {
    assert ConsumerStep(s).threads == s.threads;
  }

  /** Handing an event on moves it from the batch to the delivered ones. */
  lemma DeliverKeepsEvents(s: State)
    requires EventsOk(s) && s.consumer.Delivering? && s.consumer.next < |s.buf|
    ensures EventsOk(ConsumerStep(s))
  {
    var s' := ConsumerStep(s);
    var i := s.consumer.next;
    Handed(s.delivered, s.buf, i);
    assert InHand(s) == s.buf[i..] && InHand(s') == s.buf[i + 1..];
    hide InHand, EventsOk;
    EventsUntouched(s, s');
  }

  lemma Handed(delivered: seq<Event>, buf: seq<Event>, i: nat)
    requires i < |buf|
    ensures delivered + [buf[i]] + buf[i + 1..] == delivered + buf[i..]
  {
  }

  lemma ConsumerKeepsEvents(s: State)
    requires EventsOk(s) && ConsumerOk(s) && ConsumerEnabled(s) && s.consumer != Inside
    ensures EventsOk(ConsumerStep(s))
  {
    if s.consumer.Delivering? && s.consumer.next < |s.buf| {
      DeliverKeepsEvents(s);
    } else {
      assert InHand(ConsumerStep(s)) == InHand(s);
      hide EventsOk, InHand;
      EventsUntouched(s, ConsumerStep(s));
    }
  }

  lemma ConsumerKeepsConsumer(s: State)
    requires ConsumerOk(s) && EventsOk(s) && ConsumerEnabled(s) && s.consumer != Inside
    ensures ConsumerOk(ConsumerStep(s))
  {
  }

  lemma ConsumerKeepsWakeUp(s: State)
    requires WakeUpOk(s) && ConsumerOk(s) && ConsumerEnabled(s) && s.consumer != Inside
    ensures WakeUpOk(ConsumerStep(s))
  {
  }

  lemma StepKeepsInv(s: State, step: Step)
    requires Inv(s) && Enabled(s, step)
    ensures Inv(Apply(s, step))
  {
    hide MutexOk, TokensOk, EventsOk, ConsumerOk, WakeUpOk;
    match step
    case CallPut(t, e) => CallKeepsInv(s, t, WantToken(e));
    case CallExit(t, d) => CallKeepsInv(s, t, WantExit(d));
    case Thread(t) =>
      ThreadKeepsMutex(s, t);
      ThreadKeepsTokens(s, t);
      ThreadKeepsEvents(s, t);
      ThreadKeepsConsumer(s, t);
      ThreadKeepsWakeUp(s, t);
    case Consume =>
      if s.consumer == Inside {
        ExamineKeepsTokensAndEvents(s);
        ExamineKeepsMutexAndConsumer(s);
      } else {
        ConsumerKeepsMutex(s);
        ConsumerKeepsTokens(s);
        ConsumerKeepsEvents(s);
        ConsumerKeepsConsumer(s);
        ConsumerKeepsWakeUp(s);
      }
  }

  /** Over every interleaving, from a fresh queue on. */
  lemma {:induction false} RunKeepsInv(s: State, run: seq<Step>, s': State)
    requires Inv(s) && Runs(s, run, s')
    ensures Inv(s')
    decreases |run|
  {
    hide Inv;
    if run != [] {
      StepKeepsInv(s, run[0]);
      RunKeepsInv(Apply(s, run[0]), run[1..], s');
    }
  }
}
