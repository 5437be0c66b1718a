/** What becomes of the events offered to the queue over a whole run: none is lost sight of, none comes twice. */
module QueueHistory {
  import opened QueueProtocol
  import opened QueueTheorems

  // ----- what a run offers and what it refuses

  function Offer(step: Step): seq<Event> {
    match step
    case CallPut(_, e) => [e]
    case _ => []
  }

  /** The events the callers offer, in the order of the calls. */
  function Offers(run: seq<Step>): seq<Event> {
    if run == [] then [] else Offer(run[0]) + Offers(run[1..])
  }

  /** The step is the turn of `put_event` under the mutex. */
  predicate Turn(s: State, step: Step) {
    step.Thread? && step.t < |s.threads| && s.threads[step.t].InPut?
  }

  function Refusal(s: State, step: Step): seq<Event> {
    if Turn(s, step) && s.flags.exit then [s.threads[step.t].e] else []
  }

  /** The events whose turn under the mutex comes when the exit has been set. */
  function Refusals(s: State, run: seq<Step>): seq<Event>
    decreases |run|
  {
    if run == [] || !Enabled(s, run[0]) then [] else Refusal(s, run[0]) + Refusals(Apply(s, run[0]), run[1..])
  }

  /** What a turn under the mutex decides. */
  lemma TurnDecides(s: State, step: Step)
    requires Enabled(s, step)
    ensures var s' := Apply(s, step);
      if !Turn(s, step) then s'.accepted == s.accepted
      else if s.flags.exit then s'.accepted == s.accepted && s'.threads[step.t] == Refused
      else s'.accepted == s.accepted + [s.threads[step.t].e] && s'.threads[step.t] == Pushed
  {
    if step == Consume {
      ConsumerLeavesThreads(s);
      hide ConsumerStep;
    }
  }

  // ----- events on their way

  function EventOf(pc: Pc): multiset<Event> {
    match pc
    case WantToken(e) => multiset{e}
    case WantMutex(e) => multiset{e}
    case InPut(e) => multiset{e}
    case _ => multiset{}
  }

  /** The events of calls that have not had their turn yet. */
  function Carried(threads: seq<Pc>): multiset<Event> {
    if threads == [] then multiset{} else Carried(threads[..|threads| - 1]) + EventOf(threads[|threads| - 1])
  }

  lemma {:induction false} CarriedUpdate(threads: seq<Pc>, t: nat, pc: Pc)
    requires t < |threads|
    ensures Carried(threads[t := pc]) + EventOf(threads[t]) == Carried(threads) + EventOf(pc)
  {
    hide EventOf;
    var n := |threads| - 1;
    var front, last := threads[..n], EventOf(threads[n]);
    var threads' := threads[t := pc];
    if t == n {
      assert threads'[..n] == front;
      Swapped(Carried(front), EventOf(pc), last);
    } else {
      assert threads'[..n] == front[t := pc];
      CarriedUpdate(front, t, pc);
      Widened(Carried(front[t := pc]), EventOf(threads[t]), Carried(front), EventOf(pc), last);
    }
  }

  lemma Swapped(x: multiset<Event>, u: multiset<Event>, v: multiset<Event>)
    ensures x + u + v == x + v + u
  {
  }

  lemma Widened(x: multiset<Event>, u: multiset<Event>, y: multiset<Event>, v: multiset<Event>, p: multiset<Event>)
    requires x + u == y + v
    ensures x + p + u == y + p + v
  {
    forall e ensures (x + p + u)[e] == (y + p + v)[e] {
      assert (x + u)[e] == (y + v)[e];
    }
  }

  lemma {:induction false} NothingCarried(threads: seq<Pc>)
    requires forall t :: 0 <= t < |threads| ==> EventOf(threads[t]) == multiset{}
    ensures Carried(threads) == multiset{}
  {
    if threads != [] {
      NothingCarried(threads[..|threads| - 1]);
    }
  }

  // ----- the books balance

  /** A step of a caller moves at most the event it carries. */
  lemma CallerBooks(s: State, step: Step)
    requires Enabled(s, step) && step != Consume
    ensures var s', t := Apply(s, step), step.t;
      && |s'.threads| == |s.threads| && s'.threads == s.threads[t := s'.threads[t]]
      && multiset(s'.accepted) + EventOf(s'.threads[t]) + multiset(Refusal(s, step)) ==
         multiset(s.accepted) + EventOf(s.threads[t]) + multiset(Offer(step))
  {
    TurnDecides(s, step);
    if !step.Thread? {
      assert Refusal(s, step) == [];
    } else {
      ThreadLeavesRest(s, step.t);
      if Turn(s, step) {
        TurnBooks(s, step);
      } else {
        SameEvent(s, step.t);
        assert Refusal(s, step) == [] && Offer(step) == [];
        hide ThreadStep, EventOf, Refusal;
      }
    }
  }

  lemma TurnBooks(s: State, step: Step)
    requires Enabled(s, step) && Turn(s, step) && step.t < |Apply(s, step).threads|
    ensures var s', t := Apply(s, step), step.t;
      multiset(s'.accepted) + EventOf(s'.threads[t]) + multiset(Refusal(s, step)) ==
      multiset(s.accepted) + EventOf(s.threads[t]) + multiset(Offer(step))
  {
    TurnDecides(s, step);
    var e := s.threads[step.t].e;
    assert EventOf(s.threads[step.t]) == multiset{e} && Offer(step) == [];
    assert EventOf(Apply(s, step).threads[step.t]) == multiset{};
    hide Apply, Enabled;
    assert multiset([e]) == multiset{e};
    assert multiset(s.accepted + [e]) == multiset(s.accepted) + multiset([e]);
  }

  lemma SameEvent(s: State, t: nat)
    requires t < |s.threads| && ThreadEnabled(s, t) && !s.threads[t].InPut?
    ensures t < |ThreadStep(s, t).threads| && EventOf(ThreadStep(s, t).threads[t]) == EventOf(s.threads[t])
  {
    match s.threads[t]
    case WantToken(e) => assert ThreadStep(s, t).threads[t] == WantMutex(e);
    case WantMutex(e) => assert ThreadStep(s, t).threads[t] == InPut(e);
    case _ =>
  }

  lemma StepBooks(s: State, step: Step)
    requires Enabled(s, step)
    ensures var s' := Apply(s, step);
      multiset(s.accepted) + Carried(s.threads) + multiset(Offer(step)) ==
      multiset(s'.accepted) + Carried(s'.threads) + multiset(Refusal(s, step))
  {
    if step == Consume {
      ConsumerLeavesThreads(s);
      assert Offer(step) == [] && Refusal(s, step) == [];
      hide ConsumerStep, Carried;
    } else {
      CallerBooks(s, step);
      var s', t := Apply(s, step), step.t;
      hide *;
      CarriedUpdate(s.threads, t, s'.threads[t]);
      Exchange(multiset(s.accepted), Carried(s.threads), EventOf(s.threads[t]), multiset(Offer(step)),
               multiset(s'.accepted), Carried(s'.threads), EventOf(s'.threads[t]), multiset(Refusal(s, step)));
    }
  }

  lemma Exchange(a: multiset<Event>, c: multiset<Event>, e: multiset<Event>, o: multiset<Event>,
                 a': multiset<Event>, c': multiset<Event>, e': multiset<Event>, r: multiset<Event>)
    requires a' + e' + r == a + e + o && c' + e == c + e'
    ensures a + c + o == a' + c' + r
  {
    forall x ensures (a + c + o)[x] == (a' + c' + r)[x] {
      assert (a' + e' + r)[x] == (a + e + o)[x] && (c' + e)[x] == (c + e')[x];
    }
  }

  /** Two balances in a row. */
  lemma Chain(x: multiset<Event>, o1: seq<Event>, y: multiset<Event>, r1: seq<Event>, o2: seq<Event>,
              z: multiset<Event>, r2: seq<Event>)
    requires x + multiset(o1) == y + multiset(r1) && y + multiset(o2) == z + multiset(r2)
    ensures x + multiset(o1 + o2) == z + multiset(r1 + r2)
  {
    forall e ensures (x + multiset(o1 + o2))[e] == (z + multiset(r1 + r2))[e] {
      assert (x + multiset(o1))[e] == (y + multiset(r1))[e] && (y + multiset(o2))[e] == (z + multiset(r2))[e];
    }
  }

  /** Over every run, what was on its way or accepted before and what is offered is what is on its way or
      accepted afterwards and what is refused. */
  lemma {:induction false} RunBooks(s: State, run: seq<Step>, s': State)
    requires Runs(s, run, s')
    ensures multiset(s.accepted) + Carried(s.threads) + multiset(Offers(run)) ==
            multiset(s'.accepted) + Carried(s'.threads) + multiset(Refusals(s, run))
    decreases |run|
  {
    if run != [] {
      var s1 := Apply(s, run[0]);
      StepBooks(s, run[0]);
      assert Offers(run) == Offer(run[0]) + Offers(run[1..]);
      assert Refusals(s, run) == Refusal(s, run[0]) + Refusals(s1, run[1..]);
      assert Runs(s1, run[1..], s');
      hide *;
      RunBooks(s1, run[1..], s');
      Chain(multiset(s.accepted) + Carried(s.threads), Offer(run[0]), multiset(s1.accepted) + Carried(s1.threads),
            Refusal(s, run[0]), Offers(run[1..]), multiset(s'.accepted) + Carried(s'.threads),
            Refusals(s1, run[1..]));
    }
  }

  /** Where every event offered is, in every reachable state: delivered, taken out, queued, dropped by an exit
      without draining, still in its call, or refused, each as often as it was offered. */
  lemma WhereEventsAre(len: nat, n: nat, run: seq<Step>, s: State)
    requires Runs(Initial(len, n), run, s)
    ensures multiset(Offers(run)) ==
            multiset(s.delivered) + multiset(InHand(s)) + multiset(s.queue) + multiset(s.dropped) +
            Carried(s.threads) + multiset(Refusals(Initial(len, n), run))
  {
    var s0 := Initial(len, n);
    NothingCarried(s0.threads);
    RunBooks(s0, run, s);
    assert Reachable(len, n, s);
    ReachableInv(len, n, s);
    assert EventsOk(s);
    hide *;
    Parts(s.delivered, InHand(s), s.queue, s.dropped);
  }

  lemma Parts(w: seq<Event>, x: seq<Event>, y: seq<Event>, z: seq<Event>)
    ensures multiset(w + x + y + z) == multiset(w) + multiset(x) + multiset(y) + multiset(z)
  {
  }

  // ----- before and after the exit

  lemma ExitStays(s: State, step: Step)
    requires Enabled(s, step) && s.flags.exit
    ensures Apply(s, step).flags.exit && Apply(s, step).flags.drain == s.flags.drain
    ensures Apply(s, step).accepted == s.accepted
  {
    if step == Consume {
      ConsumerLeavesThreads(s);
      hide ConsumerStep;
    }
  }

  /** An exit is final: nothing is accepted any more, and no later call changes how it was meant. */
  lemma {:induction false} ExitIsFinal(s: State, run: seq<Step>, s': State)
    requires Runs(s, run, s') && s.flags.exit
    ensures s'.flags.exit && s'.flags.drain == s.flags.drain && s'.accepted == s.accepted
    decreases |run|
  {
    if run != [] {
      ExitStays(s, run[0]);
      hide Apply, Enabled;
      ExitIsFinal(Apply(s, run[0]), run[1..], s');
    }
  }

  /** Events are refused exactly if their turn comes after the exit: a run splits at the exit (or has none)
      so that all that is accepted has its turn before and all that is refused afterwards. */
  lemma {:induction false} SplitAtExit(s: State, run: seq<Step>, s': State) returns (k: nat, m: State)
    requires Runs(s, run, s')
    ensures k <= |run| && Runs(s, run[..k], m) && Runs(m, run[k..], s')
    ensures Refusals(s, run[..k]) == [] && Refusals(m, run[k..]) == Refusals(s, run)
    ensures m.accepted == s'.accepted && (k < |run| ==> m.flags.exit)
    decreases |run|
  {
    if run == [] || s.flags.exit {
      k, m := 0, s;
      assert run[..0] == [] && run[0..] == run;
      if s.flags.exit {
        ExitIsFinal(s, run, s');
      }
    } else {
      var j;
      j, m := SplitAtExit(Apply(s, run[0]), run[1..], s');
      k := j + 1;
      assert run[..k] == [run[0]] + run[1..][..j] && run[..k][1..] == run[1..][..j] && run[k..] == run[1..][j..];
    }
  }

  // ----- with and without draining

  /** A call to `signal_exit` that has not had its turn yet. */
  ghost predicate ExitPending(s: State, drain: bool) {
    exists t :: 0 <= t < |s.threads| && (s.threads[t] == WantExit(drain) || s.threads[t] == InExit(drain))
  }

  lemma ExitComesFromCall(s: State, step: Step, drain: bool)
    requires Enabled(s, step)
    ensures var s' := Apply(s, step);
      && (ExitPending(s', drain) ==> ExitPending(s, drain) || (step.CallExit? && step.drain == drain))
      && (s'.flags.exit && s'.flags.drain == drain ==>
            (s.flags.exit && s.flags.drain == drain) || ExitPending(s, drain))
  {
    if step == Consume {
      ConsumerLeavesThreads(s);
      hide ConsumerStep;
    } else if step.Thread? {
      ThreadLeavesRest(s, step.t);
      ExitTurn(s, step.t, drain);
      hide ThreadStep;
      var s' := Apply(s, step);
      assert forall u :: 0 <= u < |s.threads| && u != step.t ==> s'.threads[u] == s.threads[u];
    } else {
      var s' := Apply(s, step);
      assert forall u :: 0 <= u < |s.threads| && u != step.t ==> s'.threads[u] == s.threads[u];
    }
  }

  lemma ExitTurn(s: State, t: nat, drain: bool)
    requires t < |s.threads| && ThreadEnabled(s, t)
    ensures var s' := ThreadStep(s, t);
      && |s'.threads| == |s.threads|
      && (s'.threads[t] == WantExit(drain) || s'.threads[t] == InExit(drain) ==> s.threads[t] == WantExit(drain))
      && (s'.flags.exit && s'.flags.drain == drain ==>
            (s.flags.exit && s.flags.drain == drain) || s.threads[t] == InExit(drain))
  {
  }

  lemma {:induction false} ExitModeFrom(s: State, run: seq<Step>, s': State)
    requires Runs(s, run, s') && s'.flags.exit
    ensures var drain := s'.flags.drain;
      (s.flags.exit && s.flags.drain == drain) || ExitPending(s, drain)
      || exists i :: 0 <= i < |run| && run[i].CallExit? && run[i].drain == drain
    decreases |run|
  {
    if run != [] {
      var drain := s'.flags.drain;
      ExitComesFromCall(s, run[0], drain);
      hide Apply, Enabled, ExitPending;
      ExitModeFrom(Apply(s, run[0]), run[1..], s');
      if i :| 0 <= i < |run[1..]| && run[1..][i].CallExit? && run[1..][i].drain == drain {
        assert run[i + 1] == run[1..][i];
      }
    }
  }

  /** An exit that drains, or does not, was asked for by a call that said so. */
  lemma ExitMode(len: nat, n: nat, run: seq<Step>, s: State)
    requires Runs(Initial(len, n), run, s) && s.flags.exit
    ensures exists i :: 0 <= i < |run| && run[i].CallExit? && run[i].drain == s.flags.drain
  {
    ExitModeFrom(Initial(len, n), run, s);
  }

  /** The turn of `signal_exit` under the mutex: the first one decides. */
  lemma ExitDecides(s: State, t: nat, drain: bool)
    requires t < |s.threads| && s.threads[t] == InExit(drain)
    ensures var f := Apply(s, Thread(t)).flags;
      f.exit && f.drain == if s.flags.exit then s.flags.drain else drain
  {
  }

  lemma KeptFromDelivery(s: State, step: Step)
    requires Enabled(s, step) && s.flags.exit && !s.flags.drain
    ensures var s' := Apply(s, step);
      s'.delivered + InHand(s') == s.delivered + InHand(s) && s'.dropped + s'.queue == s.dropped + s.queue
  {
    if step == Consume {
      ConsumerWithoutDraining(s);
    } else if step.Thread? {
      HandsNothingOn(s, step.t);
    }
  }

  lemma HandsNothingOn(s: State, t: nat)
    requires t < |s.threads| && ThreadEnabled(s, t) && s.flags.exit
    ensures var s' := ThreadStep(s, t);
      s'.delivered == s.delivered && InHand(s') == InHand(s) && s'.queue == s.queue && s'.dropped == s.dropped
  {
    ThreadLeavesEvents(s, t);
    hide ThreadStep;
  }

  lemma ConsumerWithoutDraining(s: State)
    requires ConsumerEnabled(s) && s.flags.exit && !s.flags.drain
    ensures var s' := ConsumerStep(s);
      s'.delivered + InHand(s') == s.delivered + InHand(s) && s'.dropped + s'.queue == s.dropped + s.queue
  {
    if s.consumer.Delivering? && s.consumer.next < |s.buf| {
      Handed(s.delivered, s.buf, s.consumer.next);
    } else if s.consumer == Inside {
      assert Examine(s).queue == [] || Examine(s).queue == s.queue;
      DroppedBehind(s);
    } else {
      assert InHand(ConsumerStep(s)) == InHand(s);
    }
  }

  lemma DroppedBehind(s: State)
    requires s.consumer == Inside && s.flags.exit && !s.flags.drain
    ensures Examine(s).delivered == s.delivered && InHand(Examine(s)) == []
    ensures Examine(s).dropped + Examine(s).queue == s.dropped + s.queue
  {
  }

  /** From an exit without draining on, no event leaves the queue for delivery any more: only what had been
      taken out is still delivered, and the others are dropped. */
  lemma {:induction false} WithoutDraining(s: State, run: seq<Step>, s': State)
    requires Runs(s, run, s') && s.flags.exit && !s.flags.drain
    ensures s'.delivered + InHand(s') == s.delivered + InHand(s) && s'.dropped + s'.queue == s.dropped + s.queue
    decreases |run|
  {
    if run != [] {
      KeptFromDelivery(s, run[0]);
      ExitStays(s, run[0]);
      hide Apply, Enabled, InHand;
      WithoutDraining(Apply(s, run[0]), run[1..], s');
    }
  }

  /** How a run ends after an exit in state `m`: after a draining one everything accepted has been delivered,
      after the other kind exactly what had been taken out of the queue by then. */
  lemma ExitOutcome(len: nat, n: nat, m: State, run: seq<Step>, s: State)
    requires Reachable(len, n, m) && Runs(m, run, s) && m.flags.exit && Stuck(s)
    ensures m.flags.drain ==> s.delivered == m.accepted && s.dropped == []
    ensures !m.flags.drain ==> s.delivered == m.delivered + InHand(m) && s.dropped == m.dropped + m.queue
  {
    ReachableFurther(len, n, m, run, s);
    ExitIsFinal(m, run, s);
    StuckStates(len, n, s);
    NothingOnTheWay(len, n, s);
    if m.flags.drain {
      DeliveredInOrder(len, n, s);
    } else {
      WithoutDraining(m, run, s);
      assert s.delivered + [] == s.delivered && s.dropped + [] == s.dropped;
    }
  }

  // ----- exactly once

  /** When nothing can move any more, every event offered was delivered exactly once, or dropped by an exit
      without draining, or refused after an exit; on a queue of limit 0 it is still in its call. */
  lemma ExactlyOnce(len: nat, n: nat, run: seq<Step>, s: State)
    requires Runs(Initial(len, n), run, s) && Stuck(s)
    ensures var refused := multiset(Refusals(Initial(len, n), run));
      && multiset(Offers(run)) == multiset(s.delivered) + multiset(s.dropped) + refused + Carried(s.threads)
      && (len > 0 ==> Carried(s.threads) == multiset{})
      && (!s.flags.exit ==> s.dropped == [] && refused == multiset{})
      && (s.flags.exit && s.flags.drain ==> s.dropped == [])
  {
    assert Reachable(len, n, s);
    StuckStates(len, n, s);
    NothingOnTheWay(len, n, s);
    WhereEventsAre(len, n, run, s);
    NothingRefused(len, n, run, s);
    hide Runs, Reachable, Refusals, Offers, Carried, Stuck;
    assert multiset(InHand(s)) == multiset{} && multiset(s.queue) == multiset{};
  }

  lemma NothingOnTheWay(len: nat, n: nat, s: State)
    requires Reachable(len, n, s) && Stuck(s)
    ensures s.queue == [] && InHand(s) == [] && (len > 0 ==> Carried(s.threads) == multiset{})
    ensures !s.flags.exit || s.flags.drain ==> s.dropped == []
  {
    StuckStates(len, n, s);
    ReachableInv(len, n, s);
    hide Reachable, Stuck, TokensOk, MutexOk, WakeUpOk;
    assert EventsOk(s);
    if len > 0 {
      NothingCarried(s.threads);
    }
  }

  /** Without an exit nothing is refused. */
  lemma NothingRefused(len: nat, n: nat, run: seq<Step>, s: State)
    requires Runs(Initial(len, n), run, s)
    ensures !s.flags.exit ==> Refusals(Initial(len, n), run) == []
  {
    if !s.flags.exit {
      var k, m := SplitAtExit(Initial(len, n), run, s);
      if k < |run| {
        ExitIsFinal(m, run[k..], s);
      } else {
        assert run[..k] == run;
      }
    }
  }
}
