/** What the queue protocol guarantees over whole runs. */
module QueueTheorems {
  import opened QueueProtocol

  /** The states some interleaving of `n` threads leads to, on a queue of limit `len`. */
  ghost predicate Reachable(len: nat, n: nat, s: State) {
    exists run :: Runs(Initial(len, n), run, s)
  }

  lemma ReachableInv(len: nat, n: nat, s: State)
    requires Reachable(len, n, s)
    ensures Inv(s)
  {
    var run :| Runs(Initial(len, n), run, s);
    InitialInv(len, n);
    RunKeepsInv(Initial(len, n), run, s);
  }

  // ----- delivery

  /** Events reach the appenders in acceptance order, none twice and none skipped; whatever was not
      delivered when the consumer stopped was dropped by an exit without draining. */
  lemma DeliveredInOrder(len: nat, n: nat, s: State)
    requires Reachable(len, n, s)
    ensures s.delivered <= s.accepted
    ensures s.consumer == Stopped ==> s.accepted == s.delivered + s.dropped
    ensures s.consumer == Stopped && s.flags.drain ==> s.delivered == s.accepted
  {
    ReachableInv(len, n, s);
    assert EventsOk(s) && ConsumerOk(s);
    assert s.delivered + InHand(s) + s.queue + s.dropped == s.delivered + (InHand(s) + s.queue + s.dropped);
  }

  /** Neither assertion of `get_events` fails: with the flag set there are events in the queue. */
  lemma AssertionsHold(len: nat, n: nat, s: State)
    requires Reachable(len, n, s)
    ensures s.flags.queue <==> s.queue != []
    ensures |s.queue| <= len
  {
    ReachableInv(len, n, s);
    LenIsConstant(len, n, s);
    assert EventsOk(s) && TokensOk(s);
  }

  lemma {:induction false} RunKeepsLen(s: State, run: seq<Step>, s': State)
    requires Runs(s, run, s')
    ensures s'.len == s.len && |s'.threads| == |s.threads|
    decreases |run|
  {
    if run != [] {
      RunKeepsLen(Apply(s, run[0]), run[1..], s');
    }
  }

  lemma LenIsConstant(len: nat, n: nat, s: State)
    requires Reachable(len, n, s)
    ensures s.len == len && |s.threads| == n
  {
    var run :| Runs(Initial(len, n), run, s);
    RunKeepsLen(Initial(len, n), run, s);
  }

  // ----- waking up

  /** No wake-up is lost: a consumer asleep while there is something to do can wake at once, or some
      thread has still to signal. */
  lemma NoLostWakeUp(len: nat, n: nat, s: State)
    requires Reachable(len, n, s)
    requires s.consumer.Waiting? || s.consumer.Blocked?
    requires s.queue != [] || s.flags.exit
    ensures (if s.consumer.Waiting? then s.signaled else ConsumerEnabled(s))
            || exists t :: 0 <= t < |s.threads| && WillSignal(s.threads[t])
  {
    ReachableInv(len, n, s);
    assert WakeUpOk(s) && ConsumerOk(s) && EventsOk(s);
  }

  // ----- tokens

  lemma {:induction false} SomeHolder(threads: seq<Pc>) returns (t: nat)
    requires Tokens(threads) > 0
    ensures t < |threads| && HoldsToken(threads[t])
  {
    var n := |threads| - 1;
    if HoldsToken(threads[n]) {
      t := n;
    } else {
      t := SomeHolder(threads[..n]);
    }
  }

  /** Tokens are conserved up to what a discard withholds, and one is always free, held or due back. */
  lemma TokensConserved(len: nat, n: nat, s: State)
    requires Reachable(len, n, s)
    ensures s.sem + Tokens(s.threads) + Pending(s.consumer) + |s.queue| ==
            len - if s.dropped == [] then 0 else |s.dropped| - 1
    ensures len > 0 ==> s.sem > 0 || Pending(s.consumer) > 0 || s.queue != []
                        || exists t :: 0 <= t < |s.threads| && HoldsToken(s.threads[t])
  {
    ReachableInv(len, n, s);
    LenIsConstant(len, n, s);
    assert TokensOk(s);
    if Tokens(s.threads) > 0 {
      var t := SomeHolder(s.threads);
    }
  }

  // ----- progress

  ghost predicate AllIdle(s: State) {
    forall t :: 0 <= t < |s.threads| ==> s.threads[t] == Idle
  }

  /** Nobody inside a call, and the consumer asleep over an empty queue or stopped. */
  ghost predicate Quiescent(s: State) {
    AllIdle(s) && s.queue == [] && (if s.flags.exit then s.consumer == Stopped else s.consumer.Blocked?)
  }

  ghost predicate Stuck(s: State) {
    !ConsumerEnabled(s) && forall t :: 0 <= t < |s.threads| ==> !ThreadEnabled(s, t)
  }

  lemma StuckHoldsNothing(s: State)
    requires Inv(s) && Stuck(s)
    ensures s.owner == Free && Tokens(s.threads) == 0 && Pending(s.consumer) == 0
    ensures s.consumer == Stopped || (s.consumer.Blocked? && s.consumer.seen == s.sigcount)
    ensures forall t :: 0 <= t < |s.threads| ==> s.threads[t] == Idle || (s.threads[t].WantToken? && s.sem == 0)
  {
    hide TokensOk, EventsOk, WakeUpOk;
    assert forall t :: 0 <= t < |s.threads| && HoldsMutex(s.threads[t]) ==> ThreadEnabled(s, t);
    assert s.owner == Free;
    forall t | 0 <= t < |s.threads| ensures s.threads[t] == Idle || (s.threads[t].WantToken? && s.sem == 0) {
      assert !ThreadEnabled(s, t);
    }
    NoTokens(s.threads);
  }

  /** When nothing can move, the consumer sleeps over an empty queue or has stopped, and the only calls that
      have not returned wait for a token of a queue of limit 0. */
  lemma StuckStates(len: nat, n: nat, s: State)
    requires Reachable(len, n, s) && Stuck(s)
    ensures s.queue == [] && (if s.flags.exit then s.consumer == Stopped else s.consumer.Blocked?)
    ensures forall t :: 0 <= t < |s.threads| ==> s.threads[t] == Idle || (s.threads[t].WantToken? && len == 0)
  {
    ReachableInv(len, n, s);
    LenIsConstant(len, n, s);
    StuckHoldsNothing(s);
    assert TokensOk(s) && EventsOk(s) && ConsumerOk(s) && WakeUpOk(s);
    assert s.queue == [];
  }

  /** No deadlock: when nothing can move, every call has returned, exactly unless the limit is 0 and a call
      waits for a token. */
  lemma NoDeadlock(len: nat, n: nat, s: State)
    requires Reachable(len, n, s) && Stuck(s)
    ensures Quiescent(s) <==> len > 0 || AllIdle(s)
  {
    StuckStates(len, n, s);
  }

  // ----- a queue of limit 0

  lemma LimitZeroHasNoToken(n: nat, s: State)
    requires Reachable(0, n, s)
    ensures s.sem == 0
  {
    ReachableInv(0, n, s);
    LenIsConstant(0, n, s);
    assert TokensOk(s);
  }

  /** With limit 0 a call that offers an event never returns, whatever is done meanwhile, an exit included. */
  lemma {:induction false} LimitZeroBlocks(n: nat, s: State, run: seq<Step>, s': State, t: nat)
    requires Reachable(0, n, s) && Runs(s, run, s') && t < |s.threads| && s.threads[t].WantToken?
    ensures t < |s'.threads| && s'.threads[t] == s.threads[t] && !ThreadEnabled(s', t)
    decreases |run|
  {
    LimitZeroHasNoToken(n, s);
    if run != [] {
      var s1 := Apply(s, run[0]);
      BlockedStays(s, run[0], t);
      ReachableStep(0, n, s, run[0]);
      hide Reachable, ThreadEnabled, Enabled, Apply;
      LimitZeroBlocks(n, s1, run[1..], s', t);
    }
  }

  lemma BlockedStays(s: State, step: Step, t: nat)
    requires t < |s.threads| && !ThreadEnabled(s, t) && s.threads[t] != Idle && Enabled(s, step)
    ensures var s' := Apply(s, step); |s'.threads| == |s.threads| && s'.threads[t] == s.threads[t]
  {
    if step.Thread? {
      assert step.t != t;
      ThreadLeavesRest(s, step.t);
      hide ThreadStep, ThreadEnabled;
    } else if step == Consume {
      ConsumerLeavesThreads(s);
      hide ConsumerStep, ThreadEnabled;
    }
  }

  lemma ConsumerLeavesThreads(s: State)
    requires ConsumerEnabled(s)
    ensures ConsumerStep(s).threads == s.threads
    ensures ConsumerStep(s).accepted == s.accepted
    ensures var f := ConsumerStep(s).flags; f.exit == s.flags.exit && f.drain == s.flags.drain
  {
  }

  lemma ReachableStep(len: nat, n: nat, s: State, step: Step)
    requires Reachable(len, n, s) && Enabled(s, step)
    ensures Reachable(len, n, Apply(s, step))
  {
    var s' := Apply(s, step);
    hide Apply, Enabled, Reachable;
    assert [step][1..] == [] && Runs(s', [], s');
    assert Runs(s, [step], s');
    ReachableFurther(len, n, s, [step], s');
  }

  /** One call and the consumer going to sleep: nothing can move any more. */
  lemma LimitZeroDeadlocks(n: nat, e: Event) returns (s: State)
    requires n > 0
    ensures Reachable(0, n, s) && Stuck(s) && !Quiescent(s)
    ensures |s.threads| == n && s.threads[0] == WantToken(e)
  {
    var s0 := Initial(0, n);
    assert Runs(s0, [], s0);
    assert Reachable(0, n, s0);
    ReachableStep(0, n, s0, CallPut(0, e));
    var s1 := Apply(s0, CallPut(0, e));
    assert s1.threads == s0.threads[0 := WantToken(e)];
    SleepsOverNothing(0, n, s1);
    s := s1.(consumer := Blocked(0));
    assert !ThreadEnabled(s, 0) && forall t :: 0 < t < n ==> s.threads[t] == Idle;
  }

  /** The consumer finds nothing to do and goes to sleep. */
  lemma SleepsOverNothing(len: nat, n: nat, s: State)
    requires Reachable(len, n, s) && s.consumer == Enter && s.owner == Free && !s.flags.queue && !s.flags.exit
    requires !s.signaled
    ensures Reachable(len, n, s.(consumer := Blocked(s.sigcount)))
  {
    var s1 := Apply(s, Consume);
    var s2 := Apply(s1, Consume);
    var s3 := Apply(s2, Consume);
    var s4 := Apply(s3, Consume);
    assert s4 == s.(consumer := Blocked(s.sigcount));
    hide Reachable, Apply;
    ReachableStep(len, n, s, Consume);
    ReachableStep(len, n, s1, Consume);
    ReachableStep(len, n, s2, Consume);
    ReachableStep(len, n, s3, Consume);
  }

  /** Every state in which nothing can move has all calls returned exactly if the limit is positive (or there
      is nobody to call). */
  lemma NoDeadlockIff(len: nat, n: nat)
    ensures (forall s :: Reachable(len, n, s) && Stuck(s) ==> Quiescent(s)) <==> len > 0 || n == 0
  {
    if len > 0 || n == 0 {
      forall s | Reachable(len, n, s) && Stuck(s) ensures Quiescent(s) {
        LenIsConstant(len, n, s);
        NoDeadlock(len, n, s);
      }
    } else {
      var s := LimitZeroDeadlocks(n, 0);
    }
  }

  /** What a call has still to do; an event pushed leaves work for the consumer. */
  function CallWork(pc: Pc): nat {
    match pc
    case Idle => 0
    case WantToken(_) => 35
    case WantMutex(_) => 34
    case InPut(_) => 33
    case Pushed => 12
    case Refused => 3
    case ReturnToken => 1
    case WantExit(_) => 14
    case InExit(_) => 13
    case ExitSet => 12
    case ExitSeen => 1
    case MustSignal => 11
  }

  function ThreadsWork(threads: seq<Pc>): nat {
    if threads == [] then 0 else ThreadsWork(threads[..|threads| - 1]) + CallWork(threads[|threads| - 1])
  }

  function ConsumerWork(s: State): nat {
    match s.consumer
    case Enter => 4
    case Inside => 3
    case Giving(k, event, f) => k + 1 + if event then 7 + 2 * |s.buf| else 0
    case Parking => 2 + if s.signaled then 10 else 0
    case Waiting => 1 + if s.signaled then 10 else 0
    case Blocked(_) => if s.signaled then 10 else 0
    case Delivering(i, f) => 6 + if i <= |s.buf| then 2 * (|s.buf| - i) else 0
    case Stopped => 0
  }

  /** A bound on the steps that can be taken before a new call starts. */
  function Work(s: State): nat {
    ThreadsWork(s.threads) + 20 * |s.queue| + ConsumerWork(s)
  }

  lemma {:induction false} ThreadsWorkUpdate(threads: seq<Pc>, t: nat, pc: Pc)
    requires t < |threads|
    ensures ThreadsWork(threads[t := pc]) + CallWork(threads[t]) == ThreadsWork(threads) + CallWork(pc)
  {
    var n := |threads| - 1;
    if t == n {
      assert threads[t := pc][..n] == threads[..n];
    } else {
      assert threads[t := pc][..n] == threads[..n][t := pc];
      ThreadsWorkUpdate(threads[..n], t, pc);
    }
  }

  lemma ThreadStepCost(s: State, t: nat)
    requires t < |s.threads| && ThreadEnabled(s, t)
    ensures var s' := ThreadStep(s, t);
      && |s'.threads| == |s.threads| && s'.threads == s.threads[t := s'.threads[t]]
      && CallWork(s'.threads[t]) + 20 * |s'.queue| + (if s.threads[t].MustSignal? then 10 else 0) <
         CallWork(s.threads[t]) + 20 * |s.queue|
  {
  }

  /** Only a signal gives the consumer more to do. */
  lemma SignalCost(s: State, t: nat)
    requires t < |s.threads| && ThreadEnabled(s, t)
    ensures ConsumerWork(ThreadStep(s, t)) <= ConsumerWork(s) + if s.threads[t].MustSignal? then 10 else 0
  {
    var s' := ThreadStep(s, t);
    assert s'.consumer == s.consumer && s'.buf == s.buf;
    assert s.threads[t].MustSignal? || s'.signaled == s.signaled;
  }

  lemma ThreadStepWorks(s: State, t: nat)
    requires t < |s.threads| && ThreadEnabled(s, t)
    ensures Work(ThreadStep(s, t)) < Work(s)
  {
    ThreadStepCost(s, t);
    SignalCost(s, t);
    hide ThreadStep, CallWork, ConsumerWork, ThreadsWork;
    ThreadsWorkUpdate(s.threads, t, ThreadStep(s, t).threads[t]);
  }

  lemma ConsumerStepWorks(s: State)
    requires Inv(s) && ConsumerEnabled(s)
    ensures Work(ConsumerStep(s)) < Work(s)
  {
    assert ConsumerOk(s) && EventsOk(s);
  }

  ghost predicate NoNewCalls(run: seq<Step>) {
    forall i :: 0 <= i < |run| ==> run[i].Thread? || run[i].Consume?
  }

  /** Without new calls only so many steps are left, whatever the scheduling. */
  lemma {:induction false} WorkRunsOut(s: State, run: seq<Step>, s': State)
    requires Inv(s) && Runs(s, run, s') && NoNewCalls(run)
    ensures Inv(s') && |run| + Work(s') <= Work(s)
    decreases |run|
  {
    hide Inv, Work;
    if run != [] {
      var s1 := Apply(s, run[0]);
      StepKeepsInv(s, run[0]);
      if run[0].Thread? {
        ThreadStepWorks(s, run[0].t);
      } else {
        ConsumerStepWorks(s);
      }
      WorkRunsOut(s1, run[1..], s');
    }
  }

  /** Once calls stop coming, every schedule that goes on as long as anything can move ends, within a
      known number of steps, with every call returned, those excepted that wait for a token of a queue of
      limit 0; after an exit the consumer has stopped, and unless it was an exit without draining everything
      accepted has been delivered. */
  lemma EveryCallReturns(len: nat, n: nat, s: State, run: seq<Step>, s': State)
    requires Reachable(len, n, s)
    requires Runs(s, run, s') && NoNewCalls(run) && Stuck(s')
    ensures |run| <= Work(s)
    ensures Quiescent(s') <==> len > 0 || AllIdle(s')
    ensures s'.flags.exit ==> s'.consumer == Stopped
    ensures !s'.flags.exit || s'.flags.drain ==> s'.delivered == s'.accepted
  {
    ReachableInv(len, n, s);
    WorkRunsOut(s, run, s');
    ReachableFurther(len, n, s, run, s');
    NoDeadlock(len, n, s');
    StuckStates(len, n, s');
    DeliveredInOrder(len, n, s');
    if !s'.flags.exit {
      QuietIsDelivered(s');
    }
  }

  /** Asleep without an exit, over an empty queue, the consumer has handed everything on. */
  lemma QuietIsDelivered(s: State)
    requires Inv(s) && s.queue == [] && s.consumer.Blocked? && !s.flags.exit
    ensures s.delivered == s.accepted && s.dropped == []
  {
    assert EventsOk(s);
    assert s.delivered + [] + [] + [] == s.delivered;
  }

  lemma ReachableFurther(len: nat, n: nat, s: State, run: seq<Step>, s': State)
    requires Reachable(len, n, s) && Runs(s, run, s')
    ensures Reachable(len, n, s')
  {
    var first :| Runs(Initial(len, n), first, s);
    RunsJoin(Initial(len, n), first, s, run, s');
  }

  lemma {:induction false} RunsJoin(s: State, r1: seq<Step>, s1: State, r2: seq<Step>, s2: State)
    requires Runs(s, r1, s1) && Runs(s1, r2, s2)
    ensures Runs(s, r1 + r2, s2)
    decreases |r1|
  {
    if r1 == [] {
      assert r1 + r2 == r2;
    } else {
      RunsJoin(Apply(s, r1[0]), r1[1..], s1, r2, s2);
      assert (r1 + r2)[1..] == r1[1..] + r2;
    }
  }
}
