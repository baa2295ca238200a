/** What every run of the circuit breaker keeps. */
module CircuitBreakerRuns {
  import opened Wrappers
  import opened CircuitBreaker

  datatype Call = Call(op: Op, env: Env)

  function Run(c: Config, born: int, calls: seq<Call>, n: nat): Breaker
    requires n <= |calls|
  {
    if n == 0 then Start(born) else Step(c, Run(c, born, calls, n - 1), calls[n - 1].op, calls[n - 1].env).0
  }

  function ReplyAt(c: Config, born: int, calls: seq<Call>, n: nat): Reply
    requires n < |calls|
  {
    Step(c, Run(c, born, calls, n), calls[n].op, calls[n].env).1
  }

  // ----- History --------------------------------------------------------------------------------

  /** Each entry is a legal transition that starts where the one before it ended, from CLOSED on. */
  ghost predicate Chained(trail: seq<Entry>, state: Circuit)
  {
    && (trail == [] ==> state == Closed)
    && (trail != [] ==> trail[0].from == Closed && trail[|trail| - 1].to == state)
    && (forall i :: 0 <= i < |trail| ==> Legal(trail[i].from, trail[i].to))
    && (forall i :: 0 < i < |trail| ==> trail[i - 1].to == trail[i].from)
  }

  function LastOf(trail: seq<Entry>, max: nat): seq<Entry>
  {
    if |trail| <= max then trail else trail[|trail| - max..]
  }

  /** An automatic half-opening comes right after the opening it waits on, a full timeout later. */
  ghost predicate TimeoutsWaited(c: Config, trail: seq<Entry>)
  {
    forall i :: 0 <= i < |trail| && trail[i].reason == TimedOut ==>
      i > 0 && trail[i - 1].to == Open && trail[i].to == HalfOpen && trail[i].time - trail[i - 1].time >= c.timeout
  }

  ghost predicate Sound(c: Config, b: Breaker)
  {
    && (b.core.openedAt.Some? <==> b.core.state != Closed)
    && (b.core.probe ==> b.core.state == HalfOpen)
    && Chained(b.trail, b.core.state)
    && b.history == LastOf(b.trail, c.maxHistory)
    && TimeoutsWaited(c, b.trail)
    && (b.core.state == Open ==> b.core.openedAt == Some(b.trail[|b.trail| - 1].time))
  }

  lemma BoundedIsLast(trail: seq<Entry>, e: Entry, max: nat)
    requires max >= 1
    ensures Bounded(LastOf(trail, max), e, max) == LastOf(trail + [e], max)
  {
  }

  lemma ChainGrows(trail: seq<Entry>, e: Entry)
    requires Chained(trail, e.from) && Legal(e.from, e.to)
    ensures Chained(trail + [e], e.to)
  {
  }

  lemma TimeoutsGrow(c: Config, trail: seq<Entry>, e: Entry)
    requires TimeoutsWaited(c, trail)
    requires e.reason == TimedOut ==>
               trail != [] && trail[|trail| - 1].to == Open && e.to == HalfOpen &&
                   e.time - trail[|trail| - 1].time >= c.timeout
    ensures TimeoutsWaited(c, trail + [e])
  {
  }

  lemma TransitionKeepsSound(c: Config, b: Breaker, to: Circuit, reason: Reason, rate: real, env: Env)
    requires ValidConfig(c) && Sound(c, b)
    requires reason == TimedOut ==> to == HalfOpen && TimeoutDue(c, b.core, env.now)
    ensures var after := Transition(c, b, to, reason, rate, env); after.Some? ==> Sound(c, after.value)
  {
    if b.core.state != to && Legal(b.core.state, to) {
      var e := Entry(b.core.state, to, env.now, reason, rate);
      assert b.core.state == Open ==> b.trail != [] && b.trail[|b.trail| - 1].to == Open;
      BoundedIsLast(b.trail, e, c.maxHistory);
      ChainGrows(b.trail, e);
      TimeoutsGrow(c, b.trail, e);
      hide Chained, LastOf, TimeoutsWaited, Bounded;
      assert Sound(c, Transition(c, b, to, reason, rate, env).value);
    }
  }

  lemma StepKeepsSound(c: Config, b: Breaker, op: Op, env: Env)
    requires ValidConfig(c) && !c.durable && Sound(c, b)
    ensures Sound(c, Step(c, b, op, env).0)
  {
    hide Chained, LastOf, TimeoutsWaited;
    var noted := if op.Evaluate? then b.(rate := op.rate) else b;
    if TimeoutDue(c, b.core, env.now) {
      TransitionKeepsSound(c, noted, HalfOpen, TimedOut, noted.rate, env);
    }
    match op
    case Evaluate(rate) =>
      TransitionKeepsSound(c, CheckTimeout(c, noted, env), Open, Tripped, rate, env);
    case TransitionTo(to, observed) =>
      TransitionKeepsSound(c, b, to, Manual, RateOr(observed, b.rate), env);
    case RecordResult(rate, success) =>
      var core := b.core.(probe := false);
      TransitionKeepsSound(c, b.(rate := rate, core := core.(successes := core.successes + 1)), Closed, ProbePassed,
          rate, env);
      TransitionKeepsSound(c, b.(rate := rate, core := core.(failures := core.failures + 1)), Open, ProbeFailed, rate,
          env);
    case _ =>
  }

  /** In every in-memory run, whatever the calls: `opened_at` is set exactly when not CLOSED, an
      active probe implies HALF_OPEN, the bounded history is the tail of a legal chain that ends in
      the current state, and no automatic half-opening came early. */
  lemma {:induction false} EveryRunIsSound(c: Config, born: int, calls: seq<Call>, n: nat)
    requires ValidConfig(c) && !c.durable && n <= |calls|
    ensures Sound(c, Run(c, born, calls, n))
  {
    if n > 0 {
      EveryRunIsSound(c, born, calls, n - 1);
      StepKeepsSound(c, Run(c, born, calls, n - 1), calls[n - 1].op, calls[n - 1].env);
    }
  }

  /** Once the timeout has passed since the breaker last opened, no state query answers OPEN. */
  lemma NoOpenAfterTimeout(c: Config, born: int, calls: seq<Call>, n: nat)
    requires ValidConfig(c) && c.enabled && !c.durable && n < |calls|
    requires calls[n].op == CurrentState && ReplyAt(c, born, calls, n) == State(Open)
    ensures var trail := Run(c, born, calls, n).trail;
            trail != [] && trail[|trail| - 1].to == Open && calls[n].env.now - trail[|trail| - 1].time < c.timeout
  {
    EveryRunIsSound(c, born, calls, n);
  }

  // ----- Why each transition happened -----------------------------------------------------------

  /** The recorded reason fits the transition, and a trip was caused by a rate above the threshold. */
  predicate Explained(c: Config, e: Entry)
  {
    match e.reason
    case Tripped => e.from == Closed && e.to == Open && e.rate > c.threshold
    case TimedOut => e.from == Open && e.to == HalfOpen
    case ProbePassed => e.from == HalfOpen && e.to == Closed
    case ProbeFailed => e.from == HalfOpen && e.to == Open
    case Manual => Legal(e.from, e.to)
  }

  ghost predicate Justified(c: Config, trail: seq<Entry>) { forall i :: 0 <= i < |trail| ==> Explained(c, trail[i]) }

  lemma TransitionJustified(c: Config, b: Breaker, to: Circuit, reason: Reason, rate: real, env: Env)
    ensures var after := Transition(c, b, to, reason, rate, env);
            Justified(c, b.trail) && Explained(c, Entry(b.core.state, to, env.now, reason, rate)) && after.Some?
            ==> Justified(c, after.value.trail)
    ensures Transition(c, b, to, reason, rate, env).Some? <==> b.core.state == to || Legal(b.core.state, to)
    ensures Transition(c, b, to, Manual, rate, env).Some? && Justified(c, b.trail) ==>
              Justified(c, Transition(c, b, to, Manual, rate, env).value.trail)
  {
  }

  lemma StepJustified(c: Config, b: Breaker, op: Op, env: Env)
    requires Justified(c, b.trail)
    ensures Justified(c, Step(c, b, op, env).0.trail)
  {
    hide Justified, Transition;
    var synced := Sync(c, b, env);
    var noted := if op.Evaluate? then synced.(rate := op.rate) else synced;
    TransitionJustified(c, noted, HalfOpen, TimedOut, noted.rate, env);
    match op
    case Evaluate(rate) =>
      TransitionJustified(c, CheckTimeout(c, noted, env), Open, Tripped, rate, env);
    case TransitionTo(to, observed) =>
      TransitionJustified(c, b, to, Manual, RateOr(observed, b.rate), env);
    case RecordResult(rate, success) =>
      var core := b.core.(probe := false);
      TransitionJustified(c, b.(rate := rate, core := core.(successes := core.successes + 1)), Closed, ProbePassed,
          rate, env);
      TransitionJustified(c, b.(rate := rate, core := core.(failures := core.failures + 1)), Open, ProbeFailed, rate,
          env);
    case _ =>
  }

  /** In every run, with or without storage, each transition has the cause its record names. */
  lemma {:induction false} EveryTransitionJustified(c: Config, born: int, calls: seq<Call>, n: nat)
    requires n <= |calls|
    ensures Justified(c, Run(c, born, calls, n).trail)
  {
    if n > 0 {
      hide Step, Justified;
      EveryTransitionJustified(c, born, calls, n - 1);
      StepJustified(c, Run(c, born, calls, n - 1), calls[n - 1].op, calls[n - 1].env);
    } else {
      assert Justified(c, []);
    }
  }

  // ----- What the calls answer --------------------------------------------------------------------

  /** HALF_OPEN, or OPEN for at least the timeout, with no probe under way. */
  predicate ReadyToProbe(c: Config, core: Core, now: int)
  {
    !core.probe && (core.state == HalfOpen ||
                    (core.state == Open && core.openedAt.Some? && core.openedAt.value + c.timeout <= now))
  }

  /** After synchronizing, events may pass exactly when the breaker is disabled or CLOSED, and a probe may start
      exactly when the breaker is enabled and ready; starting one is answered alike, and counted. An evaluation
      trips exactly an enabled breaker that is CLOSED and sees a rate above the threshold. */
  lemma AnswersExactly(c: Config, b: Breaker, env: Env, rate: real)
    ensures var core := Sync(c, b, env).core;
            && Step(c, b, CanProcess, env).1 == Answer(!c.enabled || core.state == Closed)
            && Step(c, b, CanProbe, env).1 == Answer(c.enabled && ReadyToProbe(c, core, env.now))
            && Step(c, b, BeginProbe, env).1 == Answer(c.enabled && ReadyToProbe(c, core, env.now))
            && (c.enabled ==> Step(c, b, BeginProbe, env).0.core.attempts ==
                              core.attempts + if ReadyToProbe(c, core, env.now) then 1 else 0)
            && Step(c, b, CurrentState, env).1 == State(Step(c, b, CurrentState, env).0.core.state)
            && Step(c, b, CurrentState, env).0.core.state ==
               (if c.enabled && core.state == Open && core.openedAt.Some? && core.openedAt.value + c.timeout <= env.now
                then HalfOpen else core.state)
            && Step(c, b, Evaluate(rate), env).0.rate == rate
            && Step(c, b, Evaluate(rate), env).1 ==
               State(if c.enabled then Step(c, b, Evaluate(rate), env).0.core.state else Closed)
            && (c.enabled ==> (Step(c, b, Evaluate(rate), env).0.core.state == Closed <==>
                               core.state == Closed && rate <= c.threshold))
            && Step(c, b, Evaluate(rate), env).0.core.opens ==
               core.opens + if c.enabled && core.state == Closed && rate > c.threshold then 1 else 0
  {
    hide Sync, Bounded, RowOf;
  }

  /** A probe's result is refused unless the breaker is HALF_OPEN; it closes the breaker if it is called a success, or,
      when it is not called either, if the rate is within the threshold, and reopens it at this moment if not. */
  lemma ResultExactly(c: Config, b: Breaker, rate: real, success: Option<bool>, env: Env)
    ensures var (after, reply) := Step(c, b, RecordResult(rate, success), env);
            var passed := if success == None then rate <= c.threshold else success == Some(true);
            && (reply == Raised <==> b.core.state != HalfOpen)
            && after.core == (if b.core.state != HalfOpen then b.core
                              else if passed then
                                Core(Closed, None, false, b.core.attempts, b.core.successes + 1, b.core.failures,
                                     b.core.opens)
                              else
                                Core(Open, Some(env.now), false, b.core.attempts, b.core.successes,
                                     b.core.failures + 1, b.core.opens + 1))
            && (reply != Raised ==> reply == State(after.core.state))
  {
  }

  /** By hand a breaker may go from CLOSED to OPEN, from OPEN to HALF_OPEN, and from HALF_OPEN to either; staying where
      it is changes nothing, and nothing else is accepted. */
  lemma MoveExactly(c: Config, b: Breaker, to: Circuit, observed: Option<real>, env: Env)
    ensures var (after, reply) := Step(c, b, TransitionTo(to, observed), env);
            && (reply == Raised <==>
                (b.core.state == Closed && to == HalfOpen) || (b.core.state == Open && to == Closed))
            && (reply != Raised ==> after.core.state == to)
            && (b.core.state == to || reply == Raised ==> after == b)
            && (b.core.state != to && reply != Raised ==>
                 && after.changed == env.now && |after.trail| == |b.trail| + 1
                 && after.trail[|b.trail|] ==
                    Entry(b.core.state, to, env.now, Manual, if observed == None then b.rate else observed.value))
  {
  }

  function LastState(trail: seq<Entry>): Circuit { if trail == [] then Closed else trail[|trail| - 1].to }

  /** In every in-memory run, events may pass exactly when the breaker is disabled or its last transition, if it made
      any, was back to CLOSED. */
  lemma GateExactly(c: Config, born: int, calls: seq<Call>, n: nat)
    requires ValidConfig(c) && !c.durable && n < |calls| && calls[n].op == CanProcess
    ensures ReplyAt(c, born, calls, n) == Answer(!c.enabled || LastState(Run(c, born, calls, n).trail) == Closed)
  {
    hide Run, Step;
    EveryRunIsSound(c, born, calls, n);
    AnswersExactly(c, Run(c, born, calls, n), calls[n].env, 0.0);
    InMemory(c, Run(c, born, calls, n), calls[n].env);
  }

  lemma InMemory(c: Config, b: Breaker, env: Env)
    requires !c.durable
    ensures Sync(c, b, env) == b
  {
  }

  /** An evaluation leaves an enabled in-memory breaker CLOSED exactly when it was CLOSED and the rate is
      within the threshold; it never closes one. */
  lemma EvaluateExactly(c: Config, born: int, calls: seq<Call>, n: nat, rate: real)
    requires c.enabled && !c.durable && n < |calls| && calls[n].op == Evaluate(rate)
    ensures Run(c, born, calls, n + 1).core.state == Closed <==>
              Run(c, born, calls, n).core.state == Closed && rate <= c.threshold
    ensures ReplyAt(c, born, calls, n) == State(Run(c, born, calls, n + 1).core.state)
  {
    assert Run(c, born, calls, n + 1) == Step(c, Run(c, born, calls, n), calls[n].op, calls[n].env).0;
  }

  // ----- Ledger ---------------------------------------------------------------------------------

  /** A hand-made transition that takes the breaker out of HALF_OPEN without a recorded probe result. */
  predicate ManualExit(b: Breaker, op: Op)
  {
    op.TransitionTo? && b.core.state == HalfOpen && op.to != HalfOpen
  }

  function ManualExits(c: Config, born: int, calls: seq<Call>, n: nat): nat
    requires n <= |calls|
  {
    if n == 0 then 0
    else ManualExits(c, born, calls, n - 1) +
         (if ManualExit(Run(c, born, calls, n - 1), calls[n - 1].op) then 1 else 0)
  }

  /** Openings not yet settled by a recovery result, beyond the one that may be current. */
  function Unsettled(core: Core): int
  {
    core.opens - core.successes - core.failures - (if core.state != Closed then 1 else 0)
  }

  lemma StepSettles(c: Config, b: Breaker, op: Op, env: Env)
    requires !c.durable
    ensures Unsettled(Step(c, b, op, env).0.core) == Unsettled(b.core) + (if ManualExit(b, op) then 1 else 0)
  {
  }

  /** Every opening is settled by exactly one success, failure or manual exit, or is still current. */
  lemma {:induction false} Ledger(c: Config, born: int, calls: seq<Call>, n: nat)
    requires !c.durable && n <= |calls|
    ensures Unsettled(Run(c, born, calls, n).core) == ManualExits(c, born, calls, n)
  {
    if n > 0 {
      hide Step;
      Ledger(c, born, calls, n - 1);
      StepSettles(c, Run(c, born, calls, n - 1), calls[n - 1].op, calls[n - 1].env);
    }
  }

  /** As the remediation controller uses it, by hand only from OPEN to HALF_OPEN, the books balance. */
  lemma {:induction false} ControllerLedger(c: Config, born: int, calls: seq<Call>, n: nat)
    requires !c.durable && n <= |calls|
    requires forall i :: 0 <= i < n && calls[i].op.TransitionTo? ==> calls[i].op.to == HalfOpen
    ensures var core := Run(c, born, calls, n).core;
            core.opens == core.successes + core.failures + (if core.state != Closed then 1 else 0)
  {
    Ledger(c, born, calls, n);
    NoManualExits(c, born, calls, n);
  }

  lemma {:induction false} NoManualExits(c: Config, born: int, calls: seq<Call>, n: nat)
    requires n <= |calls|
    requires forall i :: 0 <= i < n && calls[i].op.TransitionTo? ==> calls[i].op.to == HalfOpen
    ensures ManualExits(c, born, calls, n) == 0
  {
    if n > 0 {
      NoManualExits(c, born, calls, n - 1);
    }
  }

  // ----- Probes ---------------------------------------------------------------------------------

  predicate Granted(c: Config, born: int, calls: seq<Call>, n: nat)
    requires n < |calls|
  {
    calls[n].op == BeginProbe && ReplyAt(c, born, calls, n) == Answer(true)
  }

  /** Call `k` took the breaker out of HALF_OPEN: a recorded result or a manual transition. */
  predicate LeavesHalfOpen(c: Config, born: int, calls: seq<Call>, k: nat)
    requires k < |calls|
  {
    Run(c, born, calls, k).core.state == HalfOpen && Run(c, born, calls, k + 1).core.state != HalfOpen
  }

  lemma StepKeepsProbe(c: Config, b: Breaker, op: Op, env: Env)
    requires !c.durable && b.core.probe && b.core.state == HalfOpen
    ensures var after := Step(c, b, op, env).0.core;
            if after.state == HalfOpen then after.probe else op.RecordResult? || ManualExit(b, op)
  {
  }

  lemma {:induction false} ProbeHeld(c: Config, born: int, calls: seq<Call>, i: nat, j: nat)
    requires !c.durable && i < j <= |calls| && Granted(c, born, calls, i)
    requires forall k :: i < k < j ==> !LeavesHalfOpen(c, born, calls, k)
    ensures Run(c, born, calls, j).core.probe && Run(c, born, calls, j).core.state == HalfOpen
  {
    if j > i + 1 {
      hide Step;
      ProbeHeld(c, born, calls, i, j - 1);
      StepKeepsProbe(c, Run(c, born, calls, j - 1), calls[j - 1].op, calls[j - 1].env);
      assert !LeavesHalfOpen(c, born, calls, j - 1);
    }
  }

  /** Between two granted probes the breaker left HALF_OPEN, by a recorded result or by hand. */
  lemma ProbesExclude(c: Config, born: int, calls: seq<Call>, i: nat, j: nat)
    requires !c.durable && i < j < |calls|
    requires Granted(c, born, calls, i) && Granted(c, born, calls, j)
    ensures exists k :: i < k < j && LeavesHalfOpen(c, born, calls, k)
                     && (calls[k].op.RecordResult? || ManualExit(Run(c, born, calls, k), calls[k].op))
  {
    var k := i + 1;
    while k < j && !LeavesHalfOpen(c, born, calls, k)
      invariant i < k <= j
      invariant forall m :: i < m < k ==> !LeavesHalfOpen(c, born, calls, m)
    {
      k := k + 1;
    }
    ProbeHeld(c, born, calls, i, k);
    StepKeepsProbe(c, Run(c, born, calls, k), calls[k].op, calls[k].env);
  }

  // ----- Storage --------------------------------------------------------------------------------

  /** The stored row, once there is one, holds the current state and counters. */
  ghost predicate RowCurrent(b: Breaker)
  {
    b.row.None? || b.row.value == RowOf(b.core, b.row.value.rate)
  }

  /** Two breakers on one stored row: when one makes a transition and the store answers, the other has its state and
      counters after its next synchronization, whatever it held before, but keeps its own probe flag. */
  lemma TransitionsAreSeen(c: Config, writer: Breaker, reader: Breaker, to: Circuit, reason: Reason, rate: real,
                           env: Env, later: Env)
    requires c.durable && env.up && later.up && later.syncDue
    requires writer.core.state != to && Legal(writer.core.state, to)
    ensures var written := Transition(c, writer, to, reason, rate, env).value;
            var synced := Sync(c, reader.(row := written.row), later);
            synced.core == written.core.(probe := reader.core.probe) && synced.rate == rate
  {
  }

  /** With no store, no answer from it, no row in it, or too early, synchronizing changes nothing. */
  lemma SyncSkipped(c: Config, b: Breaker, env: Env)
    requires !c.durable || !env.syncDue || !env.up || b.row == None
    ensures Sync(c, b, env) == b
  {
  }

  /** Same state and counters, and nothing in storage that a synchronization would change. */
  ghost predicate Agree(memory: Breaker, stored: Breaker)
  {
    && memory.core == stored.core && RowCurrent(stored)
    && (stored.core.openedAt.Some? <==> stored.core.state != Closed)
  }

  lemma SyncAgrees(c: Config, memory: Breaker, stored: Breaker, env: Env)
    requires !c.durable && Agree(memory, stored)
    ensures Agree(Sync(c, memory, env), Sync(c.(durable := true), stored, env))
  {
  }

  lemma TransitionAgrees(c: Config, memory: Breaker, stored: Breaker, to: Circuit, reason: Reason, rates: (real, real),
                         env: Env)
    requires !c.durable && env.up && Agree(memory, stored)
    ensures var (m, s) := (Transition(c, memory, to, reason, rates.0, env),
                           Transition(c.(durable := true), stored, to, reason, rates.1, env));
            && (m.Some? <==> s.Some?)
            && (m.Some? <==> memory.core.state == to || Legal(memory.core.state, to))
            && (m.Some? ==> Agree(m.value, s.value))
  {
  }

  lemma CheckTimeoutAgrees(c: Config, memory: Breaker, stored: Breaker, env: Env)
    requires !c.durable && env.up && Agree(memory, stored)
    ensures Agree(CheckTimeout(c, memory, env), CheckTimeout(c.(durable := true), stored, env))
  {
    TransitionAgrees(c, memory, stored, HalfOpen, TimedOut, (memory.rate, stored.rate), env);
  }

  lemma StepAgrees(c: Config, memory: Breaker, stored: Breaker, op: Op, env: Env)
    requires !c.durable && env.up && Agree(memory, stored)
    ensures var after := Step(c.(durable := true), stored, op, env);
            Agree(Step(c, memory, op, env).0, after.0) && Step(c, memory, op, env).1 == after.1
  {
    var d := c.(durable := true);
    hide Sync, CheckTimeout, Transition;
    var (m, s) := (Sync(c, memory, env), Sync(d, stored, env));
    SyncAgrees(c, memory, stored, env);
    CheckTimeoutAgrees(c, m, s, env);
    match op
    case Evaluate(rate) =>
      var (m1, s1) := (m.(rate := rate), s.(rate := rate));
      CheckTimeoutAgrees(c, m1, s1, env);
      TransitionAgrees(c, CheckTimeout(c, m1, env), CheckTimeout(d, s1, env), Open, Tripped, (rate, rate), env);
    case TransitionTo(to, observed) =>
      TransitionAgrees(c, memory, stored, to, Manual,
                       (RateOr(observed, memory.rate), RateOr(observed, stored.rate)), env);
    case RecordResult(rate, success) => RecordAgrees(c, memory, stored, rate, success, env);
    case _ =>
  }

  /** Between noting a probe result and the transition that stores it the row is behind, but nothing
      reads it. */
  lemma RecordAgrees(c: Config, memory: Breaker, stored: Breaker, rate: real, success: Option<bool>, env: Env)
    requires !c.durable && env.up && Agree(memory, stored)
    ensures var after := StepRecord(c.(durable := true), stored, rate, success, env);
            Agree(StepRecord(c, memory, rate, success, env).0, after.0) &&
                StepRecord(c, memory, rate, success, env).1 == after.1
  {
  }

  /** A sole writer whose storage always answers takes the same states, counters and replies as an
      in-memory breaker, however often it synchronizes. */
  lemma {:induction false} SoleWriterAgrees(c: Config, born: int, calls: seq<Call>, n: nat)
    requires ValidConfig(c) && !c.durable && n <= |calls|
    requires forall i :: 0 <= i < |calls| ==> calls[i].env.up
    ensures var durable := c.(durable := true);
            && Agree(Run(c, born, calls, n), Run(durable, born, calls, n))
            && (n < |calls| ==> ReplyAt(c, born, calls, n) == ReplyAt(durable, born, calls, n))
  {
    hide Step;
    if n > 0 {
      SoleWriterAgrees(c, born, calls, n - 1);
      StepAgrees(c, Run(c, born, calls, n - 1), Run(c.(durable := true), born, calls, n - 1),
                 calls[n - 1].op, calls[n - 1].env);
    }
    if n < |calls| {
      StepAgrees(c, Run(c, born, calls, n), Run(c.(durable := true), born, calls, n), calls[n].op, calls[n].env);
    }
  }
}
