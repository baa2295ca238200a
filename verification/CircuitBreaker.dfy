/** The circuit breaker: CLOSED, OPEN and HALF_OPEN, with a recovery timeout, one probe at a time,
    counters, a bounded history and an optional central storage row. */
module CircuitBreaker {
  import opened Wrappers

  datatype Circuit = Closed | Open | HalfOpen
  datatype Reason = Tripped | TimedOut | ProbePassed | ProbeFailed | Manual
  datatype Entry = Entry(from: Circuit, to: Circuit, time: int, reason: Reason, rate: real)

  datatype Config = Config(enabled: bool, threshold: real, timeout: int, maxHistory: nat, durable: bool)

  /** State and counters: what storage keeps, plus the probe flag. */
  datatype Core = Core(state: Circuit, openedAt: Option<int>, probe: bool,
                       attempts: nat, successes: nat, failures: nat, opens: nat)

  datatype Row = Row(state: Circuit, openedAt: Option<int>, rate: real,
                     attempts: nat, successes: nat, failures: nat, opens: nat)

  /** `history` is the bounded deque; `trail` is every transition ever made. */
  datatype Breaker = Breaker(core: Core, rate: real, changed: int, history: seq<Entry>, row: Option<Row>,
                             trail: seq<Entry>)

  /** One call's surroundings: the clock, whether the sync interval has elapsed, whether storage answers. */
  datatype Env = Env(now: int, syncDue: bool, up: bool)

  datatype Op =
    | CurrentState
    | CanProcess
    | CanProbe
    | Evaluate(rate: real)
    | TransitionTo(to: Circuit, observed: Option<real>)
    | BeginProbe
    | RecordResult(rate: real, success: Option<bool>)

  datatype Reply = State(state: Circuit) | Answer(yes: bool) | Done | Raised

  predicate Legal(from: Circuit, to: Circuit)
  {
    (from, to) in {(Closed, Open), (Open, HalfOpen), (HalfOpen, Closed), (HalfOpen, Open)}
  }

  predicate ValidConfig(c: Config)
  {
    0.0 <= c.threshold <= 1.0 && c.timeout > 0 && c.maxHistory >= 1
  }

  function Start(now: int): Breaker
  {
    Breaker(Core(Closed, None, false, 0, 0, 0, 0), 0.0, now, [], None, [])
  }

  /** Appending to a deque of bounded length drops the oldest element once it is full. */
  function Bounded(history: seq<Entry>, e: Entry, max: nat): seq<Entry>
  {
    if |history| < max then history + [e] else (history + [e])[|history| + 1 - max..]
  }

  function RowOf(core: Core, rate: real): Row
  {
    Row(core.state, core.openedAt, rate, core.attempts, core.successes, core.failures, core.opens)
  }

  function Sync(c: Config, b: Breaker, env: Env): Breaker
  {
    if c.durable && env.syncDue && env.up && b.row.Some? then
      var row := b.row.value;
      var openedAt := if row.openedAt.Some? || row.state != Open then row.openedAt else b.core.openedAt;
      b.(core := Core(row.state, openedAt, b.core.probe, row.attempts, row.successes, row.failures, row.opens),
         rate := row.rate)
    else b
  }

  /** The state and counters after entering `to` at time `now`. */
  function Enter(core: Core, to: Circuit, now: int): Core
  {
    match to
    case Open => core.(state := Open, openedAt := Some(now), opens := core.opens + 1, probe := false)
    case Closed => core.(state := Closed, openedAt := None, probe := false)
    case HalfOpen => core.(state := HalfOpen)
  }

  /** A validated transition; `None` is InvalidStateTransitionError. */
  function Transition(c: Config, b: Breaker, to: Circuit, reason: Reason, rate: real, env: Env): Option<Breaker>
  {
    if b.core.state == to then Some(b)
    else if !Legal(b.core.state, to) then None
    else
      var e := Entry(b.core.state, to, env.now, reason, rate);
      var core := Enter(b.core, to, env.now);
      Some(Breaker(core, b.rate, env.now, Bounded(b.history, e, c.maxHistory),
                   if c.durable && env.up then Some(RowOf(core, rate)) else b.row, b.trail + [e]))
  }

  predicate TimeoutDue(c: Config, core: Core, now: int)
  {
    c.enabled && core.state.Open? && core.openedAt.Some? && now - core.openedAt.value >= c.timeout
  }

  function CheckTimeout(c: Config, b: Breaker, env: Env): Breaker
  {
    if TimeoutDue(c, b.core, env.now) then Transition(c, b, HalfOpen, TimedOut, b.rate, env).value else b
  }

  function Refresh(c: Config, b: Breaker, env: Env): Breaker
  {
    CheckTimeout(c, Sync(c, b, env), env)
  }

  function StepEvaluate(c: Config, b: Breaker, rate: real, env: Env): (Breaker, Reply)
  {
    var synced := Sync(c, b, env).(rate := rate);
    if !c.enabled then (synced, State(Closed))
    else
      var checked := CheckTimeout(c, synced, env);
      var after := if checked.core.state.Closed? && rate > c.threshold
                   then Transition(c, checked, Open, Tripped, rate, env).value else checked;
      (after, State(after.core.state))
  }

  function StepBegin(c: Config, b: Breaker, env: Env): (Breaker, Reply)
  {
    if !c.enabled then (b, Answer(false))
    else
      var cur := Refresh(c, b, env);
      if !cur.core.state.HalfOpen? || cur.core.probe then (cur, Answer(false))
      else
        var core := cur.core.(probe := true, attempts := cur.core.attempts + 1);
        (cur.(core := core, row := if c.durable && env.up then Some(RowOf(core, cur.rate)) else cur.row),
         Answer(true))
  }

  predicate Passes(c: Config, rate: real, success: Option<bool>)
  {
    if success.Some? then success.value else rate <= c.threshold
  }

  function StepRecord(c: Config, b: Breaker, rate: real, success: Option<bool>, env: Env): (Breaker, Reply)
  {
    var noted := b.(rate := rate);
    if !b.core.state.HalfOpen? then (noted, Raised)
    else
      var after :=
        if Passes(c, rate, success)
        then Transition(c, noted.(core := b.core.(probe := false, successes := b.core.successes + 1)),
                        Closed, ProbePassed, rate, env).value
        else Transition(c, noted.(core := b.core.(probe := false, failures := b.core.failures + 1)),
                        Open, ProbeFailed, rate, env).value;
      (after, State(after.core.state))
  }

  /** The rate to record: the one given, else the last one seen. */
  function RateOr(observed: Option<real>, last: real): real { if observed.Some? then observed.value else last }

  function Step(c: Config, b: Breaker, op: Op, env: Env): (Breaker, Reply)
  {
    match op
    case CurrentState => var r := Refresh(c, b, env); (r, State(r.core.state))
    case CanProcess => if !c.enabled then (b, Answer(true))
                       else var r := Refresh(c, b, env); (r, Answer(r.core.state.Closed?))
    case CanProbe => if !c.enabled then (b, Answer(false))
                     else var r := Refresh(c, b, env); (r, Answer(r.core.state.HalfOpen? && !r.core.probe))
    case Evaluate(rate) => StepEvaluate(c, b, rate, env)
    case TransitionTo(to, observed) =>
      (match Transition(c, b, to, Manual, RateOr(observed, b.rate), env)
       case Some(after) => (after, Done)
       case None => (b, Raised))
    case BeginProbe => StepBegin(c, b, env)
    case RecordResult(rate, success) => StepRecord(c, b, rate, success, env)
  }

  class Authority {
    const config: Config
    var state: Circuit
    var openedAt: Option<int>
    var changed: int
    var probe: bool
    var rate: real
    var attempts: nat
    var successes: nat
    var failures: nat
    var opens: nat
    var history: seq<Entry>
    var row: Option<Row>
    ghost var trail: seq<Entry>

    ghost function Now(): Core
      reads this
    {
      Core(state, openedAt, probe, attempts, successes, failures, opens)
    }

    ghost function Model(): Breaker
      reads this
    {
      Breaker(Now(), rate, changed, history, row, trail)
    }

    constructor (config: Config, now: int)
      ensures this.config == config && Model() == Start(now)
    {
      this.config := config;
      state, openedAt, changed, probe, rate := Closed, None, now, false, 0.0;
      attempts, successes, failures, opens := 0, 0, 0, 0;
      history, row, trail := [], None, [];
    }

    method SyncFromStorage(env: Env)
      modifies this
      ensures Model() == Sync(config, old(Model()), env)
    {
      if config.durable && env.syncDue && env.up && row.Some? {
        state := row.value.state;
        if row.value.openedAt.Some? {
          openedAt := row.value.openedAt;
        } else if state != Open {
          openedAt := None;
        }
        rate, opens, attempts := row.value.rate, row.value.opens, row.value.attempts;
        successes, failures := row.value.successes, row.value.failures;
      }
    }

    method EnterState(to: Circuit, now: int)
      modifies this`state, this`openedAt, this`opens, this`probe
      ensures Now() == Enter(old(Now()), to, now)
    {
      state := to;
      if to == Open {
        openedAt, opens, probe := Some(now), opens + 1, false;
      } else if to == Closed {
        openedAt, probe := None, false;
      }
    }

    method Execute(to: Circuit, reason: Reason, observed: real, env: Env) returns (raised: bool)
      modifies this
      ensures raised <==> Transition(config, old(Model()), to, reason, observed, env).None?
      ensures Model() == if raised then old(Model())
                else Transition(config, old(Model()), to, reason, observed, env).value
    {
      hide Bounded, Enter, Legal;
      if state == to {
        return false;
      }
      if !Legal(state, to) {
        return true;
      }
      var e := Entry(state, to, env.now, reason, observed);
      EnterState(to, env.now);
      changed, history, trail := env.now, Bounded(history, e, config.maxHistory), trail + [e];
      if config.durable && env.up {
        row := Some(Row(state, openedAt, observed, attempts, successes, failures, opens));
      }
      return false;
    }

    method CheckTimeoutTransition(env: Env)
      modifies this
      ensures Model() == CheckTimeout(config, old(Model()), env)
    {
      if config.enabled && state == Open && openedAt.Some? && env.now - openedAt.value >= config.timeout {
        var raised := Execute(HalfOpen, TimedOut, rate, env);
      }
    }

    method QueryState(env: Env) returns (reply: Reply)
      modifies this
      ensures (Model(), reply) == Step(config, old(Model()), CurrentState, env)
    {
      SyncFromStorage(env);
      CheckTimeoutTransition(env);
      return State(state);
    }

    method MayProcess(env: Env) returns (reply: Reply)
      modifies this
      ensures (Model(), reply) == Step(config, old(Model()), CanProcess, env)
    {
      if !config.enabled {
        return Answer(true);
      }
      SyncFromStorage(env);
      CheckTimeoutTransition(env);
      return Answer(state == Closed);
    }

    method MayProbe(env: Env) returns (reply: Reply)
      modifies this
      ensures (Model(), reply) == Step(config, old(Model()), CanProbe, env)
    {
      if !config.enabled {
        return Answer(false);
      }
      SyncFromStorage(env);
      CheckTimeoutTransition(env);
      return Answer(state == HalfOpen && !probe);
    }

    method EvaluateRate(observed: real, env: Env) returns (reply: Reply)
      modifies this
      ensures (Model(), reply) == Step(config, old(Model()), Evaluate(observed), env)
    {
      SyncFromStorage(env);
      rate := observed;
      if !config.enabled {
        return State(Closed);
      }
      CheckTimeoutTransition(env);
      if state == Closed && observed > config.threshold {
        var raised := Execute(Open, Tripped, observed, env);
      }
      return State(state);
    }

    method MoveTo(to: Circuit, observed: Option<real>, env: Env) returns (reply: Reply)
      modifies this
      ensures (Model(), reply) == Step(config, old(Model()), TransitionTo(to, observed), env)
    {
      var raised := Execute(to, Manual, RateOr(observed, rate), env);
      return if raised then Raised else Done;
    }

    method BeginRecoveryProbe(env: Env) returns (reply: Reply)
      modifies this
      ensures (Model(), reply) == Step(config, old(Model()), BeginProbe, env)
    {
      if !config.enabled {
        return Answer(false);
      }
      SyncFromStorage(env);
      CheckTimeoutTransition(env);
      if state != HalfOpen || probe {
        return Answer(false);
      }
      probe, attempts := true, attempts + 1;
      if config.durable && env.up {
        row := Some(Row(state, openedAt, rate, attempts, successes, failures, opens));
      }
      return Answer(true);
    }

    method RecordRecovery(observed: real, success: Option<bool>, env: Env) returns (reply: Reply)
      modifies this
      ensures (Model(), reply) == Step(config, old(Model()), RecordResult(observed, success), env)
    {
      rate := observed;
      if state != HalfOpen {
        return Raised;
      }
      probe := false;
      var raised;
      if (if success.Some? then success.value else observed <= config.threshold) {
        successes := successes + 1;
        raised := Execute(Closed, ProbePassed, observed, env);
      } else {
        failures := failures + 1;
        raised := Execute(Open, ProbeFailed, observed, env);
      }
      return State(state);
    }
  }
}
