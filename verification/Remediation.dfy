/** The remediation controller: one recovery attempt drives the pipeline state, the circuit breaker, the
    incident table and the lakehouse sink through its stages. */
module Remediation {
  import opened Wrappers
  import opened Reprocessor
  import opened LakehouseSink
  import opened Incidents
  import opened IncidentIds
  import Pipeline = PipelineState
  import Cb = CircuitBreaker

  datatype Stage = IdempotentSkipped | MaxAttemptsExceeded | QuarantineVerified | Refetching | Validation |
      ReIngesting | Complete
  datatype RemediationResult = RemediationResult(success: bool, stage: Stage, attempt: int, recovered: int, failed: int)

  /** `Raised` is an exception that leaves the call: the body has a finally but no except. */
  datatype Outcome = Returned(result: RemediationResult) | Raised

  /** The places where a call into storage or another service may raise. */
  datatype Point =
    | SavingAttempt | EnteringRemediating | SendingAlert | EnteringRefetching | EnteringReprocessing | Processing
    | EnteringValidating | EnteringReIngesting | AuditingReIngestion | EnteringResuming | EnteringRunning
    | SavingRecovered | AuditingRecovery | RecordingFailure | SavingFailure | AuditingFailure | Loading | Creating

  /** The state manager: its phase and its audit trail. */
  datatype Pipe = Pipe(phase: Pipeline.Phase, trail: seq<Pipeline.Entry>)

  datatype System = System(pipe: Pipe, breaker: Cb.Breaker, rows: Table, table: seq<Row>)

  /** What does not change: no maximum stands for none or infinity. */
  datatype Setup = Setup(maxAttempts: Option<real>, breaker: Cb.Config, maxRetries: int,
                         schema: seq<Column>, convert: (string, Value, Value) -> Value)

  /** One call to the controller and everything it meets. `fetched` is None when re-fetching raises. */
  datatype Invocation = Invocation(incidentId: string, date: string, now: int, faults: set<Point>,
                       quarantineFailed: bool, quarantineRequired: bool,
                       fetched: Option<seq<Event>>, verdict: nat -> bool, sink: World, sinkNow: Value,
                       onCreate: Cb.Env, onQuery: Cb.Env, onReopen: Cb.Env, onRecord: Cb.Env, onRequery: Cb.Env)

  function Moved(p: Pipe, to: Pipeline.Phase, force: bool): Pipe
  {
    Pipe(to, p.trail + [Pipeline.Entry(p.phase, to, force)])
  }

  function Moves(s: System, to: Pipeline.Phase): System { s.(pipe := Moved(s.pipe, to, false)) }

  function CircuitName(c: Cb.Circuit): string
  {
    match c case Closed => "CLOSED" case Open => "OPEN" case HalfOpen => "HALF_OPEN"
  }

  function NewRow(now: int, circuit: Cb.Circuit): Incident
  {
    Incident("checkout-stream", "icestream", "CRITICAL_ERROR_RATE", now, Open, 0.05, 1, 10000, 1, CircuitName(circuit),
        0, None)
  }

  /** No incident is named that exists, and none is active: a new one is created. */
  ghost predicate Creates(rows: Table, c: Invocation)
  {
    if c.incidentId != "" then c.incidentId !in rows else NoneActive(rows, "icestream")
  }

  /** Creating an incident asks the breaker for its state first. */
  function Queried(k: Setup, s: System, c: Invocation): System
  {
    s.(breaker := Cb.Step(k.breaker, s.breaker, Cb.CurrentState, c.onCreate).0)
  }

  /** Which incident a call works on: the named one, else the pipeline's active one, else a new one. */
  ghost predicate Loads(k: Setup, before: System, c: Invocation, after: System, id: string)
  {
    var rows := before.rows;
    if !Creates(rows, c) then
      after == before && if c.incidentId != "" then id == c.incidentId else IsLatest(rows, "icestream", id)
    else
      && (if c.incidentId != "" then id == c.incidentId else IsNextId(rows.Keys, Prefix(c.date), id))
      && var queried := Queried(k, before, c);
         after == queried.(rows := Upsert(rows, id, NewRow(c.now, queried.breaker.core.state)))
  }

  /** Loading may raise at once, or, when an incident is created, after the breaker was asked. */
  ghost predicate LoadRaises(k: Setup, before: System, c: Invocation, after: System)
  {
    if Loading in c.faults then after == before
    else Creating in c.faults && Creates(before.rows, c) && after == Queried(k, before, c)
  }

  /** The pipeline is marked failed first, then the incident, then an audit row is written, except when
      re-fetching failed. */
  function Fail(s: System, id: string, row: Incident, c: Invocation, result: RemediationResult): (System, Outcome)
  {
    if RecordingFailure in c.faults then (s, Raised)
    else
      var failed := s.(pipe := Moved(s.pipe, Pipeline.RecoveryFailed, true));
      if SavingFailure in c.faults then (failed, Raised)
      else
        (failed.(rows := Upsert(s.rows, id, row.(status := RecoveryFailed))),
         if AuditingFailure in c.faults && result.stage != Refetching then Raised else Returned(result))
  }

  function Resume(s: System, id: string, row: Incident, r: ReprocessResult, c: Invocation): (System, Outcome)
  {
    if AuditingReIngestion in c.faults || EnteringResuming in c.faults then (s, Raised)
    else
      var resuming := Moves(s, Pipeline.Resuming);
      if EnteringRunning in c.faults then (resuming, Raised)
      else
        var running := Moves(resuming, Pipeline.Running);
        if SavingRecovered in c.faults then (running, Raised)
        else
          var done := running.(rows := Upsert(s.rows, id, row.(status := Recovered, resolvedAt := Some(c.now))));
          (done, if AuditingRecovery in c.faults then Raised
                 else Returned(RemediationResult(true, Complete, row.attempt, r.validCount, r.invalidCount)))
  }

  /** The sink's own failures, raised or returned, all count as a failed write. */
  function Reingest(k: Setup, s: System, id: string, row: Incident, r: ReprocessResult,
                    c: Invocation): (System, Outcome)
    requires Distinct(k.schema)
  {
    if EnteringReIngesting in c.faults then (s, Raised)
    else
      var d := Delivered(c.sink, k.maxRetries, r.valid);
      var written := Moves(s, Pipeline.ReIngesting).(
        table := s.table + Repeat(Projections(k.convert, k.schema, r.valid, c.sinkNow), d.commits));
      if d.success then Resume(written, id, row, r, c)
      else Fail(written, id, row, c, RemediationResult(false, ReIngesting, row.attempt, 0, r.total))
  }

  /** A breaker found OPEN is half-opened by hand, then it is told the batch's error rate. */
  function Probe(k: Setup, b: Cb.Breaker, rate: real, c: Invocation): (Cb.Breaker, Cb.Reply)
  {
    var queried := Cb.Step(k.breaker, b, Cb.CurrentState, c.onQuery).0;
    var ready :=
      if queried.core.state.Open? then Cb.Step(k.breaker, queried, Cb.TransitionTo(Cb.HalfOpen, None), c.onReopen).0
      else queried;
    Cb.Step(k.breaker, ready, Cb.RecordResult(rate, None), c.onRecord)
  }

  function Judge(k: Setup, s: System, id: string, row: Incident, r: ReprocessResult, c: Invocation): (System, Outcome)
    requires Distinct(k.schema)
  {
    var (probed, reply) := Probe(k, s.breaker, r.rate, c);
    var failure := RemediationResult(false, Validation, row.attempt, r.validCount, r.invalidCount);
    if !reply.State? then (s.(breaker := probed), Raised)
    else if !FullyValid(r) then Fail(s.(breaker := probed), id, row, c, failure)
    else if reply.state.Closed? then Reingest(k, s.(breaker := probed), id, row, r, c)
    else
      var again := Cb.Step(k.breaker, probed, Cb.CurrentState, c.onRequery).0;
      if again.core.state.Closed? then Reingest(k, s.(breaker := again), id, row, r, c)
      else Fail(s.(breaker := again), id, row, c, failure)
  }

  /** From REMEDIATING: verify quarantine, alert, re-fetch, reprocess, validate. */
  function Recover(k: Setup, s: System, id: string, row: Incident, c: Invocation): (System, Outcome)
    requires Distinct(k.schema)
  {
    if c.quarantineFailed || (c.quarantineRequired && row.quarantine == 0) then
      Fail(s, id, row, c, RemediationResult(false, QuarantineVerified, row.attempt, 0, 0))
    else if SendingAlert in c.faults || EnteringRefetching in c.faults then (s, Raised)
    else
      var refetching := Moves(s, Pipeline.Refetching);
      match c.fetched
      case None => Fail(refetching, id, row, c, RemediationResult(false, Refetching, row.attempt, 0, 0))
      case Some(events) =>
        if EnteringReprocessing in c.faults then (refetching, Raised)
        else
          var reprocessing := Moves(refetching, Pipeline.Reprocessing);
          if Processing in c.faults || EnteringValidating in c.faults then (reprocessing, Raised)
          else Judge(k, Moves(reprocessing, Pipeline.Validating), id, row,
                     Processed(events, c.incidentId, row.attempt, c.verdict), c)
  }

  predicate Exhausted(k: Setup, attempt: nat)
  {
    k.maxAttempts.Some? && k.maxAttempts.value > 0.0 && attempt as real > k.maxAttempts.value
  }

  /** One attempt on a loaded incident. */
  function RunAttempt(k: Setup, s: System, id: string, c: Invocation): (System, Outcome)
    requires Distinct(k.schema) && id in s.rows
  {
    var row := s.rows[id].(attempt := s.rows[id].attempt + 1, status := Remediating);
    if Exhausted(k, row.attempt) then
      if RecordingFailure in c.faults then (s, Raised)
      else (s.(pipe := Moved(s.pipe, Pipeline.RecoveryFailed, true)),
            Returned(RemediationResult(false, MaxAttemptsExceeded, row.attempt - 1, 0, 0)))
    else if SavingAttempt in c.faults then (s, Raised)
    else
      var saved := s.(rows := Upsert(s.rows, id, row));
      if EnteringRemediating in c.faults then (saved, Raised)
      else Recover(k, saved.(pipe := Moved(s.pipe, Pipeline.Remediating, true)), id, row, c)
  }

  ghost predicate LoadMustRaise(rows: Table, c: Invocation)
  {
    Loading in c.faults || (Creating in c.faults && Creates(rows, c))
  }

  // ----- The controller ---------------------------------------------------------------------------

  class RemediationController {
    const maxAttempts: Option<real>
    const manager: Pipeline.Manager
    const breaker: Cb.Authority
    const store: IncidentStore
    const sink: IcebergLakehouseSink
    var busy: bool

    ghost predicate Valid()
      reads manager
    {
      manager.Valid() && Distinct(sink.schema)
    }

    ghost function Model(): System
      reads manager, breaker, store, sink
    {
      System(Pipe(manager.current, manager.trail), breaker.Model(), store.rows, sink.table)
    }

    ghost function Config(): Setup
    {
      Setup(maxAttempts, breaker.config, sink.maxRetries, sink.schema, sink.convert)
    }

    constructor (maxAttempts: Option<real>, manager: Pipeline.Manager, breaker: Cb.Authority,
                 store: IncidentStore, sink: IcebergLakehouseSink)
      requires manager.Valid() && Distinct(sink.schema)
      ensures Valid() && !busy
      ensures this.maxAttempts == maxAttempts && this.manager == manager && this.breaker == breaker
      ensures this.store == store && this.sink == sink
    {
      this.maxAttempts, this.manager, this.breaker := maxAttempts, manager, breaker;
      this.store, this.sink, busy := store, sink, false;
    }

    method GetOrCreateIncident(c: Invocation) returns (found: Option<string>)
      modifies breaker, store
      ensures found.None? ==> LoadRaises(Config(), old(Model()), c, Model())
      ensures found.Some? ==> found.value in store.rows && !LoadMustRaise(old(store.rows), c)
      ensures found.Some? ==> Loads(Config(), old(Model()), c, Model(), found.value)
    {
      hide IsLatest, IsNextId, NoneActive, Prefix, Cb.Sync, Cb.CheckTimeout;
      if Loading in c.faults {
        return None;
      }
      if c.incidentId != "" && c.incidentId in store.rows {
        return Some(c.incidentId);
      }
      if c.incidentId == "" {
        var active := store.FindActiveIncident("icestream");
        if active.Some? {
          InRows(store.rows, "icestream", active.value);
          return active;
        }
      }
      var id := c.incidentId;
      if id == "" {
        id := GenerateIncidentId(store.rows.Keys, c.date);
      }
      var reply := breaker.QueryState(c.onCreate);
      if Creating in c.faults {
        return None;
      }
      store.CreateIncident(id, NewRow(c.now, breaker.state));
      return Some(id);
    }

    method RecordFailure(id: string, row: Incident, c: Invocation, result: RemediationResult) returns (o: Outcome)
      requires Valid()
      modifies manager, store
      ensures Valid() && (Model(), o) == Fail(old(Model()), id, row, c, result)
    {
      if RecordingFailure in c.faults {
        return Raised;
      }
      manager.RecordFailure();
      if SavingFailure in c.faults {
        return Raised;
      }
      store.CreateIncident(id, row.(status := RecoveryFailed));
      return if AuditingFailure in c.faults && result.stage != Refetching then Raised else Returned(result);
    }

    method ResumePipeline(id: string, row: Incident, r: ReprocessResult, c: Invocation) returns (o: Outcome)
      requires Valid() && manager.current == Pipeline.ReIngesting
      modifies manager, store
      ensures Valid() && (Model(), o) == Resume(old(Model()), id, row, r, c)
    {
      var raised;
      if AuditingReIngestion in c.faults || EnteringResuming in c.faults {
        return Raised;
      }
      raised := manager.TransitionTo(Pipeline.Resuming, false);
      if EnteringRunning in c.faults {
        return Raised;
      }
      raised := manager.TransitionTo(Pipeline.Running, false);
      if SavingRecovered in c.faults {
        return Raised;
      }
      store.CreateIncident(id, row.(status := Recovered, resolvedAt := Some(c.now)));
      return if AuditingRecovery in c.faults then Raised
             else Returned(RemediationResult(true, Complete, row.attempt, r.validCount, r.invalidCount));
    }

    method ReingestEvents(id: string, row: Incident, r: ReprocessResult, c: Invocation) returns (o: Outcome)
      requires Valid() && manager.current == Pipeline.Validating
      modifies manager, store, sink
      ensures Valid() && (Model(), o) == Reingest(Config(), old(Model()), id, row, r, c)
    {
      hide Fail, Resume, Delivered, Repeat, Projections;
      if EnteringReIngesting in c.faults {
        return Raised;
      }
      var raised := manager.TransitionTo(Pipeline.ReIngesting, false);
      var written := sink.WriteEvents(r.valid, c.sink, c.sinkNow);
      if !written.success {
        o := RecordFailure(id, row, c, RemediationResult(false, ReIngesting, row.attempt, 0, r.total));
      } else {
        o := ResumePipeline(id, row, r, c);
      }
    }

    method ProbeBreaker(rate: real, c: Invocation) returns (reply: Cb.Reply)
      modifies breaker
      ensures (breaker.Model(), reply) == Probe(Config(), old(breaker.Model()), rate, c)
    {
      hide Cb.Sync, Cb.CheckTimeout, Cb.Transition, Cb.StepRecord;
      var state := breaker.QueryState(c.onQuery);
      if breaker.state == Cb.Open {
        var moved := breaker.MoveTo(Cb.HalfOpen, None, c.onReopen);
      }
      reply := breaker.RecordRecovery(rate, None, c.onRecord);
    }

    method JudgeBatch(id: string, row: Incident, r: ReprocessResult, c: Invocation) returns (o: Outcome)
      requires Valid() && manager.current == Pipeline.Validating
      modifies manager, breaker, store, sink
      ensures Valid() && (Model(), o) == Judge(Config(), old(Model()), id, row, r, c)
    {
      hide Fail, Reingest, Probe, FullyValid, Cb.Sync, Cb.CheckTimeout;
      var failure := RemediationResult(false, Validation, row.attempt, r.validCount, r.invalidCount);
      var reply := ProbeBreaker(r.rate, c);
      if !reply.State? {
        return Raised;
      }
      var recovered := reply.state.Closed?;
      if FullyValid(r) && !recovered {
        var state := breaker.QueryState(c.onRequery);
        recovered := breaker.state == Cb.Closed;
      }
      if FullyValid(r) && recovered {
        o := ReingestEvents(id, row, r, c);
      } else {
        o := RecordFailure(id, row, c, failure);
      }
    }

    method RecoverIncident(id: string, row: Incident, c: Invocation) returns (o: Outcome)
      requires Valid() && manager.current == Pipeline.Remediating
      modifies manager, breaker, store, sink
      ensures Valid() && (Model(), o) == Recover(Config(), old(Model()), id, row, c)
    {
      hide Fail, Judge, Processed;
      var raised;
      if c.quarantineFailed || (c.quarantineRequired && row.quarantine == 0) {
        o := RecordFailure(id, row, c, RemediationResult(false, QuarantineVerified, row.attempt, 0, 0));
        return;
      }
      if SendingAlert in c.faults || EnteringRefetching in c.faults {
        return Raised;
      }
      raised := manager.TransitionTo(Pipeline.Refetching, false);
      if c.fetched.None? {
        o := RecordFailure(id, row, c, RemediationResult(false, Refetching, row.attempt, 0, 0));
        return;
      }
      if EnteringReprocessing in c.faults {
        return Raised;
      }
      raised := manager.TransitionTo(Pipeline.Reprocessing, false);
      if Processing in c.faults {
        return Raised;
      }
      var r := Process(c.fetched.value, c.incidentId, row.attempt, c.verdict);
      if EnteringValidating in c.faults {
        return Raised;
      }
      raised := manager.TransitionTo(Pipeline.Validating, false);
      o := JudgeBatch(id, row, r, c);
    }

    method AttemptRecovery(id: string, c: Invocation) returns (o: Outcome)
      requires Valid() && id in store.rows
      modifies manager, breaker, store, sink
      ensures Valid() && (Model(), o) == RunAttempt(Config(), old(Model()), id, c)
    {
      hide Recover, Upsert;
      var row := store.rows[id];
      row := row.(attempt := row.attempt + 1);
      if maxAttempts.Some? && maxAttempts.value > 0.0 && row.attempt as real > maxAttempts.value {
        if RecordingFailure in c.faults {
          return Raised;
        }
        manager.RecordFailure();
        return Returned(RemediationResult(false, MaxAttemptsExceeded, row.attempt - 1, 0, 0));
      }
      row := row.(status := Remediating);
      if SavingAttempt in c.faults {
        return Raised;
      }
      store.CreateIncident(id, row);
      if EnteringRemediating in c.faults {
        return Raised;
      }
      var raised := manager.TransitionTo(Pipeline.Remediating, true);
      o := RecoverIncident(id, row, c);
    }

    /** While a remediation is in progress a call changes nothing. Otherwise it runs one attempt and
        clears the in-progress flag on every way out, an exception included. */
    method ExecuteRemediation(c: Invocation) returns (o: Outcome)
      requires Valid()
      modifies this`busy, manager, breaker, store, sink
      ensures Valid()
      ensures old(busy) ==>
                busy && o == Returned(RemediationResult(false, IdempotentSkipped, 0, 0, 0)) && Model() == old(Model())
      ensures !old(busy) ==> !busy && Executes(Config(), old(Model()), c, Model(), o)
    {
      hide RunAttempt, Loads, LoadRaises, LoadMustRaise;
      if busy {
        return Returned(RemediationResult(false, IdempotentSkipped, 0, 0, 0));
      }
      busy := true;
      var id := GetOrCreateIncident(c);
      if id.None? {
        o := Raised;
      } else {
        ghost var loaded := Model();
        o := AttemptRecovery(id.value, c);
        assert Loads(Config(), old(Model()), c, loaded, id.value) && id.value in loaded.rows;
      }
      busy := false;
    }
  }

  /** What one call does when no other is in progress. */
  ghost predicate Executes(k: Setup, before: System, c: Invocation, after: System, o: Outcome)
    requires Distinct(k.schema)
  {
    || (o == Raised && LoadRaises(k, before, c, after))
    || (!LoadMustRaise(before.rows, c) &&
        exists loaded, id ::
          Loads(k, before, c, loaded, id) && id in loaded.rows && (after, o) == RunAttempt(k, loaded, id, c))
  }
}
