/** What a recovery attempt means end to end, and what runs of attempts keep. */
module RemediationRuns {
  import opened Wrappers
  import opened Reprocessor
  import opened LakehouseSink
  import opened IncidentIds
  import opened Incidents
  import opened Remediation
  import Pipeline = PipelineState
  import Cb = CircuitBreaker

  // ----- The breaker at validation ----------------------------------------------------------------

  /** The breaker's state when validation asks for it. */
  function StateAtValidation(k: Setup, b: Cb.Breaker, c: Invocation): Cb.Circuit
  {
    Cb.Step(k.breaker, b, Cb.CurrentState, c.onQuery).0.core.state
  }

  /** Recording the result is refused exactly when the breaker is found CLOSED; otherwise the breaker
      closes exactly when the rate is within the threshold. */
  lemma ProbeExactly(k: Setup, b: Cb.Breaker, rate: real, c: Invocation)
    ensures var (probed, reply) := Probe(k, b, rate, c);
            && (reply.State? <==> !StateAtValidation(k, b, c).Closed?)
            && (reply.State? ==> reply.state == probed.core.state)
            && (reply.State? ==> (reply.state.Closed? <==> rate <= k.breaker.threshold))
            && (!reply.State? ==> probed.core.state.Closed?)
  {
    hide Cb.Sync, Cb.CheckTimeout;
  }

  // ----- The limit on attempts ----------------------------------------------------------------------

  /** A positive maximum is set, and one attempt more than `made` would pass it. */
  predicate OverMaximum(k: Setup, made: nat)
  {
    k.maxAttempts.Some? && k.maxAttempts.value > 0.0 && made as real + 1.0 > k.maxAttempts.value
  }

  // ----- Which incident is worked on ----------------------------------------------------------------

  /** A named incident that exists, or else the pipeline's active one, is worked on as it stands. Only when there is
      none is one created, open and with no attempt made, unless its id is taken; no other incident changes. */
  lemma LoadsExactly(k: Setup, before: System, c: Invocation, after: System, id: string)
    requires Loads(k, before, c, after, id)
    ensures c.incidentId != "" ==> id == c.incidentId
    ensures c.incidentId != "" && c.incidentId in before.rows ==> after == before
    ensures c.incidentId == "" && !NoneActive(before.rows, "icestream") ==>
              after == before && IsLatest(before.rows, "icestream", id)
    ensures (if c.incidentId != "" then c.incidentId !in before.rows else NoneActive(before.rows, "icestream")) ==>
              && after.rows.Keys == before.rows.Keys + {id}
              && after.rows[id].status == Open && after.rows[id].attempt == 0
              && after.rows[id].circuit == (if after.breaker.core.state == Cb.Closed then "CLOSED"
                                            else if after.breaker.core.state == Cb.Open then "OPEN" else "HALF_OPEN")
              && (id !in before.rows ==>
                   && after.rows[id].createdAt == c.now && after.rows[id].trigger == "CRITICAL_ERROR_RATE"
                   && after.rows[id].pipelineName == "checkout-stream" && after.rows[id].pipelineId == "icestream")
    ensures forall o :: o in before.rows && o != id ==> o in after.rows && after.rows[o] == before.rows[o]
    ensures after.pipe == before.pipe && after.table == before.table
  {
    hide IsLatest, NoneActive, IsNextId, Cb.Step;
  }

  // ----- Success ----------------------------------------------------------------------------------

  function EventsOf(c: Invocation): seq<Event> { if c.fetched.Some? then c.fetched.value else [] }

  function RowsFor(k: Setup, c: Invocation): seq<Row>
    requires Distinct(k.schema)
  {
    Projections(k.convert, k.schema, EventsOf(c), c.sinkNow)
  }

  /** The table has no columns for the provenance keys. */
  ghost predicate PlainSchema(schema: seq<Column>)
  {
    Distinct(schema) && forall i :: 0 <= i < |schema| ==>
        schema[i].name != INCIDENT_KEY && schema[i].name != ATTEMPT_KEY
  }

  lemma TaggedRows(k: Setup, c: Invocation, attempt: int)
    requires PlainSchema(k.schema)
    ensures Projections(k.convert, k.schema, AllTagged(EventsOf(c), c.incidentId, attempt), c.sinkNow) == RowsFor(k, c)
  {
    hide Projection;
    var events := EventsOf(c);
    forall i | 0 <= i < |events|
      ensures Projection(k.convert, k.schema, Tagged(events[i], c.incidentId, attempt), c.sinkNow)
           == Projection(k.convert, k.schema, events[i], c.sinkNow)
    {
      ProvenanceIsDropped(k.convert, k.schema, events[i], c.sinkNow, c.incidentId, attempt);
    }
  }

  predicate Succeeded(o: Outcome) { o.Returned? && o.result.success }

  /** Only a completed re-ingestion reports success. */
  lemma ReingestSucceeds(k: Setup, s: System, id: string, row: Incident, r: ReprocessResult, c: Invocation)
    requires Distinct(k.schema) && Succeeded(Reingest(k, s, id, row, r, c).1) && id in s.rows
    requires r.valid != []
    ensures var (after, d) := (Reingest(k, s, id, row, r, c).0, Delivered(c.sink, k.maxRetries, r.valid));
            && d.success && (k.maxRetries >= 1 ==> 1 <= d.commits <= k.maxRetries)
            && after.pipe.phase == Pipeline.Running && after.breaker == s.breaker
            && id in after.rows && after.rows[id].status == Recovered && after.rows[id].attempt == row.attempt
            && after.rows[id].resolvedAt == Some(c.now)
            && Reingest(k, s, id, row, r, c).1.result ==
               RemediationResult(true, Complete, row.attempt, r.validCount, r.invalidCount)
            && after.table == s.table + Repeat(Projections(k.convert, k.schema, r.valid, c.sinkNow), d.commits)
  {
    hide Projections, Repeat, Deliver;
    if k.maxRetries >= 1 {
      SuccessMeansCommitted(c.sink, k.maxRetries, 0);
    }
  }

  lemma JudgeSucceeds(k: Setup, s: System, id: string, row: Incident, r: ReprocessResult, c: Invocation)
    requires Distinct(k.schema) && Succeeded(Judge(k, s, id, row, r, c).1)
    ensures FullyValid(r) && !StateAtValidation(k, s.breaker, c).Closed?
    ensures exists b: Cb.Breaker ::
              b.core.state.Closed? && Judge(k, s, id, row, r, c) == Reingest(k, s.(breaker := b), id, row, r, c)
  {
    hide Reingest, Probe, StateAtValidation, FullyValid, Cb.Sync, Cb.CheckTimeout;
    ProbeExactly(k, s.breaker, r.rate, c);
    var (probed, reply) := Probe(k, s.breaker, r.rate, c);
    var again := Cb.Step(k.breaker, probed, Cb.CurrentState, c.onRequery).0;
    if FullyValid(r) {
      assert Judge(k, s, id, row, r, c) ==
             Reingest(k, s.(breaker := if reply.state.Closed? then probed else again), id, row, r, c);
    }
  }

  /** The system when validation begins. */
  function Validating(s: System, id: string, row: Incident): System
  {
    var started := s.(rows := Upsert(s.rows, id, row), pipe := Moved(s.pipe, Pipeline.Remediating, true));
    Moves(Moves(Moves(started, Pipeline.Refetching), Pipeline.Reprocessing), Pipeline.Validating)
  }

  function RowOf(s: System, id: string): Incident
    requires id in s.rows
  {
    s.rows[id].(attempt := s.rows[id].attempt + 1, status := Remediating)
  }

  predicate QuarantineFails(row: Incident, c: Invocation)
  {
    c.quarantineFailed || (c.quarantineRequired && row.quarantine == 0)
  }

  /** The attempt gets as far as validation. */
  predicate Validates(k: Setup, s: System, id: string, c: Invocation)
    requires id in s.rows
  {
    && !Exhausted(k, RowOf(s, id).attempt) && !QuarantineFails(s.rows[id], c) && c.fetched.Some?
    && c.faults !! {SavingAttempt, EnteringRemediating, SendingAlert, EnteringRefetching, EnteringReprocessing,
                    Processing, EnteringValidating}
  }

  /** An attempt that validates is decided by the breaker and the batch; one that does not never succeeds. */
  lemma AttemptIsJudged(k: Setup, s: System, id: string, c: Invocation)
    requires Distinct(k.schema) && id in s.rows
    ensures if Validates(k, s, id, c)
            then RunAttempt(k, s, id, c)
              == Judge(k, Validating(s, id, RowOf(s, id)), id, RowOf(s, id),
                       Processed(EventsOf(c), c.incidentId, RowOf(s, id).attempt, c.verdict), c)
            else !Succeeded(RunAttempt(k, s, id, c).1)
  {
    hide Judge, Processed, Upsert;
  }

  /** Success is end to end: the pipeline is RUNNING, the breaker CLOSED, the incident RECOVERED, every
      re-fetched event passed validation, and the table gained every event's row, between once and
      `maxRetries` times over. */
  lemma SuccessMeansRecovered(k: Setup, s: System, id: string, c: Invocation)
    requires PlainSchema(k.schema) && id in s.rows && Succeeded(RunAttempt(k, s, id, c).1)
    ensures var after := RunAttempt(k, s, id, c).0;
            && after.pipe.phase == Pipeline.Running && after.breaker.core.state.Closed?
            && id in after.rows && after.rows[id].status == Recovered &&
               after.rows[id].attempt == s.rows[id].attempt + 1 && after.rows[id].resolvedAt == Some(c.now)
            && RunAttempt(k, s, id, c).1.result ==
               RemediationResult(true, Complete, s.rows[id].attempt + 1, |EventsOf(c)|, 0)
            && EventsOf(c) != [] && (forall i :: 0 <= i < |EventsOf(c)| ==> c.verdict(i))
            && !StateAtValidation(k, s.breaker, c).Closed?
            && exists commits: nat :: (k.maxRetries >= 1 ==> 1 <= commits <= k.maxRetries) &&
                 after.table == s.table + Repeat(RowsFor(k, c), commits)
  {
    hide Judge, Reingest, Processed, Projections, Repeat, Delivered, StateAtValidation, RowsFor;
    AttemptIsJudged(k, s, id, c);
    var (row, start) := (RowOf(s, id), Validating(s, id, RowOf(s, id)));
    var r := Processed(EventsOf(c), c.incidentId, row.attempt, c.verdict);
    JudgeSucceeds(k, start, id, row, r, c);
    ProcessedAddsUp(EventsOf(c), c.incidentId, row.attempt, c.verdict);
    var b: Cb.Breaker :| b.core.state.Closed? &&
        Judge(k, start, id, row, r, c) == Reingest(k, start.(breaker := b), id, row, r, c);
    ReingestSucceeds(k, start.(breaker := b), id, row, r, c);
    TaggedRows(k, c, row.attempt);
  }

  lemma {:induction false} FirstCopy(rows: seq<Row>, times: nat, i: nat)
    requires times >= 1 && i < |rows|
    ensures rows[i] in Repeat(rows, times)
  {
    assert (rows + Repeat(rows, times - 1))[i] == rows[i];
  }

  /** The sink then holds the row of every event that was re-fetched. */
  lemma SuccessDeliversEveryEvent(k: Setup, s: System, id: string, c: Invocation, i: nat)
    requires PlainSchema(k.schema) && k.maxRetries >= 1
    requires id in s.rows && Succeeded(RunAttempt(k, s, id, c).1) && i < |EventsOf(c)|
    ensures exists row :: row in RunAttempt(k, s, id, c).0.table &&
                          IsRowOf(k.convert, k.schema, EventsOf(c)[i], c.sinkNow, row)
  {
    hide RunAttempt, Repeat, IsRowOf;
    var row := Projection(k.convert, k.schema, EventsOf(c)[i], c.sinkNow);
    ProjectionExactly(k.convert, k.schema, EventsOf(c)[i], c.sinkNow, row);
    SuccessMeansRecovered(k, s, id, c);
    var commits: nat :| 1 <= commits && RunAttempt(k, s, id, c).0.table == s.table + Repeat(RowsFor(k, c), commits);
    FirstCopy(RowsFor(k, c), commits, i);
    assert row == RowsFor(k, c)[i];
  }

  // ----- Failure ----------------------------------------------------------------------------------

  /** Pipeline and incident both say that recovery failed. */
  ghost predicate FailedTogether(s: System, id: string, attempt: nat)
  {
    && s.pipe.phase == Pipeline.RecoveryFailed
    && id in s.rows && s.rows[id].status == RecoveryFailed && s.rows[id].attempt == attempt
  }

  ghost predicate FailureRecorded(after: System, o: Outcome, id: string, attempt: nat)
  {
    o.Returned? && !o.result.success ==> FailedTogether(after, id, attempt) && o.result.attempt == attempt
  }

  lemma ReingestFails(k: Setup, s: System, id: string, row: Incident, r: ReprocessResult, c: Invocation)
    requires Distinct(k.schema)
    ensures FailureRecorded(Reingest(k, s, id, row, r, c).0, Reingest(k, s, id, row, r, c).1, id, row.attempt)
  {
    hide Projections, Repeat, Delivered;
  }

  lemma JudgeFails(k: Setup, s: System, id: string, row: Incident, r: ReprocessResult, c: Invocation)
    requires Distinct(k.schema)
    ensures FailureRecorded(Judge(k, s, id, row, r, c).0, Judge(k, s, id, row, r, c).1, id, row.attempt)
  {
    hide Reingest, Probe, FullyValid, Cb.Sync, Cb.CheckTimeout;
    var probed := Probe(k, s.breaker, r.rate, c).0;
    ReingestFails(k, s.(breaker := probed), id, row, r, c);
    ReingestFails(k, s.(breaker := Cb.Step(k.breaker, probed, Cb.CurrentState, c.onRequery).0), id, row, r, c);
  }

  /** Every attempt that ran and reports failure leaves both the pipeline and the incident in
      RECOVERY_FAILED. One refused for exceeding the maximum leaves the incident as it was. */
  lemma FailureIsRecorded(k: Setup, s: System, id: string, c: Invocation)
    requires Distinct(k.schema) && id in s.rows
    requires RunAttempt(k, s, id, c).1.Returned? && !Succeeded(RunAttempt(k, s, id, c).1)
    ensures var (after, result) := (RunAttempt(k, s, id, c).0, RunAttempt(k, s, id, c).1.result);
            if OverMaximum(k, s.rows[id].attempt)
            then result.stage == MaxAttemptsExceeded && after.rows == s.rows &&
                after.pipe.phase == Pipeline.RecoveryFailed
            else FailedTogether(after, id, s.rows[id].attempt + 1) && result.attempt == s.rows[id].attempt + 1
  {
    hide Judge, Processed;
    AttemptIsJudged(k, s, id, c);
    JudgeFails(k, Validating(s, id, RowOf(s, id)), id, RowOf(s, id),
               Processed(EventsOf(c), c.incidentId, RowOf(s, id).attempt, c.verdict), c);
  }

  predicate Refused(o: Outcome) { o.Returned? && o.result.stage == MaxAttemptsExceeded }

  lemma JudgeNeverRefuses(k: Setup, s: System, id: string, row: Incident, r: ReprocessResult, c: Invocation)
    requires Distinct(k.schema)
    ensures !Refused(Judge(k, s, id, row, r, c).1)
  {
    hide Probe, FullyValid, Cb.Sync, Cb.CheckTimeout, Projections, Repeat, Delivered, Upsert;
  }

  /** Whatever else goes wrong, a maximum of `m` allows exactly `m` attempts: one is refused exactly when `m` have been
      made, unless recording the refusal raises. */
  lemma MaximumIsAllowed(k: Setup, s: System, id: string, c: Invocation, m: nat)
    requires Distinct(k.schema) && id in s.rows && m >= 1 && k.maxAttempts == Some(m as real)
    ensures Refused(RunAttempt(k, s, id, c).1) <==> s.rows[id].attempt >= m && RecordingFailure !in c.faults
  {
    hide Judge, Processed, Upsert;
    var row := RowOf(s, id);
    JudgeNeverRefuses(k, Validating(s, id, row), id, row,
                      Processed(EventsOf(c), c.incidentId, row.attempt, c.verdict), c);
  }

  // ----- Validation, exactly ----------------------------------------------------------------------

  /** When nothing it calls raises, an attempt that reaches validation completes normally exactly when
      the breaker is then not CLOSED; otherwise it raises and the pipeline stays in VALIDATING. */
  lemma CompletesExactly(k: Setup, s: System, id: string, c: Invocation)
    requires Distinct(k.schema) && id in s.rows && c.faults == {} && Validates(k, s, id, c)
    ensures var (after, o) := RunAttempt(k, s, id, c);
            && (o.Returned? <==> !StateAtValidation(k, s.breaker, c).Closed?)
            && (o.Raised? ==> after.pipe.phase == Pipeline.Validating && after.rows[id].status == Remediating)
  {
    hide Processed, Probe, StateAtValidation, FullyValid, Delivered, Projections, Repeat, Cb.Sync, Cb.CheckTimeout,
        RunAttempt;
    var r := Processed(EventsOf(c), c.incidentId, RowOf(s, id).attempt, c.verdict);
    AttemptIsJudged(k, s, id, c);
    ProbeExactly(k, s.breaker, r.rate, c);
    assert c.faults == {};
  }

  /** A completed attempt leaves the breaker CLOSED while the recovery failed exactly when the batch was
      empty, or its rate was positive but within the threshold, or the re-ingestion failed. */
  lemma ClosedButFailedExactly(k: Setup, s: System, id: string, c: Invocation)
    requires Distinct(k.schema) && id in s.rows && c.faults == {} && Validates(k, s, id, c)
    requires k.breaker.threshold >= 0.0 && !StateAtValidation(k, s.breaker, c).Closed?
    ensures var (after, r) := (RunAttempt(k, s, id, c).0,
              Processed(EventsOf(c), c.incidentId, RowOf(s, id).attempt, c.verdict));
            after.breaker.core.state.Closed? && after.pipe.phase == Pipeline.RecoveryFailed
            <==> (|| r.total == 0
                  || 0.0 < r.rate <= k.breaker.threshold
                  || (r.invalidCount == 0 && !Delivered(c.sink, k.maxRetries, r.valid).success))
  {
    hide Processed, Probe, StateAtValidation, Delivered, Projections, Repeat, Cb.Sync, Cb.CheckTimeout, RunAttempt;
    var r := Processed(EventsOf(c), c.incidentId, RowOf(s, id).attempt, c.verdict);
    AttemptIsJudged(k, s, id, c);
    ProbeExactly(k, s.breaker, r.rate, c);
    ProcessedAddsUp(EventsOf(c), c.incidentId, RowOf(s, id).attempt, c.verdict);
    assert c.faults == {};
  }

  /** What an attempt comes to when nothing it calls raises, read off what it meets. */
  function Verdict(k: Setup, s: System, id: string, c: Invocation): RemediationResult
    requires id in s.rows
  {
    var (made, n) := (s.rows[id].attempt, |EventsOf(c)|);
    var r := Processed(EventsOf(c), c.incidentId, made + 1, c.verdict);
    if OverMaximum(k, made) then RemediationResult(false, MaxAttemptsExceeded, made, 0, 0)
    else if c.quarantineFailed || (c.quarantineRequired && s.rows[id].quarantine == 0) then
      RemediationResult(false, QuarantineVerified, made + 1, 0, 0)
    else if c.fetched.None? then RemediationResult(false, Refetching, made + 1, 0, 0)
    else if n == 0 || exists i :: 0 <= i < n && !c.verdict(i) then
      RemediationResult(false, Validation, made + 1, r.validCount, r.invalidCount)
    else if !Delivered(c.sink, k.maxRetries, r.valid).success then RemediationResult(false, ReIngesting, made + 1, 0, n)
    else RemediationResult(true, Complete, made + 1, n, 0)
  }

  /** With a breaker that is not CLOSED when validation asks, every attempt that meets no exception ends as its
      circumstances say: refused over the maximum, or failed at the first stage that has cause to fail, or else
      successful. */
  lemma VerdictExactly(k: Setup, s: System, id: string, c: Invocation)
    requires Distinct(k.schema) && id in s.rows && c.faults == {} && k.breaker.threshold >= 0.0
    requires !StateAtValidation(k, s.breaker, c).Closed?
    ensures RunAttempt(k, s, id, c).1 == Returned(Verdict(k, s, id, c))
  {
    hide Processed, StateAtValidation, Delivered, Projections, Repeat, Upsert;
    AttemptIsJudged(k, s, id, c);
    if Validates(k, s, id, c) {
      JudgedExactly(k, s, id, c);
    }
  }

  lemma JudgedExactly(k: Setup, s: System, id: string, c: Invocation)
    requires Distinct(k.schema) && id in s.rows && c.faults == {} && k.breaker.threshold >= 0.0
    requires !StateAtValidation(k, s.breaker, c).Closed? && Validates(k, s, id, c)
    ensures Judge(k, Validating(s, id, RowOf(s, id)), id, RowOf(s, id),
                  Processed(EventsOf(c), c.incidentId, RowOf(s, id).attempt, c.verdict), c).1
         == Returned(Verdict(k, s, id, c))
  {
    hide Processed, Probe, StateAtValidation, Delivered, Projections, Repeat, Cb.Sync, Cb.CheckTimeout, RunAttempt,
        Upsert;
    var r := Processed(EventsOf(c), c.incidentId, RowOf(s, id).attempt, c.verdict);
    ProbeExactly(k, s.breaker, r.rate, c);
    ProcessedAddsUp(EventsOf(c), c.incidentId, RowOf(s, id).attempt, c.verdict);
    assert c.faults == {};
  }

  // ----- The attempt counter ----------------------------------------------------------------------

  /** `after` differs from `before` at most in row `id`, whose counter is `attempt`. */
  ghost predicate Counted(before: Table, after: Table, id: string, attempt: nat)
  {
    && after.Keys == before.Keys && id in after && after[id].attempt == attempt
    && forall o :: o in before && o != id ==> after[o] == before[o]
  }

  lemma UpsertCounts(before: Table, id: string, row: Incident)
    requires id in before && before[id].attempt == row.attempt
    ensures Counted(before, before, id, row.attempt) && Counted(before, Upsert(before, id, row), id, row.attempt)
  {
  }

  lemma FailCounts(s: System, id: string, row: Incident, c: Invocation, result: RemediationResult)
    requires id in s.rows && s.rows[id].attempt == row.attempt
    ensures Counted(s.rows, Fail(s, id, row, c, result).0.rows, id, row.attempt)
  {
    hide Counted, Upsert;
    UpsertCounts(s.rows, id, row.(status := RecoveryFailed));
  }

  lemma ReingestCounts(k: Setup, s: System, id: string, row: Incident, r: ReprocessResult, c: Invocation)
    requires Distinct(k.schema) && id in s.rows && s.rows[id].attempt == row.attempt
    ensures Counted(s.rows, Reingest(k, s, id, row, r, c).0.rows, id, row.attempt)
  {
    hide Projections, Repeat, Delivered, Counted, Upsert;
    UpsertCounts(s.rows, id, row.(status := RecoveryFailed));
    UpsertCounts(s.rows, id, row.(status := Recovered, resolvedAt := Some(c.now)));
  }

  lemma JudgeCounts(k: Setup, s: System, id: string, row: Incident, r: ReprocessResult, c: Invocation)
    requires Distinct(k.schema) && id in s.rows && s.rows[id].attempt == row.attempt
    ensures Counted(s.rows, Judge(k, s, id, row, r, c).0.rows, id, row.attempt)
  {
    hide Reingest, Fail, Probe, FullyValid, Counted, Cb.Sync, Cb.CheckTimeout;
    var probed := Probe(k, s.breaker, r.rate, c).0;
    var again := Cb.Step(k.breaker, probed, Cb.CurrentState, c.onRequery).0;
    var failure := RemediationResult(false, Validation, row.attempt, r.validCount, r.invalidCount);
    UpsertCounts(s.rows, id, row);
    ReingestCounts(k, s.(breaker := probed), id, row, r, c);
    ReingestCounts(k, s.(breaker := again), id, row, r, c);
    FailCounts(s.(breaker := probed), id, row, c, failure);
    FailCounts(s.(breaker := again), id, row, c, failure);
  }

  lemma RecoverCounts(k: Setup, s: System, id: string, row: Incident, c: Invocation)
    requires Distinct(k.schema) && id in s.rows && s.rows[id].attempt == row.attempt
    ensures Counted(s.rows, Recover(k, s, id, row, c).0.rows, id, row.attempt)
  {
    hide Judge, Fail, Processed, Counted;
    UpsertCounts(s.rows, id, row);
    FailCounts(s, id, row, c, RemediationResult(false, QuarantineVerified, row.attempt, 0, 0));
    var a := Moves(s, Pipeline.Refetching);
    FailCounts(a, id, row, c, RemediationResult(false, Refetching, row.attempt, 0, 0));
    JudgeCounts(k, Moves(Moves(a, Pipeline.Reprocessing), Pipeline.Validating), id, row,
                Processed(EventsOf(c), c.incidentId, row.attempt, c.verdict), c);
  }

  /** An attempt touches no other incident, and raises the counter by one exactly when it is not over
      the maximum and its first save goes through, whatever happens later. */
  lemma AttemptCountsOnce(k: Setup, s: System, id: string, c: Invocation)
    requires Distinct(k.schema) && id in s.rows
    ensures Counted(s.rows, RunAttempt(k, s, id, c).0.rows, id,
                    if OverMaximum(k, s.rows[id].attempt) || SavingAttempt in c.faults then s.rows[id].attempt
                    else s.rows[id].attempt + 1)
  {
    hide Recover;
    var row := RowOf(s, id);
    var started := s.(rows := Upsert(s.rows, id, row), pipe := Moved(s.pipe, Pipeline.Remediating, true));
    RecoverCounts(k, started, id, row, c);
  }

  // ----- Runs -------------------------------------------------------------------------------------

  ghost predicate Trace(k: Setup, states: seq<System>, calls: seq<Invocation>, outcomes: seq<Outcome>)
    requires Distinct(k.schema)
  {
    && |states| == |calls| + 1 == |outcomes| + 1
    && forall i :: 0 <= i < |calls| ==> Executes(k, states[i], calls[i], states[i + 1], outcomes[i])
  }

  ghost predicate WithinMaximum(k: Setup, rows: Table)
  {
    k.maxAttempts.Some? && k.maxAttempts.value > 0.0 ==>
      forall id :: id in rows ==> rows[id].attempt as real <= k.maxAttempts.value
  }

  lemma ExecutionWithinMaximum(k: Setup, before: System, c: Invocation, after: System, o: Outcome)
    requires Distinct(k.schema) && Executes(k, before, c, after, o) && WithinMaximum(k, before.rows)
    ensures WithinMaximum(k, after.rows)
  {
    hide RunAttempt, IsLatest, NoneActive, IsNextId, Cb.Sync, Cb.CheckTimeout;
    if !(o == Raised && LoadRaises(k, before, c, after)) {
      var loaded, id :| Loads(k, before, c, loaded, id) && id in loaded.rows &&
          (after, o) == RunAttempt(k, loaded, id, c);
      AttemptCountsOnce(k, loaded, id, c);
    }
  }

  /** In every run of calls, whatever raises, no incident's counter ever passes a finite positive maximum. */
  lemma {:induction false} NeverPastMaximum(k: Setup, states: seq<System>, calls: seq<Invocation>,
                                            outcomes: seq<Outcome>, n: nat)
    requires Distinct(k.schema) && Trace(k, states, calls, outcomes) && n <= |calls| && WithinMaximum(k, states[0].rows)
    ensures WithinMaximum(k, states[n].rows)
  {
    hide WithinMaximum, Executes;
    if n > 0 {
      NeverPastMaximum(k, states, calls, outcomes, n - 1);
      ExecutionWithinMaximum(k, states[n - 1], calls[n - 1], states[n], outcomes[n - 1]);
    }
  }

  // ----- A closed breaker blocks recovery ---------------------------------------------------------

  lemma ClosedStays(k: Setup, s: System, id: string, c: Invocation)
    requires Distinct(k.schema) && id in s.rows && !k.breaker.durable && s.breaker.core.state.Closed?
    ensures RunAttempt(k, s, id, c).0.breaker.core.state.Closed? && !Succeeded(RunAttempt(k, s, id, c).1)
  {
    hide Processed, Reingest, Probe, FullyValid, Upsert;
    var r := Processed(EventsOf(c), c.incidentId, RowOf(s, id).attempt, c.verdict);
    AttemptIsJudged(k, s, id, c);
    ProbeExactly(k, s.breaker, r.rate, c);
  }

  lemma ExecutionStaysClosed(k: Setup, before: System, c: Invocation, after: System, o: Outcome)
    requires Distinct(k.schema) && Executes(k, before, c, after, o)
    requires !k.breaker.durable && before.breaker.core.state.Closed?
    ensures after.breaker.core.state.Closed? && !Succeeded(o)
  {
    hide RunAttempt, Upsert, IsLatest, NoneActive, IsNextId;
    if !(o == Raised && LoadRaises(k, before, c, after)) {
      var loaded, id :| Loads(k, before, c, loaded, id) && id in loaded.rows &&
          (after, o) == RunAttempt(k, loaded, id, c);
      ClosedStays(k, loaded, id, c);
    }
  }

  /** Once an in-memory breaker is CLOSED, for instance because re-ingestion failed after it closed, no
      retry can succeed until something else trips it. */
  lemma {:induction false} StuckUntilTripped(k: Setup, states: seq<System>, calls: seq<Invocation>,
                                             outcomes: seq<Outcome>, n: nat)
    requires Distinct(k.schema) && Trace(k, states, calls, outcomes) && n <= |calls|
    requires !k.breaker.durable && states[0].breaker.core.state.Closed?
    ensures states[n].breaker.core.state.Closed?
    ensures forall i :: 0 <= i < n ==> !Succeeded(outcomes[i])
  {
    hide Executes, Succeeded;
    if n > 0 {
      StuckUntilTripped(k, states, calls, outcomes, n - 1);
      ExecutionStaysClosed(k, states[n - 1], calls[n - 1], states[n], outcomes[n - 1]);
    }
  }

  // ----- The audit trail --------------------------------------------------------------------------

  ghost predicate PipeSound(first: Pipeline.Phase, p: Pipe)
  {
    Pipeline.Chained(first, p.trail, p.phase) && Pipeline.ForcedOnlyByRemediation(p.trail)
  }

  lemma MoveSound(first: Pipeline.Phase, p: Pipe, to: Pipeline.Phase, force: bool)
    requires PipeSound(first, p) && Pipeline.Accepts(p.phase, to, force)
    requires force ==> to in {Pipeline.Remediating, Pipeline.RecoveryFailed}
    ensures PipeSound(first, Moved(p, to, force))
  {
  }

  lemma FailSound(first: Pipeline.Phase, s: System, id: string, row: Incident, c: Invocation, result: RemediationResult)
    requires PipeSound(first, s.pipe)
    ensures PipeSound(first, Fail(s, id, row, c, result).0.pipe)
  {
    MoveSound(first, s.pipe, Pipeline.RecoveryFailed, true);
  }

  lemma ReingestSound(first: Pipeline.Phase, k: Setup, s: System, id: string, row: Incident, r: ReprocessResult,
                      c: Invocation)
    requires Distinct(k.schema) && PipeSound(first, s.pipe) && s.pipe.phase == Pipeline.Validating
    ensures PipeSound(first, Reingest(k, s, id, row, r, c).0.pipe)
  {
    hide Projections, Repeat, Delivered, PipeSound, Fail, Upsert;
    var a := Moved(s.pipe, Pipeline.ReIngesting, false);
    MoveSound(first, s.pipe, Pipeline.ReIngesting, false);
    var d := Delivered(c.sink, k.maxRetries, r.valid);
    FailSound(first, Moves(s, Pipeline.ReIngesting).(
      table := s.table + Repeat(Projections(k.convert, k.schema, r.valid, c.sinkNow), d.commits)), id, row, c,
      RemediationResult(false, ReIngesting, row.attempt, 0, r.total));
    var b := Moved(a, Pipeline.Resuming, false);
    MoveSound(first, a, Pipeline.Resuming, false);
    MoveSound(first, b, Pipeline.Running, false);
  }

  lemma JudgeSound(first: Pipeline.Phase, k: Setup, s: System, id: string, row: Incident, r: ReprocessResult,
                   c: Invocation)
    requires Distinct(k.schema) && PipeSound(first, s.pipe) && s.pipe.phase == Pipeline.Validating
    ensures PipeSound(first, Judge(k, s, id, row, r, c).0.pipe)
  {
    hide Reingest, Probe, FullyValid, Fail, PipeSound, Cb.Sync, Cb.CheckTimeout;
    var probed := Probe(k, s.breaker, r.rate, c).0;
    var again := Cb.Step(k.breaker, probed, Cb.CurrentState, c.onRequery).0;
    var failure := RemediationResult(false, Validation, row.attempt, r.validCount, r.invalidCount);
    ReingestSound(first, k, s.(breaker := probed), id, row, r, c);
    ReingestSound(first, k, s.(breaker := again), id, row, r, c);
    FailSound(first, s.(breaker := probed), id, row, c, failure);
    FailSound(first, s.(breaker := again), id, row, c, failure);
  }

  lemma RecoverSound(first: Pipeline.Phase, k: Setup, s: System, id: string, row: Incident, c: Invocation)
    requires Distinct(k.schema) && PipeSound(first, s.pipe) && s.pipe.phase == Pipeline.Remediating
    ensures PipeSound(first, Recover(k, s, id, row, c).0.pipe)
  {
    hide Judge, Fail, PipeSound, Processed;
    FailSound(first, s, id, row, c, RemediationResult(false, QuarantineVerified, row.attempt, 0, 0));
    MoveSound(first, s.pipe, Pipeline.Refetching, false);
    var a := Moves(s, Pipeline.Refetching);
    FailSound(first, a, id, row, c, RemediationResult(false, Refetching, row.attempt, 0, 0));
    MoveSound(first, a.pipe, Pipeline.Reprocessing, false);
    var b := Moves(a, Pipeline.Reprocessing);
    MoveSound(first, b.pipe, Pipeline.Validating, false);
    JudgeSound(first, k, Moves(b, Pipeline.Validating), id, row,
               Processed(EventsOf(c), c.incidentId, row.attempt, c.verdict), c);
  }

  lemma AttemptSound(first: Pipeline.Phase, k: Setup, s: System, id: string, c: Invocation)
    requires Distinct(k.schema) && id in s.rows && PipeSound(first, s.pipe)
    ensures PipeSound(first, RunAttempt(k, s, id, c).0.pipe)
  {
    hide Recover, PipeSound, Upsert;
    MoveSound(first, s.pipe, Pipeline.RecoveryFailed, true);
    MoveSound(first, s.pipe, Pipeline.Remediating, true);
    var row := RowOf(s, id);
    var started := s.(rows := Upsert(s.rows, id, row), pipe := Moved(s.pipe, Pipeline.Remediating, true));
    RecoverSound(first, k, started, id, row, c);
  }

  lemma ExecutionSound(first: Pipeline.Phase, k: Setup, before: System, c: Invocation, after: System, o: Outcome)
    requires Distinct(k.schema) && Executes(k, before, c, after, o) && PipeSound(first, before.pipe)
    ensures PipeSound(first, after.pipe)
  {
    hide RunAttempt, Upsert, IsLatest, NoneActive, IsNextId, PipeSound, Cb.Step;
    if !(o == Raised && LoadRaises(k, before, c, after)) {
      var loaded, id :| Loads(k, before, c, loaded, id) && id in loaded.rows &&
          (after, o) == RunAttempt(k, loaded, id, c);
      AttemptSound(first, k, loaded, id, c);
    }
  }

  /** In every run of calls the audit trail stays chained, forces only entries to REMEDIATING and
      RECOVERY_FAILED, and never brings the pipeline to RECOVERED. */
  lemma {:induction false} TrailStaysSound(first: Pipeline.Phase, k: Setup, states: seq<System>, calls: seq<Invocation>,
                                           outcomes: seq<Outcome>, n: nat)
    requires Distinct(k.schema) && Trace(k, states, calls, outcomes) && n <= |calls|
    requires PipeSound(first, states[0].pipe) && first != Pipeline.Recovered
    ensures PipeSound(first, states[n].pipe) && states[n].pipe.phase != Pipeline.Recovered
  {
    hide Executes, PipeSound;
    if n > 0 {
      TrailStaysSound(first, k, states, calls, outcomes, n - 1);
      ExecutionSound(first, k, states[n - 1], calls[n - 1], states[n], outcomes[n - 1]);
    }
    SoundIsNotRecovered(first, states[n].pipe);
  }

  lemma SoundIsNotRecovered(first: Pipeline.Phase, p: Pipe)
    requires PipeSound(first, p) && first != Pipeline.Recovered
    ensures p.phase != Pipeline.Recovered
  {
    Pipeline.NeverRecovered(first, p.trail, p.phase);
  }
}
