# IceStream: verified model of its protocols

IceStream is a self-healing streaming pipeline. This project models the state machines and protocols under
its I/O and proves what they guarantee over whole runs. The catalog, the object store, SQL, Slack, Flink and
the clock are replaced by explicit state and by parameters that decide, call by call, what succeeds and what
fails. Check it with `dafny verify dfyconfig.toml`.

How the model is built:

- An object whose methods change its fields is a class. Each method's contract ties the new state to a
  function of the old one, and the results about whole runs are lemmas about that function.
- Where threads or processes interleave (quarantine flushers, orphan cleaners and writers, compactors and
  writers) there is also a step relation, and the lemmas hold for every sequence of steps.
- Where the code meets its intent only under a premise, the premise is stated, and a lemma says that the intent
  is met if and only if the premise holds, or shows a run in which both fail.

| file | what it models |
|---|---|
| Snapshots, Maintenance, MaintenanceSystem | snapshot expiry, reference collection, orphan cleanup, the maintenance run, and their concurrency with writers |
| Compaction | the compaction retry loop under optimistic concurrency |
| Quarantine, QuarantineFlushers, Router, ErrorCodes, ErrorMessages | the buffered quarantine writer, its concurrent flushes, routing and primary-error selection |
| Remediation, RemediationRuns | the remediation controller end to end |
| CircuitBreaker, CircuitBreakerRuns | the breaker and what its runs keep |
| PipelineState | the pipeline state manager and its audit trail |
| Reprocessor, LakehouseSink | re-validation of re-fetched events and their delivery |
| Windows, ErrorRates, Duplicates, RateLimiter | windowed state against a complete history |
| SchemaCompatibility, SchemaVerdicts, SchemaMeaning | schema comparison and what its verdict means for events |
| IncidentIds, Incidents, Lexicographic | incident ids, deduplication and lifecycle |

Times are integers (microseconds where seconds are truncated or windows are given in seconds) and rates are
reals. A hash is represented by its seed, which makes it injective.

Where documentation and code differ, the code is modelled:

- docs/automated-remediation.md:68 gives a limit of three attempts and says the circuit remains OPEN when
  recovery failed. The controller's default limit is infinite (quality-engine/remediation/controller.py:91), and
  `RemediationRuns.ClosedButFailedExactly` says exactly when the circuit is CLOSED although recovery failed.
- iceberg/maintenance/manager.py:206 documents dry_run as changing nothing in storage; see
  `Maintenance.DryRunStillExpires` and `Maintenance.DryRunStillCompacts`.
- Cleanup reports every orphan as deleted even when a delete request failed
  (iceberg/maintenance/snapshot_manager.py:336-366); see `Maintenance.ReportIsTrueExactly`.
- The safety buffer must exceed writer delay plus the scan-to-clock gap; equality is not enough, because an
  object exactly as old as the buffer is deleted (iceberg/maintenance/snapshot_manager.py:315-318); see
  `MaintenanceSystem.BufferExactly`.

## Model

| member | source | states |
|---|---|---|
| MaintenanceSystem.NeverBreaksALiveSnapshot | iceberg/maintenance/snapshot_manager.py:219-366 | in every interleaving of any number of writers, expiries and cleaners, every file of every live snapshot exists and so does every file an in-flight writer uploaded within its commit delay, provided reads succeed and delay plus the scan-to-clock gap stays below the buffer |
| MaintenanceSystem.BufferMustExceedDelayPlusGap | iceberg/maintenance/snapshot_manager.py:284-318 | for every delay, gap and buffer no larger than their sum: a run that meets the other premises deletes a file of a live snapshot |
| MaintenanceSystem.BufferExactly | iceberg/maintenance/snapshot_manager.py:284-318 | every run that keeps to a writer delay and a scan-to-clock gap is safe if and only if the buffer exceeds their sum |
| MaintenanceSystem.ReadsExactly | iceberg/maintenance/snapshot_manager.py:225-241 | with a buffer longer than delay plus gap, every run that meets the other premises is safe if and only if no read ever fails, neither of a list of manifests nor of a manifest's entries |
| MaintenanceSystem.ReadsMustSucceed | iceberg/maintenance/snapshot_manager.py:229-239 | for every snapshot whose list of manifests, or whose manifest's entries, cannot be read: a run that meets the other premises deletes the data file behind it as soon as it is as old as the buffer, however long that is |
| MaintenanceSystem.DoomedIsGarbage | iceberg/maintenance/snapshot_manager.py:305-320 | what a cleaner has marked is needed by no live snapshot and is older than any in-flight upload, at every later step |
| MaintenanceSystem.ListingFindsTheDoomed | iceberg/maintenance/snapshot_manager.py:301-320 | a cleanup pass whose listing shows the store, files named by URI and objects by key, finds exactly the files the step system dooms |
| MaintenanceSystem.MetadataByUri | iceberg/maintenance/snapshot_manager.py:311-312 | whether a file is protected as metadata is the same for its key and its URI, unless the bucket is named after the version hint |
| MaintenanceSystem.StepSound | iceberg/maintenance/snapshot_manager.py:185-348 | every step of a writer, an expiry or a cleaner keeps the protocol invariant |
| Snapshots.SnapshotManager.ExpireSnapshots | iceberg/maintenance/snapshot_manager.py:142-217 | the table afterwards is the old one less exactly the ids whose single-id commit went through, in order; counts and ids are reported correctly |
| Snapshots.SnapshotManager.GetReferencedFiles | iceberg/maintenance/snapshot_manager.py:219-245 | a file is in the set exactly when it is the metadata file, some snapshot's manifest list, a listed manifest, or a nonempty entry of a readable one, the first manifest like the last |
| Snapshots.SnapshotFilesExactly | iceberg/maintenance/snapshot_manager.py:225-241 | of every manifest of a snapshot, as far as it can be read, the path and every nonempty entry are collected, and nothing else but the manifest list |
| Snapshots.SnapshotManager.CleanupOrphanFiles | iceberg/maintenance/snapshot_manager.py:284-366 | a failed listing or a dry run deletes nothing; otherwise the keys of the successful chunks go, while every orphan is reported as deleted and, in a dry run too, its size as reclaimed |
| Snapshots.SnapshotManager.DeleteInChunks | iceberg/maintenance/snapshot_manager.py:336-348 | the loop over chunks of 1000 removes key i if and only if request i / 1000 succeeds |
| Maintenance.SurvivesExactly | iceberg/maintenance/snapshot_manager.py:159-187 | a snapshot is gone exactly when it is not among the last retained, is older than the limit if one is given, is not the head, and its own commit went through |
| Maintenance.HeadAndRecentSurvive | iceberg/maintenance/snapshot_manager.py:159-187 | the head and the last retain_last snapshots survive whichever commits fail |
| Maintenance.ReferencedIsReachable | iceberg/maintenance/snapshot_manager.py:219-245 | the set holds only files the snapshots need, the manifest list, manifests and entries, and all of them when every read succeeds |
| Maintenance.CleanupExactly | iceberg/maintenance/snapshot_manager.py:301-348 | when every request succeeds the deleted keys are exactly those of listed, unreferenced, unprotected objects at least as old as the buffer |
| Maintenance.MetadataIsSpared | iceberg/maintenance/snapshot_manager.py:310-312 | no file whose name ends in .metadata.json or contains version-hint is ever deleted, referenced or not and however old |
| Maintenance.ReportIsTrueExactly | iceberg/maintenance/snapshot_manager.py:336-366 | the keys reported as deleted are the deleted ones if and only if every chunk that holds a key succeeds |
| Maintenance.BytesAreTrueExactly | iceberg/maintenance/snapshot_manager.py:332-363 | never fewer bytes are reported as reclaimed than were freed; the two agree if and only if the request of every object that is not empty succeeds |
| Maintenance.CleanupSparesSnapshots | iceberg/maintenance/snapshot_manager.py:284-348 | with nobody else at work and every manifest readable, no file of any snapshot is deleted, whichever chunks fail |
| Maintenance.MaintenanceManager.RunTableMaintenance | iceberg/maintenance/manager.py:222-274 | status, table rows, surviving snapshots and remaining objects of a run, for every combination of failures and every interference with compaction |
| Maintenance.SurvivorsKeepTheirFiles | iceberg/maintenance/manager.py:236-266 | expiry and cleanup of one run together: a file that a surviving snapshot needs is still there afterwards, whichever commits and requests fail, provided what the survivors name can be read |
| Maintenance.DryRunStillExpires | iceberg/maintenance/manager.py:236-266 | a dry run deletes no object; it leaves the snapshots alone in every world if and only if expiry is not requested or there is nothing but the head before the retained ones |
| Maintenance.DryRunStillCompacts | iceberg/maintenance/manager.py:222-229 | whatever writers and failures do, a dry run rewrites the table exactly when an ordinary run would; it leaves the table to its writers if and only if compaction is not requested, does not start or finds too few files, or no attempt it reaches commits |
| Compaction.Table.Interfere | iceberg/maintenance/compactor.py:162-193 | writers' appends between two steps of the compactor, as commits that each raise the version |
| Compaction.Compactor.Attempt | iceberg/maintenance/compactor.py:163-198 | refresh, scan, overwrite under compare-and-swap, refresh, count |
| Compaction.Compactor.CompactTable | iceberg/maintenance/compactor.py:97-253 | the retry loop: conflicts are retried, any other error stops it |
| Compaction.CompactionConserves | iceberg/maintenance/compactor.py:162-239 | whatever interferes and however the call ends, the rows are exactly those writers appended |
| Compaction.SuccessCountsRows | iceberg/maintenance/compactor.py:129-222 | a success says compaction was needed exactly when there were enough files and there are rows; it reports the number of rows, except that too few files report 0 |
| Compaction.RetriesExactly | iceberg/maintenance/compactor.py:162-253 | on a table with rows a call succeeds if and only if some attempt within the limit goes well, scan, overwrite and row count, and every attempt before it met a conflict; otherwise it reports the failure |
| Compaction.CallSucceedsExactly | iceberg/maintenance/compactor.py:97-253 | a whole call on any table succeeds if and only if there are too few files, or the table is empty and stays so until the first scan, or attempts go as above |
| Compaction.LaterAttemptsDoNotMatter | iceberg/maintenance/compactor.py:226-239 | the first attempt that meets no conflict is the last one made: a crash or a failed scan is not retried |
| Compaction.VersionCounts | iceberg/maintenance/compactor.py:162-239 | the table's version advances by the writers' commits plus the attempts that replaced the table, in every call |
| Compaction.OnlyWritersCommittedExactly | iceberg/maintenance/compactor.py:162-239 | however a call ends, the commits made during it are the writers' own if and only if no attempt it reaches found rows, was undisturbed until its overwrite and saw that overwrite take effect |
| Compaction.FailureRewroteExactly | iceberg/maintenance/compactor.py:190-253 | a reported failure follows a committed rewrite if and only if no attempt the call reaches ends well and some attempt it reaches commits |
| Compaction.FailureAfterCommit | iceberg/maintenance/compactor.py:190-198 | an instance: the rewrite committed, a later append made the row count differ; the rows are all there |
| Compaction.InterleavingsConserve | iceberg/maintenance/compactor.py:165-193 | any number of compactors and writers: under compare-and-swap no interleaving loses or duplicates a row |
| Compaction.CompactIsARun | iceberg/maintenance/compactor.py:162-239 | whatever a call does to the table, some sequence of the step system's appends, reads and compare-and-swap overwrites does too |
| Compaction.BlindOverwriteLosesRows | iceberg/maintenance/compactor.py:190-191 | without the comparison an append between read and overwrite is lost |
| Quarantine.Writer.WriteBatch | quality-engine/quarantine/writer.py:177-228 | up to five atomic appends; the table gains one copy for each that commits, whether or not it says so, and success is one that says so |
| Quarantine.OneCopyPerCommit | quality-engine/quarantine/writer.py:203-228 | the table gains one copy for each attempt, of at most five, that is made and commits; the first that says so ends them |
| Quarantine.CopiesExactly | quality-engine/quarantine/writer.py:203-228 | a batch is written once on success and not at all on failure if and only if no append it reaches commits and then raises |
| Quarantine.Writer.Flush | quality-engine/quarantine/writer.py:113-139 | success empties the buffer, failure keeps it; unless a commit goes unseen, table and buffer together stay the same |
| Quarantine.Writer.WriteRecord | quality-engine/quarantine/writer.py:98-111 | when it flushes and what that leaves; a success leaves fewer records buffered than the batch size; unless a commit goes unseen, table followed by buffer gains exactly the record |
| Quarantine.Writer.Close | quality-engine/quarantine/writer.py:230-232 | nothing submitted is lost by closing |
| QuarantineFlushers.ConservationExactly | quality-engine/quarantine/writer.py:113-139 | any number of threads: once settled, table and buffer are the submitted records in order if and only if no flush committed a copy taken before another committed flush had trimmed, and no append committed unseen |
| QuarantineFlushers.OneFlushAtATimeConserves | quality-engine/quarantine/writer.py:98-139 | with one flush in flight at a time and no unseen commit nothing is lost, repeated or reordered at any moment, whichever appends fail |
| QuarantineFlushers.OverlappingFlushesLoseARecord | quality-engine/quarantine/writer.py:113-139 | two overlapping flushes write the first record twice and trim an unwritten one |
| QuarantineFlushers.ClashedRepeats | quality-engine/quarantine/writer.py:122-136 | every run with a clash and no unseen commit has a record twice in the table for good |
| QuarantineFlushers.RunSurplus | quality-engine/quarantine/writer.py:203-228 | in every run, once an append has committed unseen, table and buffer hold more records than were submitted, for good |
| Router.QuarantineRouter.RouteInvalidEvent | quality-engine/quarantine/router.py:74-174 | refuses an event exactly when every rule passed; otherwise the record, which lists every failed rule as often as it failed, is appended with all that is buffered, and its id remembered only on success; repeated ids change nothing |
| Router.QuarantineRouter.Prepare | quality-engine/quarantine/router.py:185-239 | records to write in order, and a placeholder result aligned with each event |
| Router.QuarantineRouter.RouteBatch | quality-engine/quarantine/router.py:176-254 | result i belongs to event i, refuses it exactly when every rule passed and otherwise records exactly the rules that failed; all unseen records of the batch are appended as a whole, past the buffer |
| Router.FailedExactly | quality-engine/quarantine/router.py:95-95 | the failures of an event are its results that did not pass, each as often as it occurs |
| Router.RecordDocuments | quality-engine/quarantine/router.py:95-147 | the record keeps the event, its id and the detection time, lists each failed rule as often as it failed, and takes its code from a failure that no other precedes |
| Router.WrittenInOrder | quality-engine/quarantine/router.py:188-239 | a batch is written in the order of its events, fresh ones only |
| Router.SharedIdExactly | quality-engine/quarantine/router.py:133-135 | with no colon in event ids and rule names and no comma in rule names, two events share a quarantine id if and only if event id, failed rules and detection time agree |
| Router.CollideExactly | quality-engine/quarantine/router.py:133-135 | colons inside ids matter in one way only: two events with different names can get one quarantine id, for some failed rules and times, if and only if one name is the other extended by a colon and the pipeline version |
| Router.QuarantineRouter.Settle | quality-engine/quarantine/router.py:240-254 | the results whose record was to be written, and no others, take the outcome of the append |
| Router.SeenExactly | quality-engine/quarantine/router.py:148-254 | in runs mixing single events and batches, an id is remembered exactly when a write of it reported success, and stored exactly when it was routed singly or in a committed batch |
| Router.StoredOnceExactly | quality-engine/quarantine/router.py:74-254 | in runs mixing single events and batches, each id is stored at most once if and only if every operation stores no id that an earlier one stored, none twice, and no commit of it goes unseen |
| Router.CleanSingles | quality-engine/quarantine/router.py:74-174 | for single events with truthful appends that condition says that no id is routed again except after a success |
| Router.BatchStoresRepeats | quality-engine/quarantine/router.py:188-254 | for every batch and seen set, what a batch stores is free of repeats if and only if no two of its unseen events have one id |
| Router.IdIgnoresEvaluationOrder | quality-engine/quarantine/router.py:133-147 | the id seed and code of an event are the same for every permutation of its failures |
| ErrorCodes.SortFailedSorts | quality-engine/quarantine/error_codes.py:73-80 | sorting orders by weight then name and loses no failure |
| ErrorCodes.PrimaryIsCanonical | quality-engine/quarantine/error_codes.py:73-107 | for every permutation of the failures the primary code and the ordered rule list are the same |
| ErrorCodes.PrimaryIsWorst | quality-engine/quarantine/error_codes.py:83-95 | the primary failure is as severe as any, CRITICAL over HIGH over WARNING and MEDIUM over LOW and INFO over none, alphabetically first among equals, and heads the rule list |
| ErrorCodes.NamesSorted | quality-engine/quarantine/error_codes.py:73-107 | sorting keeps every rule name as often as it failed |
| ErrorCodes.ResultIsCanonical | quality-engine/quarantine/error_codes.py:83-107 | without two failures of one rule at one weight the message is canonical too |
| ErrorMessages.MessageTellsAll | quality-engine/quarantine/error_codes.py:97-107 | a single failure's message is its own text; of several, each is found in the message with its rule and text |
| ErrorMessages.MessageFollowsEvaluationOrder | quality-engine/quarantine/error_codes.py:73-105 | two failures of one rule at one weight with different texts of one length: the message depends on which came first |
| ErrorMessages.MessageCanonicalExactly | quality-engine/quarantine/error_codes.py:73-107 | the message is the same for every permutation of the failures if and only if any two of one weight and rule read the same side by side in either order |
| ErrorMessages.SwappableExactly | quality-engine/quarantine/error_codes.py:104-105 | failures of one rule read the same in either order if their texts are equal, and, for texts of one length, only then |
| ErrorMessages.DifferentTextsMaySwap | quality-engine/quarantine/error_codes.py:104-105 | texts that contain the separator can differ and still read the same in either order |
| Remediation.RemediationController.GetOrCreateIncident | quality-engine/remediation/controller.py:125-173 | which incident is used or created, and the breaker query a creation makes |
| RemediationRuns.LoadsExactly | quality-engine/remediation/controller.py:125-174 | a named incident that exists, or else the active one, is worked on as it stands; only when there is none is one created, open and with no attempt made; no other incident changes |
| Remediation.RemediationController.ProbeBreaker | quality-engine/remediation/controller.py:380-388 | the half-opening by hand and the recorded result |
| Remediation.RemediationController.JudgeBatch | quality-engine/remediation/controller.py:380-394 | the decision between re-ingestion and failure |
| Remediation.RemediationController.ReingestEvents | quality-engine/remediation/controller.py:394-453 | re-ingestion, with the sink's failures recorded on pipeline and incident |
| Remediation.RemediationController.ResumePipeline | quality-engine/remediation/controller.py:455-530 | RESUMING, RUNNING and the recovered incident, in that order, with a raise possible between any two |
| Remediation.RemediationController.RecoverIncident | quality-engine/remediation/controller.py:274-380 | quarantine check, alert, re-fetch, reprocess, up to validation |
| Remediation.RemediationController.AttemptRecovery | quality-engine/remediation/controller.py:228-268 | the maximum, the saved attempt and the forced entry to REMEDIATING |
| Remediation.RemediationController.ExecuteRemediation | quality-engine/remediation/controller.py:195-584 | a call during another changes nothing; otherwise the in-progress flag is clear on every exit, exceptions included |
| RemediationRuns.SuccessMeansRecovered | quality-engine/remediation/controller.py:226-541 | success means RUNNING, breaker CLOSED, incident RECOVERED, every event valid, and every event's row appended one to max_retries times; the result counts every event as recovered |
| RemediationRuns.SuccessDeliversEveryEvent | quality-engine/remediation/controller.py:391-456 | after a success the table holds, for every re-fetched event, a row with exactly the schema's columns in which every value the event has is that value converted and everything else is null, or the current time for a missing ingestion time |
| RemediationRuns.FailureIsRecorded | quality-engine/remediation/controller.py:226-584 | every attempt that ran and reports failure leaves pipeline and incident RECOVERY_FAILED; one over the maximum leaves the incident alone |
| RemediationRuns.VerdictExactly | quality-engine/remediation/controller.py:195-446 | with a breaker not CLOSED at validation and no exception, every attempt ends as its circumstances say: refused over the maximum, failed at the first stage with cause to fail, or successful, with these counts |
| RemediationRuns.CompletesExactly | quality-engine/remediation/controller.py:371-388 | with no fault, an attempt that validates completes normally if and only if the breaker is then not CLOSED; otherwise it raises in VALIDATING |
| RemediationRuns.ClosedButFailedExactly | quality-engine/remediation/controller.py:380-456 | a completed attempt leaves breaker CLOSED and pipeline RECOVERY_FAILED exactly for an empty batch, a positive rate within the threshold, or a failed re-ingestion |
| RemediationRuns.ProbeExactly | quality-engine/remediation/controller.py:380-388 | recording is refused exactly when the breaker is found CLOSED; else it closes exactly when the rate is within the threshold |
| RemediationRuns.StuckUntilTripped | quality-engine/remediation/controller.py:380-388 | from a CLOSED in-memory breaker no run of attempts ever succeeds |
| RemediationRuns.AttemptCountsOnce | quality-engine/remediation/controller.py:229-262 | the counter rises by one exactly when the attempt is not over the maximum and its save goes through; other incidents are untouched |
| RemediationRuns.MaximumIsAllowed | quality-engine/remediation/controller.py:227-250 | whatever else goes wrong, a maximum of m allows exactly m attempts: the next is refused if and only if m have been made, unless recording that raises |
| RemediationRuns.NeverPastMaximum | quality-engine/remediation/controller.py:231-254 | in every run of calls no counter passes a finite positive maximum |
| RemediationRuns.TrailStaysSound | quality-engine/remediation/controller.py:264-584 | in every run of calls the audit trail is chained, forces only REMEDIATING and RECOVERY_FAILED, and never reaches RECOVERED |
| PipelineState.Manager.TransitionTo | quality-engine/remediation/state_manager.py:177-230 | accepts self-loops, table edges and forced moves and records them; raises otherwise and changes nothing |
| PipelineState.Manager.RecordFailure | quality-engine/remediation/state_manager.py:232-246 | always reaches RECOVERY_FAILED, by a forced entry |
| PipelineState.NeverRecovered | quality-engine/remediation/state_manager.py:41-111 | no path enters RECOVERED |
| PipelineState.RecoveryVisitsEveryStage | quality-engine/remediation/state_manager.py:41-111 | from the last REMEDIATING to RUNNING, unless abandoned, REFETCHING, REPROCESSING, VALIDATING and RESUMING are visited in that order |
| PipelineState.StagesExactly | quality-engine/remediation/state_manager.py:41-111 | avoiding a set of states makes every attempt that reaches RUNNING visit the four stages in order if and only if the set holds CIRCUIT_OPEN and RECOVERY_FAILED |
| PipelineState.Progress | quality-engine/remediation/state_manager.py:67-103 | wherever an unbroken attempt stands, the stages it must have passed, in order |
| PipelineState.AbandonedAttemptSkipsStages | quality-engine/remediation/state_manager.py:60-75 | whenever one of these two states is not avoided, the pipeline can run again through it without those stages |
| Reprocessor.Process | quality-engine/remediation/reprocessor.py:72-121 | the loop computes the partition, the counts and the rate |
| Reprocessor.ProcessedAddsUp | quality-engine/remediation/reprocessor.py:27-38 | the counts are those of the two sides and add up, rate times total is the invalid count, and a batch is fully valid exactly when it is not empty and every event passed |
| Reprocessor.Rank | quality-engine/remediation/reprocessor.py:86-104 | each event stands on its side at the place given by how many of its kind came before |
| Reprocessor.EveryEventIsPlaced | quality-engine/remediation/reprocessor.py:62-121 | an event that passed is passed on with incident and attempt under their own keys and every other field as it was; one that did not is set aside unchanged; each at its place among its kind |
| Reprocessor.SelectedPartition | quality-engine/remediation/reprocessor.py:86-104 | the two sides together are the events, none lost or repeated |
| LakehouseSink.NormalizeEventsForSchema | quality-engine/remediation/lakehouse_sink.py:112-161 | rectangular columns; each cell is the event's value converted, or for a missing one null, or the current time if it is the ingestion time |
| LakehouseSink.ProjectionExactly | quality-engine/remediation/lakehouse_sink.py:112-161 | the projection of an event is the one row with exactly the schema's columns that carries its values converted |
| LakehouseSink.FieldsAreRecovered | quality-engine/remediation/lakehouse_sink.py:112-161 | when conversion changes nothing, the event's own schema fields are read back from its row |
| LakehouseSink.ProvenanceIsDropped | quality-engine/remediation/lakehouse_sink.py:112-124 | provenance keys do not change the projected row |
| LakehouseSink.IcebergLakehouseSink.WriteEvents | quality-engine/remediation/lakehouse_sink.py:163-249 | the table gains whole copies of the projected batch, and the result says success or not |
| LakehouseSink.IcebergLakehouseSink.Append | quality-engine/remediation/lakehouse_sink.py:189-239 | the retry loop with commits that raise afterwards, failed lookups and failed refreshes |
| LakehouseSink.DeliversExactly | quality-engine/remediation/lakehouse_sink.py:163-252 | with attempts allowed, a write succeeds if and only if some attempt the loop reaches commits and says so, or fails only in the snapshot lookup with an attempt to spare and a refresh that goes through |
| LakehouseSink.SuccessMeansCommitted | quality-engine/remediation/lakehouse_sink.py:196-239 | with max_retries at least 1, success means one to max_retries commits |
| LakehouseSink.ExactlyOnceExactly | quality-engine/remediation/lakehouse_sink.py:196-230 | a success wrote every row exactly once if and only if no commit it reached raised afterwards |
| LakehouseSink.FailureMayHaveCommitted | quality-engine/remediation/lakehouse_sink.py:199-230 | a reported failure committed nothing if and only if every attempt it reached failed |
| LakehouseSink.NoRetriesNoRows | quality-engine/remediation/lakehouse_sink.py:196-239 | once prepared, a batch is reported written with no commit exactly when max_retries is not positive |
| CircuitBreaker.Authority.SyncFromStorage | quality-engine/circuit_breaker/breaker.py:155-183 | the state and counters of the stored row, keeping the probe flag |
| CircuitBreaker.Authority.Execute | quality-engine/circuit_breaker/breaker.py:291-376 | a validated transition with its counters, history and stored row; an illegal one raises and changes nothing |
| CircuitBreaker.Authority.CheckTimeoutTransition | quality-engine/circuit_breaker/breaker.py:203-221 | the automatic half-opening |
| CircuitBreaker.Authority.QueryState | quality-engine/circuit_breaker/breaker.py:191-201 | a state query synchronizes and may half-open first |
| CircuitBreaker.Authority.MayProcess | quality-engine/circuit_breaker/breaker.py:223-230 | processing is allowed only when CLOSED |
| CircuitBreaker.Authority.MayProbe | quality-engine/circuit_breaker/breaker.py:232-239 | probing is allowed only in HALF_OPEN without an active probe |
| CircuitBreaker.Authority.EvaluateRate | quality-engine/circuit_breaker/breaker.py:241-267 | an evaluation may trip the breaker |
| CircuitBreaker.Authority.MoveTo | quality-engine/circuit_breaker/breaker.py:274-289 | a transition by hand, recorded with the given rate or else the last one seen |
| CircuitBreaker.Authority.BeginRecoveryProbe | quality-engine/circuit_breaker/breaker.py:378-421 | at most one probe is granted |
| CircuitBreaker.Authority.RecordRecovery | quality-engine/circuit_breaker/breaker.py:427-474 | a probe result closes or reopens, and raises outside HALF_OPEN |
| CircuitBreakerRuns.EveryRunIsSound | quality-engine/circuit_breaker/breaker.py:203-376 | every in-memory run: opened_at exactly when not CLOSED, a probe implies HALF_OPEN, no early half-opening, history is the last max_history entries of a legal chain ending in the current state |
| CircuitBreakerRuns.AnswersExactly | quality-engine/circuit_breaker/breaker.py:191-267 | after synchronizing, events may pass exactly when disabled or CLOSED, a probe may start exactly when enabled and HALF_OPEN, or OPEN for the timeout, with none under way, and an evaluation trips exactly an enabled CLOSED breaker above the threshold |
| CircuitBreakerRuns.GateExactly | quality-engine/circuit_breaker/breaker.py:223-231 | in every in-memory run events may pass if and only if the breaker is disabled or its last transition was back to CLOSED |
| CircuitBreakerRuns.TransitionsAreSeen | quality-engine/circuit_breaker/breaker.py:155-183 | of two breakers on one stored row, each has the other's state and counters after its next synchronization, but its own probe flag |
| CircuitBreakerRuns.NoOpenAfterTimeout | quality-engine/circuit_breaker/breaker.py:191-221 | no state query at or after the timeout answers OPEN |
| CircuitBreakerRuns.EveryTransitionJustified | quality-engine/circuit_breaker/breaker.py:241-474 | every recorded transition fits its reason, and every trip had a rate above the threshold |
| CircuitBreakerRuns.Ledger | quality-engine/circuit_breaker/breaker.py:311-474 | every opening is settled by one success, one failure or one exit by hand, or is still current |
| CircuitBreakerRuns.ControllerLedger | quality-engine/circuit_breaker/breaker.py:311-474 | when hands only half-open, opens = successes + failures + (1 if not CLOSED) |
| CircuitBreakerRuns.ProbesExclude | quality-engine/circuit_breaker/breaker.py:378-474 | between two granted probes there is a recorded result or an exit from HALF_OPEN by hand |
| CircuitBreakerRuns.SoleWriterAgrees | quality-engine/circuit_breaker/breaker.py:155-183 | a sole writer whose storage always answers takes the same states, counters and replies as an in-memory breaker |
| Windows.WindowAggregator.EvictExpired | quality-engine/metrics/window.py:106-110 | the loop drops the leading expired records and stops at the first that is not |
| Windows.WindowAggregator.GetMetrics | quality-engine/metrics/window.py:112-150 | after eviction: the number of records, of valid and of invalid ones, with rate times total the invalid count |
| Windows.CountExactly | quality-engine/metrics/window.py:128-129 | the counts are the numbers of valid and of invalid positions in the deque |
| Windows.LiveLosesNothingRecent | quality-engine/metrics/window.py:106-110 | eviction drops a prefix of expired records and stops at the first unexpired one, so no unexpired record is lost |
| Windows.LiveIsRecentExactly | quality-engine/metrics/window.py:106-110 | head eviction equals filtering if and only if no expired record stands behind an unexpired one |
| ErrorRates.ErrorRateEngine.FlushWindow | quality-engine/metrics/error_rate.py:178-186 | the saved counts of a window are those of its evicted deque and add up, its valid and its invalid records |
| ErrorRates.ErrorRateEngine.FlushEventCounts | quality-engine/metrics/error_rate.py:178-188 | a flush evicts every window as of the clock and keeps the stored rows consistent |
| ErrorRates.ErrorRateEngine.RecordEventOutcome | quality-engine/metrics/error_rate.py:164-176 | an outcome reaches every window, and every so many outcomes flush |
| ErrorRates.ErrorRateEngine.Window | quality-engine/metrics/error_rate.py:241-246 | a window is created empty on first use; measuring evicts it and leaves the others alone |
| ErrorRates.ErrorRateEngine.Calculate | quality-engine/metrics/error_rate.py:227-340 | counts are the window's valid and invalid records, or those of a fresh persisted row when the window is empty and nothing was recorded; rate times total is the failed count; HEALTHY, WARNING and CRITICAL by their boundaries |
| ErrorRates.ConcludesExactly | quality-engine/metrics/error_rate.py:212-340 | which counts a measurement uses, that its rate is the failed share, and its class with both boundaries |
| ErrorRates.RaisesExactly | quality-engine/metrics/error_rate.py:262-304 | raises exactly when the fallback row contradicts itself, never about its own windows; the rate is in [0, 1] |
| ErrorRates.MeasuredFromHistory | quality-engine/metrics/error_rate.py:164-246 | for event times in any order, a window measured no earlier than anything before it is the whole history less its leading expired outcomes |
| ErrorRates.MeasuresWindowExactly | quality-engine/metrics/window.py:106-150 | it misses no unexpired outcome, and equals the filter exactly when no expired outcome follows an unexpired one, so always for sorted times |
| ErrorRates.MissesNothingExactly | quality-engine/metrics/window.py:106-150 | after measurements in any order, a measurement misses no unexpired outcome if and only if no eviction before it dropped one |
| ErrorRates.ScheduleMissesNothingExactly | quality-engine/metrics/window.py:106-150 | it misses none whatever the event times if and only if every earlier eviction that could find an outcome had no later a cutoff |
| ErrorRates.SmallerWindowCountsLess | quality-engine/metrics/error_rate.py:342-352 | measured together, a smaller window never counts more than a larger one, even for unsorted times |
| ErrorRates.LateOutcomeOvercounts | quality-engine/metrics/window.py:106-110 | a late outcome behind a fresh one is still counted |
| ErrorRates.AskingBackwardsUndercounts | quality-engine/metrics/window.py:112-129 | for instance, asking about the past after the present misses an outcome |
| Duplicates.DuplicateRule.PurgeExpired | quality-engine/detectors/duplicate.py:50-55 | the collect-then-delete loop leaves exactly the unexpired ids |
| Duplicates.DuplicateRule.Check | quality-engine/detectors/duplicate.py:57-103 | purge, look up, and remember only what was accepted |
| Duplicates.FlaggedExactly | quality-engine/detectors/duplicate.py:50-103 | on a nondecreasing clock an id is flagged if and only if it was accepted within the window |
| Duplicates.FlaggedOnAnyClock | quality-engine/detectors/duplicate.py:50-103 | on any clock, an id is flagged if and only if an earlier check accepted it within the window and no populated check in between came more than the window after that |
| Duplicates.SeenOnAnyClock | quality-engine/detectors/duplicate.py:50-103 | on any clock the map is exactly the acceptances no later check has outlived by more than the window |
| Duplicates.AcceptedFarApart | quality-engine/detectors/duplicate.py:146-199 | two acceptances of one id are more than the window apart |
| Duplicates.SeenIsTheWindow | quality-engine/detectors/duplicate.py:50-103 | after a check the map is exactly the ids accepted within the window |
| Duplicates.SeenRefinesLast | quality-engine/detectors/duplicate.py:146-199 | the purged map answers every later question as the complete record would |
| Duplicates.NeverFlagsFalsely | quality-engine/detectors/duplicate.py:57-103 | on any clock a flagged id was accepted within the window |
| Duplicates.BackwardClockForgets | quality-engine/detectors/duplicate.py:50-55 | for instance, a clock that jumps ahead and back lets a duplicate through |
| RateLimiter.Middleware.Dispatch | backend/middleware/rate_limiter.py:68-90 | the locked decision and the stored list of one client; other clients are untouched |
| RateLimiter.VerdictByHistory | backend/middleware/rate_limiter.py:72-76 | every verdict is the one the complete admission log would give |
| RateLimiter.AdmittedExactly | backend/middleware/rate_limiter.py:70-90 | a request is admitted if and only if fewer than the limit of all admissions ever granted are less than a window old |
| RateLimiter.WindowNeverExceeded | backend/middleware/rate_limiter.py:68-90 | no half-open interval one window long holds more than the limit of admissions of one client |
| RateLimiter.RetryExactly | backend/middleware/rate_limiter.py:75-90 | after a denial, with nothing admitted since, a request is admitted if and only if the oldest admission is one whole window old |
| RateLimiter.RetryAfterAdvice | backend/middleware/rate_limiter.py:77 | one second more than Retry-After (section 10.2.3 of RFC 9110) is always enough; exactly Retry-After is enough if and only if truncation lost nothing |
| RateLimiter.RetryAfterTooShort | backend/middleware/rate_limiter.py:77 | a client that waits exactly the advertised time is denied again |
| RateLimiter.ClientsAreIsolated | backend/middleware/rate_limiter.py:70-90 | what is stored for a client depends on its own requests alone |
| SchemaCompatibility.InspectExpected | schema/compatibility.py:62-254 | the pass over expected fields, with the matched actual fields |
| SchemaCompatibility.Compare | schema/compatibility.py:43-326 | both passes and the aggregation into a verdict |
| SchemaVerdicts.VerdictWithRenames | schema/compatibility.py:62-308 | for every rename map, compatible holds exactly when every expected field passes its check, a renamed one for its type only, and no unmatched new column is required; BREAKING exactly when not compatible, and the severity to match |
| SchemaVerdicts.ChangesExactly | schema/compatibility.py:62-291 | for every rename map the change list holds exactly what there is to report about each expected field and each new column, by kind, field and severity |
| SchemaVerdicts.VerdictMeaning | schema/compatibility.py:118-308 | without renames, compatible holds exactly when every field is safe, and class COMPATIBLE exactly when, besides, no column was dropped |
| SchemaVerdicts.StrictIsPreorder | schema/compatibility.py:16-33 | strict COMPATIBLE is reflexive and transitive over the supported types |
| SchemaVerdicts.NoChangesExactly | schema/compatibility.py:118-223 | the change list is empty if and only if fields agree in name, type, required flag and enum set |
| SchemaVerdicts.CompatibleComposesExactly | schema/compatibility.py:16-258 | for all schemas, two compatible steps make a compatible whole if and only if every column dropped and added back is safe from first to last, no required column is relaxed and then dropped, and none goes from integer to float to double, which the supported types exclude |
| SchemaVerdicts.StrictComposesExactly | schema/compatibility.py:16-33 | for all schemas, two steps of the strict class make a third if and only if no column goes from integer to float to double: the matrix is transitive but for that triple |
| SchemaVerdicts.DroppedThenReadded | schema/compatibility.py:227-258 | any optional column can be dropped and added back with any optional version compatibly, directly only if that version is safe |
| SchemaVerdicts.RelaxedThenDropped | schema/compatibility.py:158-239 | any required column can be removed compatibly in two steps and never in one |
| SchemaVerdicts.WidenedTwice | schema/compatibility.py:16-29 | any integer column widens to float and on to double, and never directly |
| SchemaMeaning.AcceptedExactly | schema/compatibility.py:62-291 | for every pair of plain schemas and injective renaming, all old events are accepted once renamed if and only if every matched field widens and every unmatched new field is optional |
| SchemaMeaning.VerdictAgainstEvents | schema/compatibility.py:62-308 | compatible with no enum gained, no renamed column required or stricter, and no stale required name, if and only if all events are accepted, no enum is lifted and no required column removed |
| SchemaMeaning.RenamesExactly | schema/compatibility.py:62-117 | a compatible verdict means that every renamed event is accepted if and only if no renamed column became required or stricter in its enum, no other gained an enum, and no old name is still required |
| SchemaMeaning.CompatibleIsSound | schema/compatibility.py:62-223 | compatible means every event of the old schema is accepted by the new one if no field gains an enum, and, for plain schemas, only then |
| SchemaMeaning.CompatibleExactly | schema/compatibility.py:118-308 | for all plain schemas verdict and events part exactly at enums gained, which it overlooks, and at enums lifted and required columns removed, which it refuses in vain |
| SchemaMeaning.EnumIntroduced | schema/compatibility.py:190-223 | an enum put on any free text field of any plain schema passes as compatible and rejects an accepted event |
| SchemaMeaning.RenameUnchecked | schema/compatibility.py:62-117 | for every renamed column: compatible exactly when the types fit, events accepted exactly when the field widens in type, required flag and enum |
| SchemaMeaning.ExtraKeysExactly | schema/compatibility.py:190-291 | for all plain schemas, accepted events with extra keys stay accepted if and only if those without do and no column is added; after a compatible verdict: if and only if no enum is gained and no column added |
| SchemaMeaning.AddedColumnClashes | schema/compatibility.py:259-291 | every column added to a plain schema meets an accepted event that carried something else under its name |
| SchemaMeaning.FalseAlarms | schema/compatibility.py:211-239 | for instance, removing a required column or lifting an enum is refused although no event is rejected |
| IncidentIds.GenerateIncidentId | backend/storage/db.py:654-687 | the next id is read off the alphabetically largest id with the day's prefix |
| IncidentIds.NextIdIsUnique | backend/storage/db.py:654-687 | the table determines the next id |
| IncidentIds.ParsePadded | backend/storage/db.py:682-687 | parsing undoes zero-padded printing for every number |
| IncidentIds.OrderIsNumeric | backend/storage/db.py:661-679 | digit strings of one length compare as the numbers they spell |
| IncidentIds.PaddedWidth | backend/storage/db.py:687 | the padded counter is four digits wide exactly up to 9999 |
| IncidentIds.NextIdIsFresh | backend/storage/db.py:654-687 | while no counter passed 9999 the next id is the largest plus one and unused |
| IncidentIds.DayOfIds | backend/storage/db.py:654-687 | the first 10000 ids of a day are 1 to 10000, each new; every later one is 10000 again |
| IncidentIds.FreshExactly | backend/storage/db.py:654-687 | for every date, with ids created by hand or not, the next id is new in every table with this top if and only if it sorts after that top |
| IncidentIds.FreshAfterCounter | backend/storage/db.py:654-687 | after a generated id the next one is sure to be new exactly up to counter 9998 |
| IncidentIds.CustomSuffixRepeatsAnId | backend/storage/db.py:681-687 | an instance: one id with a suffix that is no number makes the next id a repeat |
| Incidents.IncidentStore.FindActiveIncident | backend/storage/db.py:689-710 | finds an active incident by pipeline name or id, none created later, exactly when one of that name is neither recovered nor resolved |
| Incidents.IncidentStore.CreateIncident | backend/storage/db.py:712-778 | inserting over an id keeps name, pipeline, trigger and creation time |
| Incidents.IncidentService.CreateOrUpdateIncident | backend/services/incident_service.py:125-179 | under the lock: an active incident takes the report's measurements and the larger quarantine count and keeps all else; without one a new open incident is stored |
| Incidents.IncidentService.AcknowledgeIncident | backend/services/incident_service.py:203-240 | answers and new status for every status, the missing id included |
| Incidents.IncidentService.ResolveIncident | backend/services/incident_service.py:242-291 | answers and new status for every status, the missing id included |
| Incidents.RevivesExactly | backend/services/incident_service.py:125-291 | whether a call will make an incident active beside another can be read off the call and the table before it, for every call |
| Incidents.OneActiveExactly | backend/services/incident_service.py:125-179 | in every serialized run no pipeline ever has two active incidents if and only if no call revives one: acknowledges a recovered incident, or stores an active row under the id of an inactive or absent one, while another of the pipeline is active |
| Incidents.AtMostOneActivePerPipeline | backend/services/incident_service.py:125-291 | reports without explicit ids, acknowledgements of unrecovered and updates of unrevived incidents keep at most one active incident per pipeline |
| Incidents.ResolvedIsFinal | backend/services/incident_service.py:203-291 | a resolved incident never changes again unless a remediation saves it anew |
| Incidents.StaysResolvedExactly | backend/services/incident_service.py:125-291 | in every run, disciplined or not, a resolved incident stays resolved if and only if no later call stores a report under its id, by name or as the next id, or saves it in another state |
| Incidents.AcknowledgingRecoveredRevives | backend/services/incident_service.py:213-232 | acknowledging a recovered incident beside a newer one always makes two active |
| Incidents.RecoveredThenReported | backend/services/incident_service.py:137-179 | such a state is reached from an empty table |
| Incidents.FiledExactly | backend/storage/db.py:712-778 | a report of a pipeline without an active incident leaves it with one if and only if the generated id is new or already belongs to that pipeline |
| Incidents.OverflowMisfilesTheReport | backend/storage/db.py:758-775 | after 10000 ids a report is stored under the last of them and overwrites it; unless that one belongs to the pipeline, the pipeline gets no incident |
| Lexicographic.SamePrefix | backend/storage/db.py:661-679 | a common prefix does not change the order of two strings |

## Left out

- Backoff, logging, metrics emission, message texts and audit rows of remediation attempts: no stated property depends on them.
- Flink pause and resume: the controller ignores their results.
- SQL text, pooling, the SQLite and PostgreSQL split, and locale-dependent collation: strings compare character by character.
- IncidentIds.GenerateIncidentId: SQLite's LIKE ignores ASCII case, so there an explicit id in lower case with the day's prefix is a row of the query too, while here prefixes match exactly; digits and spaces outside ASCII, which Python's `int()` also accepts, count as no number.
- Slack updates of a stored incident: they rewrite the row outside the lock, and a concurrent change can be lost.
- Storage hydration at start-up, and two processes sharing one breaker row.
- Quarantining of events that fail re-validation: best effort, with errors swallowed.
- The comparison of an object key with `s3a://` references, delete files and statistics files: a file is what a manifest names.
- Snapshot expiry interleaved with commits inside one call: the step system has expiry as a single step.
- Value rules, the Great Expectations adapter, fault injection, routers, models, the frontend: each is settled by one branch or is plumbing.
- Resetting windows, detectors and engines, and changing a detector's window while it runs.
- The error-rate engine's snapshot history and its health-change log.
- MaintenanceSystem.ListingFindsTheDoomed: references are URIs; that the code would also match a bare key is excluded.
- MaintenanceSystem.NeverBreaksALiveSnapshot: modification times are exact, while an object store may report whole seconds.
- Maintenance.MaintenanceManager.RunTableMaintenance: compaction acts on the rows; the snapshot it commits enters as a commit of the step system.
- Remediation.RemediationController.ExecuteRemediation: faults strike between steps, not inside one, and nobody else moves the pipeline state during an attempt.
- ErrorRates.MeasuredFromHistory: it is about windows configured at construction; one created on first use starts empty.
- LakehouseSink.NormalizeEventsForSchema: the conversion of one value is an uninterpreted function; one that raises fails the whole write.
- Duplicates.DuplicateRule.Check: whether an id is blank or the word "none" is decided before the call.
- ErrorRates.ErrorRateEngine.constructor: thresholds the engine would refuse are a precondition, and the constructor's ValueError is not modelled.
