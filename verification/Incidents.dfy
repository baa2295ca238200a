/** Incident rows and their lifecycle: upserts by id, one active incident per pipeline, acknowledging
    and resolving. */
module Incidents {
  import opened Wrappers
  import opened IncidentIds

  datatype Status = Open | Acknowledged | Remediating | Recovered | RecoveryFailed | Resolved

  datatype Incident = Incident(pipelineName: string, pipelineId: string, trigger: string, createdAt: int,
                               status: Status,
                               rate: real, failed: int, total: int, quarantine: int, circuit: string,
                               attempt: nat, resolvedAt: Option<int>)

  type Table = map<string, Incident>

  datatype Report = Report(pipelineName: string, trigger: string, rate: real, failed: int, total: int,
                           quarantine: int, circuit: string)

  /** An empty explicit id counts as none. */
  datatype Call =
    | CreateOrUpdate(report: Report, explicit: string, date: string, now: int)
    | Acknowledge(id: string)
    | Resolve(id: string, rate: Option<real>, now: int)
    | Save(id: string, row: Incident)

  datatype Answer = NotFound | Conflict | Unchanged | Changed

  predicate Active(row: Incident) { row.status in {Open, Acknowledged, Remediating, RecoveryFailed} }

  /** A name matches an incident through its pipeline name or through its pipeline id. */
  predicate ActiveFor(row: Incident, name: string)
  {
    Active(row) && (row.pipelineName == name || row.pipelineId == name)
  }

  /** Inserting over an existing id keeps what identifies the old incident. */
  function Upsert(rows: Table, id: string, row: Incident): Table
  {
    if id !in rows then rows[id := row]
    else
      var kept := rows[id];
      rows[id := row.(pipelineName := kept.pipelineName, pipelineId := kept.pipelineId,
                      trigger := kept.trigger, createdAt := kept.createdAt)]
  }

  /** The row is stored under its id, over an existing one with that one's names, trigger and creation time; every other
      row stays. */
  ghost predicate Stored(before: Table, id: string, row: Incident, after: Table)
  {
    && after.Keys == before.Keys + {id} && (forall o :: o in before && o != id ==> after[o] == before[o])
    && var (kept, now) := (if id in before then before[id] else row, after[id]);
       && now.pipelineName == kept.pipelineName && now.pipelineId == kept.pipelineId
       && now.trigger == kept.trigger && now.createdAt == kept.createdAt
       && now.status == row.status && now.rate == row.rate && now.failed == row.failed && now.total == row.total
       && now.quarantine == row.quarantine && now.circuit == row.circuit && now.attempt == row.attempt
       && now.resolvedAt == row.resolvedAt
  }

  /** The incident carries the report's measurements, with the larger quarantine count of the two; what identifies it,
      its status and its attempts stay. */
  ghost predicate CarriesReport(before: Incident, r: Report, after: Incident)
  {
    && after.rate == r.rate && after.failed == r.failed && after.total == r.total && after.circuit == r.circuit
    && after.quarantine >= before.quarantine && after.quarantine >= r.quarantine
    && after.quarantine in {before.quarantine, r.quarantine}
    && after.pipelineName == before.pipelineName && after.pipelineId == before.pipelineId
    && after.trigger == before.trigger && after.createdAt == before.createdAt
    && after.status == before.status && after.attempt == before.attempt && after.resolvedAt == before.resolvedAt
  }

  function NewIncident(r: Report, now: int): Incident
  {
    Incident(r.pipelineName, "icestream", r.trigger, now, Open, r.rate, r.failed, r.total, r.quarantine, r.circuit, 0,
        None)
  }

  function Refreshed(row: Incident, r: Report): Incident
  {
    row.(rate := r.rate, failed := r.failed, total := r.total, circuit := r.circuit,
         quarantine := if r.quarantine > row.quarantine then r.quarantine else row.quarantine)
  }

  ghost predicate NoneActive(rows: Table, name: string) { forall id :: id in rows ==> !ActiveFor(rows[id], name) }

  lemma OverExactly(row: Incident)
    ensures Active(row) <==> row.status != Recovered && row.status != Resolved
  {
    assert row.status == Open || row.status == Acknowledged || row.status == Remediating || row.status == Recovered ||
           row.status == RecoveryFailed || row.status == Resolved;
  }

  /** Every incident of that name is over: recovered or resolved. */
  lemma NoneActiveExactly(rows: Table, name: string)
    ensures NoneActive(rows, name)
       <==> forall id :: id in rows && (rows[id].pipelineName == name || rows[id].pipelineId == name) ==>
              rows[id].status in {Recovered, Resolved}
  {
    if NoneActive(rows, name) {
      forall id | id in rows && (rows[id].pipelineName == name || rows[id].pipelineId == name)
        ensures rows[id].status in {Recovered, Resolved}
      {
        assert !ActiveFor(rows[id], name);
        OverExactly(rows[id]);
      }
    }
  }

  /** An incident the lookup may return: active for the name, none created later. */
  ghost predicate IsLatest(rows: Table, name: string, id: string)
  {
    && id in rows && ActiveFor(rows[id], name)
    && forall o :: o in rows && ActiveFor(rows[o], name) ==> rows[o].createdAt <= rows[id].createdAt
  }

  /** The row a report touches, and what it becomes. */
  ghost predicate ReportTouches(rows: Table, call: Call, id: string, row: Incident)
    requires call.CreateOrUpdate?
  {
    if call.explicit == "" && !NoneActive(rows, call.report.pipelineName)
    then IsLatest(rows, call.report.pipelineName, id) && row == Refreshed(rows[id], call.report)
    else
      && (if call.explicit != "" then id == call.explicit else IsNextId(rows.Keys, Prefix(call.date), id))
      && row == NewIncident(call.report, call.now)
  }

  ghost predicate Next(before: Table, call: Call, after: Table)
  {
    match call
    case CreateOrUpdate(_, _, _, _) =>
      exists id, row :: ReportTouches(before, call, id, row) && after == Upsert(before, id, row)
    case Acknowledge(id) =>
      if id !in before || before[id].status in {Resolved, Acknowledged} then after == before
      else after == Upsert(before, id, before[id].(status := Acknowledged))
    case Resolve(id, rate, now) =>
      if id !in before || before[id].status == Resolved then after == before
      else after == Upsert(before, id, before[id].(status := Resolved, resolvedAt := Some(now),
                                                   rate := if rate.Some? then rate.value else before[id].rate))
    case Save(id, row) => after == Upsert(before, id, row)
  }

  lemma {:induction false} LatestExists(rows: Table, some: set<string>)
    requires some != {} && some <= rows.Keys
    ensures exists id :: id in some && forall o :: o in some ==> rows[o].createdAt <= rows[id].createdAt
    decreases some
  {
    var x :| x in some;
    if some != {x} {
      LatestExists(rows, some - {x});
      var id :| id in some - {x} && forall o :: o in some - {x} ==> rows[o].createdAt <= rows[id].createdAt;
      assert forall o :: o in some ==> o == x || o in some - {x};
    }
  }

  class IncidentStore {
    var rows: Table

    constructor ()
      ensures rows == map[]
    {
      rows := map[];
    }

    method FindActiveIncident(name: string) returns (found: Option<string>)
      ensures found.None? <==> NoneActive(rows, name)
      ensures found.None? <==>
                forall id :: id in rows && (rows[id].pipelineName == name || rows[id].pipelineId == name) ==>
                  rows[id].status in {Recovered, Resolved}
      ensures found.Some? ==> IsLatest(rows, name, found.value)
    {
      NoneActiveExactly(rows, name);
      var active := set id | id in rows && ActiveFor(rows[id], name);
      if active == {} {
        forall id | id in rows ensures !ActiveFor(rows[id], name) {
          assert id !in active;
        }
        return None;
      }
      LatestExists(rows, active);
      var id :| id in active && forall o :: o in active ==> rows[o].createdAt <= rows[id].createdAt;
      return Some(id);
    }

    method CreateIncident(id: string, row: Incident)
      modifies this
      ensures rows == Upsert(old(rows), id, row) && Stored(old(rows), id, row, rows)
    {
      if id in rows {
        var kept := rows[id];
        rows := rows[id := row.(pipelineName := kept.pipelineName, pipelineId := kept.pipelineId,
                                trigger := kept.trigger, createdAt := kept.createdAt)];
      } else {
        rows := rows[id := row];
      }
    }
  }

  class IncidentService {
    const store: IncidentStore

    constructor (store: IncidentStore)
      ensures this.store == store
    {
      this.store := store;
    }

    method CreateOrUpdateIncident(report: Report, explicit: string, date: string, now: int) returns (id: string)
      modifies store
      ensures id in store.rows
      ensures Next(old(store.rows), CreateOrUpdate(report, explicit, date, now), store.rows)
      ensures explicit == "" && !NoneActive(old(store.rows), report.pipelineName) ==>
                && IsLatest(old(store.rows), report.pipelineName, id) && store.rows.Keys == old(store.rows).Keys
                && CarriesReport(old(store.rows)[id], report, store.rows[id])
      ensures explicit != "" || NoneActive(old(store.rows), report.pipelineName) ==>
                && (if explicit != "" then id == explicit else IsNextId(old(store.rows).Keys, Prefix(date), id))
                && store.rows[id].status == Open && store.rows[id].attempt == 0 && store.rows[id].resolvedAt == None
                && store.rows[id].rate == report.rate && store.rows[id].failed == report.failed
                && store.rows[id].total == report.total && store.rows[id].quarantine == report.quarantine
                && store.rows[id].circuit == report.circuit
                && (id !in old(store.rows) ==>
                     && store.rows[id].pipelineName == report.pipelineName && store.rows[id].createdAt == now
                     && store.rows[id].trigger == report.trigger)
    {
      hide IsLatest, IsNextId, NoneActive, Upsert;
      ghost var call := CreateOrUpdate(report, explicit, date, now);
      if explicit == "" {
        var active := store.FindActiveIncident(report.pipelineName);
        if active.Some? {
          id := active.value;
          InRows(store.rows, report.pipelineName, id);
          var row := Refreshed(store.rows[id], report);
          assert ReportTouches(store.rows, call, id, row);
          store.CreateIncident(id, row);
          assert CarriesReport(old(store.rows)[id], report, store.rows[id]);
          return;
        }
      }
      id := explicit;
      if id == "" {
        id := GenerateIncidentId(store.rows.Keys, date);
      }
      assert ReportTouches(store.rows, call, id, NewIncident(report, now));
      store.CreateIncident(id, NewIncident(report, now));
    }

    method AcknowledgeIncident(id: string) returns (answer: Answer)
      modifies store
      ensures Next(old(store.rows), Acknowledge(id), store.rows)
      ensures answer.NotFound? <==> id !in old(store.rows)
      ensures answer.Conflict? <==> id in old(store.rows) && old(store.rows)[id].status == Resolved
      ensures answer.Unchanged? <==> id in old(store.rows) && old(store.rows)[id].status == Acknowledged
      ensures id in store.rows && !answer.Conflict? ==> store.rows[id].status == Acknowledged
      ensures answer.Changed? ==>
                Stored(old(store.rows), id, old(store.rows)[id].(status := Acknowledged), store.rows)
      ensures !answer.Changed? ==> store.rows == old(store.rows)
    {
      if id !in store.rows {
        return NotFound;
      }
      var row := store.rows[id];
      if row.status == Resolved {
        return Conflict;
      }
      if row.status == Acknowledged {
        return Unchanged;
      }
      store.CreateIncident(id, row.(status := Acknowledged));
      return Changed;
    }

    method ResolveIncident(id: string, rate: Option<real>, now: int) returns (answer: Answer)
      modifies store
      ensures Next(old(store.rows), Resolve(id, rate, now), store.rows)
      ensures answer.NotFound? <==> id !in old(store.rows)
      ensures answer.Unchanged? <==> id in old(store.rows) && old(store.rows)[id].status == Resolved
      ensures !answer.Conflict? && (id in store.rows ==> store.rows[id].status == Resolved)
      ensures answer.Changed? ==>
                && store.rows[id].resolvedAt == Some(now)
                && store.rows[id].rate == (if rate.Some? then rate.value else old(store.rows)[id].rate)
                && store.rows[id].attempt == old(store.rows)[id].attempt && store.rows.Keys == old(store.rows).Keys
      ensures !answer.Changed? ==> store.rows == old(store.rows)
    {
      if id !in store.rows {
        return NotFound;
      }
      var row := store.rows[id];
      if row.status == Resolved {
        return Unchanged;
      }
      store.CreateIncident(id,
          row.(status := Resolved, resolvedAt := Some(now), rate := if rate.Some? then rate.value else row.rate));
      return Changed;
    }
  }

  lemma InRows(rows: Table, name: string, id: string)
    requires IsLatest(rows, name, id)
    ensures id in rows
  {
  }

  // ----- At most one active incident per pipeline -------------------------------------------------

  ghost predicate AtMostOneActive(rows: Table)
  {
    forall a, b ::
      a in rows && b in rows && Active(rows[a]) && Active(rows[b]) && rows[a].pipelineName == rows[b].pipelineName
      ==> a == b
  }

  /** The call made incident `id` active while another of its pipeline already was. */
  ghost predicate ClashAt(before: Table, after: Table, id: string)
  {
    && id in after && Active(after[id]) && (id in before ==> !Active(before[id]))
    && exists o :: o in before && o != id && Active(before[o]) && before[o].pipelineName == after[id].pipelineName
  }

  ghost predicate Clash(before: Table, after: Table) { exists id :: ClashAt(before, after, id) }

  /** Every call leaves the table as it was or upserts one row. */
  lemma NextTouchesOne(before: Table, call: Call, after: Table) returns (id: string, row: Incident)
    requires Next(before, call, after)
    ensures after == before || after == Upsert(before, id, row)
  {
    match call
    case CreateOrUpdate(_, _, _, _) =>
      id, row :| ReportTouches(before, call, id, row) && after == Upsert(before, id, row);
    case Acknowledge(i) =>
      id := i;
      row := if i in before then before[i].(status := Acknowledged)
          else NewIncident(Report("", "", 0.0, 0, 0, 0, ""), 0);
    case Resolve(i, rate, now) =>
      id := i;
      row := if i in before then before[i].(status := Resolved, resolvedAt := Some(now),
                                            rate := if rate.Some? then rate.value else before[i].rate)
             else NewIncident(Report("", "", 0.0, 0, 0, 0, ""), 0);
    case Save(i, r) =>
      id, row := i, r;
  }

  lemma UpsertExactly(before: Table, id: string, row: Incident)
    requires AtMostOneActive(before)
    ensures AtMostOneActive(Upsert(before, id, row)) <==> !Clash(before, Upsert(before, id, row))
  {
    hide Active;
    var after := Upsert(before, id, row);
    assert id in after && forall o :: o in before && o != id ==> o in after && after[o] == before[o];
    if Clash(before, after) {
      var i :| ClashAt(before, after, i);
      var o :| o in before && o != i && Active(before[o]) && before[o].pipelineName == after[i].pipelineName;
      assert i == id;
      assert o in after && Active(after[o]);
    } else {
      assert !ClashAt(before, after, id);
      forall a, b | a in after && b in after && Active(after[a]) && Active(after[b]) &&
                    after[a].pipelineName == after[b].pipelineName
        ensures a == b
      {
      }
    }
  }

  lemma StepExactly(before: Table, call: Call, after: Table)
    requires AtMostOneActive(before) && Next(before, call, after)
    ensures AtMostOneActive(after) <==> !Clash(before, after)
  {
    hide Next, AtMostOneActive, Upsert;
    var id, row := NextTouchesOne(before, call, after);
    if after != before {
      UpsertExactly(before, id, row);
    }
  }

  // ----- What a caller can check before the call --------------------------------------------------

  /** Another incident of the pipeline is active. */
  ghost predicate Beside(rows: Table, id: string, name: string)
  {
    exists o :: o in rows && o != id && Active(rows[o]) && rows[o].pipelineName == name
  }

  /** An active row stored under the id of no active incident lands beside another one; over an existing id
      it keeps that incident's pipeline. */
  ghost predicate Lands(rows: Table, id: string, name: string)
  {
    if id in rows then !Active(rows[id]) && Beside(rows, id, rows[id].pipelineName) else Beside(rows, id, name)
  }

  /** The call is about to make a second incident of one pipeline active. */
  ghost predicate Revives(rows: Table, call: Call)
  {
    match call
    case CreateOrUpdate(r, explicit, date, _) =>
      if explicit != "" then Lands(rows, explicit, r.pipelineName)
      else
        && NoneActive(rows, r.pipelineName)
        && exists id :: IsNextId(rows.Keys, Prefix(date), id) && id in rows && Lands(rows, id, r.pipelineName)
    case Acknowledge(id) =>
      id in rows && rows[id].status == Recovered && Beside(rows, id, rows[id].pipelineName)
    case Resolve(_, _, _) => false
    case Save(id, row) => Active(row) && Lands(rows, id, row.pipelineName)
  }

  lemma UpsertClashes(before: Table, id: string, row: Incident)
    ensures Clash(before, Upsert(before, id, row)) <==> Active(row) && Lands(before, id, row.pipelineName)
  {
    hide Active;
    var after := Upsert(before, id, row);
    assert id in after && forall o :: o in before && o != id ==> o in after && after[o] == before[o];
    assert Active(after[id]) <==> Active(row) by {
      SameStatus(after[id], row);
    }
    if Clash(before, after) {
      var i :| ClashAt(before, after, i);
      assert i == id;
    }
    if Active(row) && Lands(before, id, row.pipelineName) {
      assert ClashAt(before, after, id);
    }
  }

  lemma SameStatus(a: Incident, b: Incident)
    requires a.status == b.status
    ensures Active(a) <==> Active(b)
  {
  }

  lemma ReportRevives(before: Table, call: Call, after: Table)
    requires call.CreateOrUpdate? && Next(before, call, after)
    ensures Clash(before, after) <==> Revives(before, call)
  {
    hide Active, Clash, IsNextId, Prefix, Upsert;
    var id, row :| ReportTouches(before, call, id, row) && after == Upsert(before, id, row);
    UpsertClashes(before, id, row);
    var name := call.report.pipelineName;
    if call.explicit == "" && !NoneActive(before, name) {
      SameStatus(before[id], row);
    } else {
      NewIsActive(call.report, call.now);
      if call.explicit == "" {
        forall other | IsNextId(before.Keys, Prefix(call.date), other) ensures other == id {
          NextIdIsUnique(before.Keys, Prefix(call.date), other, id);
        }
      }
    }
  }

  lemma NewIsActive(r: Report, now: int)
    ensures Active(NewIncident(r, now))
  {
  }

  /** Whatever the table, a call makes an incident active beside another exactly when it revives one: it
      acknowledges a recovered incident, or stores an active row under the id of an inactive or absent one,
      while another incident of the pipeline the row ends up with is active. */
  lemma RevivesExactly(before: Table, call: Call, after: Table)
    requires Next(before, call, after)
    ensures Clash(before, after) <==> Revives(before, call)
  {
    hide Clash, Upsert;
    SameTableIsClean(before);
    match call
    case CreateOrUpdate(_, _, _, _) => ReportRevives(before, call, after);
    case Acknowledge(id) =>
      if id in before {
        UpsertClashes(before, id, before[id].(status := Acknowledged));
      }
    case Resolve(id, rate, now) =>
      if id in before {
        UpsertClashes(before, id, before[id].(status := Resolved, resolvedAt := Some(now),
                                              rate := if rate.Some? then rate.value else before[id].rate));
      }
    case Save(id, row) => UpsertClashes(before, id, row);
  }

  lemma SameTableIsClean(rows: Table)
    ensures !Clash(rows, rows)
  {
  }

  // ----- Whole runs -------------------------------------------------------------------------------

  ghost predicate Trace(states: seq<Table>, calls: seq<Call>)
  {
    |states| == |calls| + 1 && forall i :: 0 <= i < |calls| ==> Next(states[i], calls[i], states[i + 1])
  }

  /** In every serialized run, no pipeline ever has two active incidents exactly when no call revives an
      incident beside another. */
  lemma {:induction false} OneActiveExactly(states: seq<Table>, calls: seq<Call>, n: nat)
    requires Trace(states, calls) && n <= |calls| && AtMostOneActive(states[0])
    ensures (forall i :: 0 <= i <= n ==> AtMostOneActive(states[i])) <==>
              (forall i :: 0 <= i < n ==> !Revives(states[i], calls[i]))
  {
    hide Next, AtMostOneActive, Clash, Revives;
    if n > 0 {
      OneActiveExactly(states, calls, n - 1);
      RevivesExactly(states[n - 1], calls[n - 1], states[n]);
      if AtMostOneActive(states[n - 1]) {
        StepExactly(states[n - 1], calls[n - 1], states[n]);
      }
    }
  }

  /** A simple discipline: reports name no id and the day's counters are at most 9999; nobody acknowledges
      a recovered incident; a saved row exists and is not revived. */
  ghost predicate Disciplined(rows: Table, call: Call)
  {
    match call
    case CreateOrUpdate(_, explicit, date, _) => explicit == "" && Numbered(rows.Keys, Prefix(date))
    case Acknowledge(id) => id in rows ==> rows[id].status != Recovered
    case Resolve(_, _, _) => true
    case Save(id, row) => id in rows && (Active(row) ==> Active(rows[id]))
  }

  lemma DisciplinedDoesNotRevive(rows: Table, call: Call)
    requires Disciplined(rows, call)
    ensures !Revives(rows, call)
  {
    hide IsNextId, Numbered, Prefix, Active;
    if call.CreateOrUpdate? {
      forall id | IsNextId(rows.Keys, Prefix(call.date), id) ensures id !in rows {
        var m := NextIdIsFresh(rows.Keys, call.date, id);
      }
    }
  }

  /** Reports, acknowledgements, resolutions and remediation updates made with that discipline keep at
      most one active incident per pipeline, in runs of any length. */
  lemma {:induction false} AtMostOneActivePerPipeline(states: seq<Table>, calls: seq<Call>, n: nat)
    requires Trace(states, calls) && n <= |calls| && AtMostOneActive(states[0])
    requires forall i :: 0 <= i < |calls| ==> Disciplined(states[i], calls[i])
    ensures AtMostOneActive(states[n])
  {
    hide Next, Disciplined, Revives, AtMostOneActive;
    forall i | 0 <= i < n ensures !Revives(states[i], calls[i]) {
      DisciplinedDoesNotRevive(states[i], calls[i]);
    }
    OneActiveExactly(states, calls, n);
  }

  // ----- A resolved incident stays resolved -------------------------------------------------------

  lemma ResolvedStep(before: Table, call: Call, after: Table, id: string)
    requires Disciplined(before, call) && Next(before, call, after)
    requires id in before && before[id].status == Resolved && !(call.Save? && call.id == id)
    ensures id in after && after[id] == before[id]
  {
    hide IsNextId, Numbered, Prefix;
    if call.CreateOrUpdate? {
      var i, row :| ReportTouches(before, call, i, row) && after == Upsert(before, i, row);
      if NoneActive(before, call.report.pipelineName) {
        var m := NextIdIsFresh(before.Keys, call.date, i);
      }
    }
  }

  /** Once resolved, an incident is never changed again unless a remediation saves it anew. */
  lemma {:induction false} ResolvedIsFinal(states: seq<Table>, calls: seq<Call>, i: nat, j: nat, id: string)
    requires Trace(states, calls) && i <= j <= |calls|
    requires forall k :: 0 <= k < |calls| ==> Disciplined(states[k], calls[k]) && !(calls[k].Save? && calls[k].id == id)
    requires id in states[i] && states[i][id].status == Resolved
    ensures id in states[j] && states[j][id] == states[i][id]
  {
    hide Next, Disciplined;
    if i < j {
      ResolvedIsFinal(states, calls, i, j - 1, id);
      ResolvedStep(states[j - 1], calls[j - 1], states[j], id);
    }
  }

  /** The call stores a row that is not resolved under this id. */
  ghost predicate Reopens(rows: Table, call: Call, id: string)
  {
    match call
    case CreateOrUpdate(r, explicit, date, _) =>
      if explicit != "" then id == explicit
      else NoneActive(rows, r.pipelineName) && IsNextId(rows.Keys, Prefix(date), id)
    case Save(i, row) => i == id && row.status != Resolved
    case _ => false
  }

  lemma ReopensExactly(before: Table, call: Call, after: Table, id: string)
    requires Next(before, call, after) && id in before && before[id].status == Resolved
    ensures id in after && (after[id].status != Resolved <==> Reopens(before, call, id))
  {
    hide IsNextId, Prefix;
    if call.CreateOrUpdate? {
      var i, row :| ReportTouches(before, call, i, row) && after == Upsert(before, i, row);
      if call.explicit == "" && NoneActive(before, call.report.pipelineName) &&
         IsNextId(before.Keys, Prefix(call.date), id)
      {
        NextIdIsUnique(before.Keys, Prefix(call.date), i, id);
      }
    }
  }

  /** With no discipline at all: an incident resolved at point `i` of a run stays resolved exactly when no later
      call stores a report under its id, by name or because it is the next id, or saves it in another state. */
  lemma {:induction false} StaysResolvedExactly(states: seq<Table>, calls: seq<Call>, i: nat, n: nat, id: string)
    requires Trace(states, calls) && i <= n <= |calls|
    requires id in states[i] && states[i][id].status == Resolved
    ensures (forall k :: i <= k <= n ==> id in states[k] && states[k][id].status == Resolved)
       <==> (forall k :: i <= k < n ==> !Reopens(states[k], calls[k], id))
  {
    hide Next, Reopens;
    if i < n {
      StaysResolvedExactly(states, calls, i, n - 1, id);
      if forall k :: i <= k <= n - 1 ==> id in states[k] && states[k][id].status == Resolved {
        assert id in states[n - 1];
        ReopensExactly(states[n - 1], calls[n - 1], states[n], id);
      }
    }
  }

  // ----- The premises are needed ------------------------------------------------------------------

  /** Acknowledging a recovered incident revives it beside the pipeline's newer one. */
  lemma AcknowledgingRecoveredRevives(rows: Table, a: string, b: string)
    requires AtMostOneActive(rows) && a in rows && b in rows && rows[a].pipelineName == rows[b].pipelineName
    requires rows[a].status == Recovered && Active(rows[b])
    ensures forall after :: Next(rows, Acknowledge(a), after) ==> !AtMostOneActive(after)
  {
    forall after | Next(rows, Acknowledge(a), after) ensures !AtMostOneActive(after) {
      assert a in after && b in after && Active(after[a]) && Active(after[b]);
    }
  }

  /** And such a state is reached from an empty table by reporting, recovering and reporting again. */
  lemma RecoveredThenReported(r: Report, date: string)
    returns (states: seq<Table>, calls: seq<Call>, a: string, b: string)
    ensures Trace(states, calls) && |calls| == 3 && states[0] == map[] && AtMostOneActive(states[3])
    ensures a in states[3] && b in states[3] && states[3][a].pipelineName == states[3][b].pipelineName
    ensures states[3][a].status == Recovered && Active(states[3][b])
    ensures forall i :: 0 <= i < 3 ==> calls[i].CreateOrUpdate? || (calls[i].Save? && calls[i].row.status == Recovered)
  {
    hide Pad4, Prefix, IsNextId, NumberAfter;
    a, b := Prefix(date) + Pad4(1), Prefix(date) + Pad4(2);
    var row := NewIncident(r, 0);
    var done := row.(status := Recovered);
    states := [map[], map[a := row], map[a := done], map[a := done, b := row]];
    calls := [CreateOrUpdate(r, "", date, 0), Save(a, done), CreateOrUpdate(r, "", date, 0)];
    FirstTwoIds(date);
    var none: Table := map[];
    assert none.Keys == {} && states[2].Keys == {a};
    assert ReportTouches(states[0], calls[0], a, row);
    assert ReportTouches(states[2], calls[2], b, row);
    assert Next(states[0], calls[0], states[1]);
    assert Next(states[1], calls[1], states[2]);
    assert Next(states[2], calls[2], states[3]);
  }

  lemma FirstTwoIds(date: string)
    ensures var (a, b) := (Prefix(date) + Pad4(1), Prefix(date) + Pad4(2));
            a != b && IsNextId({}, Prefix(date), a) && IsNextId({a}, Prefix(date), b)
  {
    hide Pad4, Prefix, NumberAfter;
    var (a, b) := (Prefix(date) + Pad4(1), Prefix(date) + Pad4(2));
    if a == b {
      IdsDiffer(Prefix(date), 1, 2);
    }
    NumberAfterId(date, 1);
    IdsInOrder(Prefix(date), 1, 1);
    assert Prefix(date) <= a;
    assert Top({a}, Prefix(date), a);
  }

  /** A report of a pipeline without an active incident leaves it with one exactly when the generated id is
      new or already belongs to that pipeline: over another pipeline's id the report is misfiled. */
  lemma FiledExactly(rows: Table, after: Table, r: Report, date: string, now: int, id: string)
    requires NoneActive(rows, r.pipelineName) && IsNextId(rows.Keys, Prefix(date), id)
    requires Next(rows, CreateOrUpdate(r, "", date, now), after)
    ensures !NoneActive(after, r.pipelineName)
       <==> id !in rows || rows[id].pipelineName == r.pipelineName || rows[id].pipelineId == r.pipelineName
    ensures id in rows ==>
              && after.Keys == rows.Keys && after[id].status == Open && after[id].createdAt == rows[id].createdAt
              && after[id].pipelineName == rows[id].pipelineName
  {
    hide Prefix, IsNextId;
    var call := CreateOrUpdate(r, "", date, now);
    var i, row :| ReportTouches(rows, call, i, row) && after == Upsert(rows, i, row);
    NextIdIsUnique(rows.Keys, Prefix(date), i, id);
    assert Active(after[id]);
    assert forall o :: o in after && o != id ==> o in rows && after[o] == rows[o];
  }

  /** The report that follows a day's ten thousandth id is such a case: unless that id belongs to the
      pipeline, the pipeline gets no incident and the earlier incident is overwritten. */
  lemma OverflowMisfilesTheReport(rows: Table, after: Table, r: Report, date: string, now: int)
    requires rows.Keys == IdsUpTo(Prefix(date), 10000) && NoneActive(rows, r.pipelineName)
    requires Next(rows, CreateOrUpdate(r, "", date, now), after)
    ensures var last := Prefix(date) + Pad4(10000);
            && last in rows && after.Keys == rows.Keys
            && after[last].status == Open && after[last].createdAt == rows[last].createdAt
            && (!NoneActive(after, r.pipelineName) <==>
                r.pipelineName in {rows[last].pipelineName, rows[last].pipelineId})
  {
    hide Pad4, Prefix, IsNextId, NoneActive, Upsert;
    var call := CreateOrUpdate(r, "", date, now);
    var id, row :| ReportTouches(rows, call, id, row) && after == Upsert(rows, id, row);
    NextInRange(date, 10000, id);
    assert Prefix(date) + Pad4(10000) in IdsUpTo(Prefix(date), 10000);
    FiledExactly(rows, after, r, date, now, id);
  }
}
