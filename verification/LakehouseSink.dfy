/** Appending remediated events to the lakehouse table, with an optimistic retry loop. */
module LakehouseSink {
  import opened Reprocessor
  import opened Wrappers

  datatype Column = Column(name: string, kind: string)
  type Row = map<string, Value>

  /** One attempt: the append fails; it commits but it or the refresh after it raises; it commits and is
      refreshed but the snapshot lookup raises; or all goes well. */
  datatype Attempt = Fails | CommitsThenRaises | LookupRaises | Commits

  /** `prepared` covers loading or creating the table, refreshing it and converting the events;
      `refreshed(i)` is the refresh in the handler of failed attempt `i`. */
  datatype World = World(prepared: bool, attempt: nat -> Attempt, refreshed: nat -> bool)

  datatype IngestionResult = IngestionResult(written: nat, success: bool)

  predicate Distinct(schema: seq<Column>) { forall i, j :: 0 <= i < j < |schema| ==> schema[i].name != schema[j].name }

  // ----- Normalization ----------------------------------------------------------------------------

  /** `convert` turns a value into one of the column's kind; it sees the current time, which stands in for a
      timestamp that does not parse. */
  function Cell(convert: (string, Value, Value) -> Value, c: Column, e: Event, now: Value): Value
  {
    if c.name in e && e[c.name] != Null then convert(c.kind, e[c.name], now)
    else if c.name == "ingestion_time" then now
    else Null
  }

  /** What the table holds for one field of an event: the converted value if there is one, the current time for
      a missing ingestion time, and null for anything else that is missing. */
  ghost predicate Carries(convert: (string, Value, Value) -> Value, c: Column, e: Event, now: Value, v: Value)
  {
    && (c.name in e && e[c.name] != Null ==> v == convert(c.kind, e[c.name], now))
    && (c.name !in e || e[c.name] == Null ==> v == if c.name == "ingestion_time" then now else Null)
  }

  /** The row is the event's: one field for every column and no other, each carrying the event's value. */
  ghost predicate IsRowOf(convert: (string, Value, Value) -> Value, schema: seq<Column>, e: Event, now: Value, row: Row)
  {
    && (forall j :: 0 <= j < |schema| ==> schema[j].name in row)
    && (forall name :: name in row ==> exists j :: 0 <= j < |schema| && schema[j].name == name)
    && (forall j :: 0 <= j < |schema| ==> Carries(convert, schema[j], e, now, row[schema[j].name]))
  }

  /** The schema projection of one event. */
  function Projection(convert: (string, Value, Value) -> Value, schema: seq<Column>, e: Event, now: Value): Row
    requires Distinct(schema)
  {
    map i | 0 <= i < |schema| :: schema[i].name := Cell(convert, schema[i], e, now)
  }

  lemma CellExactly(convert: (string, Value, Value) -> Value, c: Column, e: Event, now: Value, v: Value)
    ensures v == Cell(convert, c, e, now) <==> Carries(convert, c, e, now, v)
  {
  }

  lemma ProjectionCells(convert: (string, Value, Value) -> Value, schema: seq<Column>, e: Event, now: Value)
    requires Distinct(schema)
    ensures var p := Projection(convert, schema, e, now);
            && (forall j :: 0 <= j < |schema| ==>
                 schema[j].name in p && p[schema[j].name] == Cell(convert, schema[j], e, now))
            && (forall name :: name in p ==> exists j :: 0 <= j < |schema| && schema[j].name == name)
  {
    hide Cell;
  }

  /** The projection of an event is the one row that is the event's. */
  lemma ProjectionExactly(convert: (string, Value, Value) -> Value, schema: seq<Column>, e: Event, now: Value, row: Row)
    requires Distinct(schema)
    ensures row == Projection(convert, schema, e, now) <==> IsRowOf(convert, schema, e, now, row)
  {
    hide Cell, Carries, Projection, Distinct;
    ProjectionCells(convert, schema, e, now);
    var p := Projection(convert, schema, e, now);
    forall j, v | 0 <= j < |schema|
      ensures v == Cell(convert, schema[j], e, now) <==> Carries(convert, schema[j], e, now, v)
    {
      CellExactly(convert, schema[j], e, now, v);
    }
    if IsRowOf(convert, schema, e, now, row) {
      forall name | name in row ensures name in p && row[name] == p[name] {
        var j :| 0 <= j < |schema| && schema[j].name == name;
      }
      assert forall name :: name in p ==> name in row;
    }
  }

  /** When values need no conversion, the event's own fields can be read back from its row. */
  lemma FieldsAreRecovered(convert: (string, Value, Value) -> Value, schema: seq<Column>, e: Event, now: Value, j: nat)
    requires Distinct(schema) && forall kind, v :: convert(kind, v, now) == v
    requires j < |schema| && schema[j].name in e && e[schema[j].name] != Null
    ensures schema[j].name in Projection(convert, schema, e, now)
    ensures Projection(convert, schema, e, now)[schema[j].name] == e[schema[j].name]
  {
    hide Projection, Distinct;
    var p := Projection(convert, schema, e, now);
    ProjectionExactly(convert, schema, e, now, p);
    assert Carries(convert, schema[j], e, now, p[schema[j].name]);
  }

  function Projections(convert: (string, Value, Value) -> Value, schema: seq<Column>, events: seq<Event>,
                       now: Value): seq<Row>
    requires Distinct(schema)
  {
    seq(|events|, i requires 0 <= i < |events| => Projection(convert, schema, events[i], now))
  }

  /** There is a column for every field, and no other. */
  ghost predicate Keyed(schema: seq<Column>, data: map<string, seq<Value>>)
  {
    && (forall j :: 0 <= j < |schema| ==> schema[j].name in data)
    && (forall name :: name in data ==> exists j :: 0 <= j < |schema| && schema[j].name == name)
  }

  /** The column holds the cells of the first `n` events. */
  ghost predicate Filled(convert: (string, Value, Value) -> Value, c: Column, events: seq<Event>, now: Value,
                         column: seq<Value>, n: nat)
    requires n <= |events|
  {
    |column| == n && forall i :: 0 <= i < n ==> column[i] == Cell(convert, c, events[i], now)
  }

  /** One event's cells, appended field by field. */
  method AppendEvent(convert: (string, Value, Value) -> Value, schema: seq<Column>, e: Event, now: Value,
                     data: map<string, seq<Value>>)
      returns (longer: map<string, seq<Value>>)
    requires Distinct(schema) && Keyed(schema, data)
    ensures Keyed(schema, longer)
    ensures forall j :: 0 <= j < |schema| ==>
              longer[schema[j].name] == data[schema[j].name] + [Cell(convert, schema[j], e, now)]
  {
    hide Cell;
    longer := data;
    for k := 0 to |schema|
      invariant longer.Keys == data.Keys
      invariant forall j :: 0 <= j < k ==>
                longer[schema[j].name] == data[schema[j].name] + [Cell(convert, schema[j], e, now)]
      invariant forall j :: k <= j < |schema| ==> longer[schema[j].name] == data[schema[j].name]
    {
      var name := schema[k].name;
      longer := longer[name := longer[name] + [Cell(convert, schema[k], e, now)]];
    }
  }

  /** The columns, filled event by event and field by field. They are rectangular, and each cell is the
      field of its event. */
  method NormalizeEventsForSchema(convert: (string, Value, Value) -> Value, schema: seq<Column>, events: seq<Event>,
                                  now: Value)
      returns (data: map<string, seq<Value>>)
    requires Distinct(schema)
    ensures Keyed(schema, data)
    ensures forall j :: 0 <= j < |schema| ==> Filled(convert, schema[j], events, now, data[schema[j].name], |events|)
    ensures forall j, i :: 0 <= j < |schema| && 0 <= i < |events| ==>
              |data[schema[j].name]| == |events| && Carries(convert, schema[j], events[i], now, data[schema[j].name][i])
  {
    hide Cell, Distinct;
    data := map i | 0 <= i < |schema| :: schema[i].name := [];
    assert Keyed(schema, data);
    for n := 0 to |events|
      invariant Keyed(schema, data)
      invariant forall j :: 0 <= j < |schema| ==> Filled(convert, schema[j], events, now, data[schema[j].name], n)
    {
      ghost var before := data;
      data := AppendEvent(convert, schema, events[n], now, data);
      forall j | 0 <= j < |schema|
        ensures Filled(convert, schema[j], events, now, data[schema[j].name], n + 1)
      {
        FilledFurther(convert, schema[j], events, now, before[schema[j].name], n);
      }
    }
    forall j, i | 0 <= j < |schema| && 0 <= i < |events|
      ensures Carries(convert, schema[j], events[i], now, data[schema[j].name][i])
    {
      CellExactly(convert, schema[j], events[i], now, data[schema[j].name][i]);
      assert Filled(convert, schema[j], events, now, data[schema[j].name], |events|);
    }
  }

  lemma FilledFurther(convert: (string, Value, Value) -> Value, c: Column, events: seq<Event>, now: Value,
                      column: seq<Value>, n: nat)
    requires n < |events| && Filled(convert, c, events, now, column, n)
    ensures Filled(convert, c, events, now, column + [Cell(convert, c, events[n], now)], n + 1)
  {
  }

  function Transposed(data: map<string, seq<Value>>, n: nat): seq<Row>
    requires forall name :: name in data ==> |data[name]| == n
  {
    seq(n, i requires 0 <= i < n => map name | name in data :: data[name][i])
  }

  lemma TransposedRow(convert: (string, Value, Value) -> Value, schema: seq<Column>, events: seq<Event>, now: Value,
                      data: map<string, seq<Value>>, i: nat)
    requires Distinct(schema) && i < |events| && Keyed(schema, data)
    requires forall j :: 0 <= j < |schema| ==> Filled(convert, schema[j], events, now, data[schema[j].name], |events|)
    ensures forall name :: name in data ==> |data[name]| == |events|
    ensures (map name | name in data :: data[name][i]) == Projection(convert, schema, events[i], now)
  {
    hide Cell;
    var row := Projection(convert, schema, events[i], now);
    forall name | name in data
      ensures |data[name]| == |events| && name in row && row[name] == data[name][i]
    {
      var j :| 0 <= j < |schema| && schema[j].name == name;
      assert Filled(convert, schema[j], events, now, data[schema[j].name], |events|);
    }
    assert forall name :: name in row ==> name in data;
  }

  /** Columns outside the schema, the provenance keys among them, do not reach the table. */
  lemma ProvenanceIsDropped(convert: (string, Value, Value) -> Value, schema: seq<Column>, e: Event, now: Value,
                            incident: string, attempt: int)
    requires Distinct(schema)
    requires forall i :: 0 <= i < |schema| ==> schema[i].name != INCIDENT_KEY && schema[i].name != ATTEMPT_KEY
    ensures Projection(convert, schema, Tagged(e, incident, attempt), now) == Projection(convert, schema, e, now)
  {
    hide INCIDENT_KEY, ATTEMPT_KEY;
    var tagged := Tagged(e, incident, attempt);
    forall i | 0 <= i < |schema|
      ensures Cell(convert, schema[i], tagged, now) == Cell(convert, schema[i], e, now)
    {
    }
  }

  // ----- Delivery ---------------------------------------------------------------------------------

  datatype Delivery = Delivery(commits: nat, success: bool)

  predicate CommitsAt(w: World, i: nat) { w.attempt(i) != Fails }

  /** What the loop does from attempt `i` on. */
  function Deliver(w: World, maxRetries: int, i: nat): Delivery
    decreases maxRetries - i
  {
    if i >= maxRetries then Delivery(0, true)
    else
      var here := if CommitsAt(w, i) then 1 else 0;
      match w.attempt(i)
      case Commits => Delivery(1, true)
      case LookupRaises => Delivery(1, i + 1 < maxRetries && w.refreshed(i))
      case _ =>
        if i + 1 >= maxRetries || !w.refreshed(i) then Delivery(here, false)
        else
          var rest := Deliver(w, maxRetries, i + 1);
          Delivery(here + rest.commits, rest.success)
  }

  /** What a call to write the events makes of the table. */
  function Delivered(w: World, maxRetries: int, events: seq<Event>): Delivery
  {
    if events == [] then Delivery(0, true)
    else if !w.prepared then Delivery(0, false)
    else Deliver(w, maxRetries, 0)
  }

  class IcebergLakehouseSink {
    const maxRetries: int
    const schema: seq<Column>
    const convert: (string, Value, Value) -> Value
    var table: seq<Row>

    constructor (maxRetries: int, schema: seq<Column>, convert: (string, Value, Value) -> Value)
      ensures this.maxRetries == maxRetries && this.schema == schema && this.convert == convert && table == []
    {
      this.maxRetries, this.schema, this.convert, table := maxRetries, schema, convert, [];
    }

    method WriteEvents(events: seq<Event>, w: World, now: Value) returns (r: IngestionResult)
      requires Distinct(schema)
      modifies this
      ensures var d := Delivered(w, maxRetries, events);
              && table == old(table) + Repeat(Projections(convert, schema, events, now), d.commits)
              && r == IngestionResult(if d.success then |events| else 0, d.success)
      ensures events == [] ==> r == IngestionResult(0, true) && table == old(table)
      ensures events != [] && !w.prepared ==> r == IngestionResult(0, false) && table == old(table)
    {
      hide Cell, Projection;
      if events == [] {
        return IngestionResult(0, true);
      }
      if !w.prepared {
        return IngestionResult(0, false);
      }
      var data := NormalizeEventsForSchema(convert, schema, events, now);
      forall i | 0 <= i < |events|
        ensures forall name :: name in data ==> |data[name]| == |events|
        ensures (map name | name in data :: data[name][i]) == Projection(convert, schema, events[i], now)
      {
        TransposedRow(convert, schema, events, now, data, i);
      }
      assert forall name :: name in data ==> |data[name]| == |events| by { assert 0 <= 0 < |events|; }
      var rows := Transposed(data, |events|);
      assert rows == Projections(convert, schema, events, now);
      r := Append(rows, w);
    }

    /** The loop: an exception before the last attempt leads to a refresh and another try, unless the
        rows are already known to be committed. */
    method Append(rows: seq<Row>, w: World) returns (r: IngestionResult)
      modifies this
      ensures var d := Deliver(w, maxRetries, 0);
              && table == old(table) + Repeat(rows, d.commits)
              && r == IngestionResult(if d.success then |rows| else 0, d.success)
    {
      var attempts, committed := 0, false;
      ghost var commits := 0;
      while attempts < maxRetries && !committed
        invariant 0 <= attempts && (attempts <= maxRetries || maxRetries < 0)
        invariant table == old(table) + Repeat(rows, commits)
        invariant committed ==> Deliver(w, maxRetries, 0) == Delivery(commits, true)
        invariant !committed ==>
                    Deliver(w, maxRetries, 0) == Delivery(commits + Deliver(w, maxRetries, attempts).commits,
                                                         Deliver(w, maxRetries, attempts).success)
        decreases maxRetries - attempts, !committed
      {
        var i := attempts;
        attempts := attempts + 1;
        var raised := true;
        if w.attempt(i) != Fails {
          assert (old(table) + Repeat(rows, commits)) + rows == old(table) + (Repeat(rows, commits) + rows);
          RepeatSnoc(rows, commits);
          table := table + rows;
          commits := commits + 1;
          if w.attempt(i) != CommitsThenRaises {
            committed := true;
            raised := w.attempt(i) == LookupRaises;
          }
        }
        if raised {
          if attempts < maxRetries {
            if !w.refreshed(i) {
              return IngestionResult(0, false);
            }
          } else {
            return IngestionResult(0, false);
          }
        }
      }
      return IngestionResult(|rows|, true);
    }
  }

  /** With at least one attempt allowed, success means one to `maxRetries` commits. */
  lemma {:induction false} SuccessMeansCommitted(w: World, maxRetries: int, i: nat)
    requires i < maxRetries
    ensures Deliver(w, maxRetries, i).commits <= maxRetries - i
    ensures Deliver(w, maxRetries, i).success ==> Deliver(w, maxRetries, i).commits >= 1
    decreases maxRetries - i
  {
    if i + 1 < maxRetries {
      SuccessMeansCommitted(w, maxRetries, i + 1);
    }
  }

  /** The loop gets as far as attempt `k`: each one before it raised and was refreshed. */
  ghost predicate Reached(w: World, maxRetries: int, i: nat, k: nat)
  {
    i <= k < maxRetries && forall j :: i <= j < k ==> w.attempt(j) in {Fails, CommitsThenRaises} && w.refreshed(j)
  }

  /** Some attempt the loop reaches commits and then raises. */
  ghost predicate CommitGoesUnseen(w: World, maxRetries: int, i: nat)
  {
    exists k :: Reached(w, maxRetries, i, k) && w.attempt(k) == CommitsThenRaises
  }

  lemma UnseenStep(w: World, maxRetries: int, i: nat)
    requires i < maxRetries
    ensures CommitGoesUnseen(w, maxRetries, i) <==>
              w.attempt(i) == CommitsThenRaises ||
              (w.attempt(i) == Fails && w.refreshed(i) && CommitGoesUnseen(w, maxRetries, i + 1))
  {
    if w.attempt(i) == CommitsThenRaises {
      assert Reached(w, maxRetries, i, i);
    } else if CommitGoesUnseen(w, maxRetries, i) {
      var k :| Reached(w, maxRetries, i, k) && w.attempt(k) == CommitsThenRaises;
      assert k != i;
      assert Reached(w, maxRetries, i + 1, k);
    } else if w.attempt(i) == Fails && w.refreshed(i) && CommitGoesUnseen(w, maxRetries, i + 1) {
      var k :| Reached(w, maxRetries, i + 1, k) && w.attempt(k) == CommitsThenRaises;
      assert Reached(w, maxRetries, i, k);
    }
  }

  /** A success wrote every row exactly once if and only if no committed attempt was mistaken for a
      failed one. */
  lemma {:induction false} ExactlyOnceExactly(w: World, maxRetries: int, i: nat)
    requires i < maxRetries && Deliver(w, maxRetries, i).success
    ensures Deliver(w, maxRetries, i).commits == 1 <==> !CommitGoesUnseen(w, maxRetries, i)
    decreases maxRetries - i
  {
    hide CommitGoesUnseen;
    UnseenStep(w, maxRetries, i);
    SuccessMeansCommitted(w, maxRetries, i);
    if i + 1 < maxRetries {
      SuccessMeansCommitted(w, maxRetries, i + 1);
      if w.attempt(i) == Fails {
        ExactlyOnceExactly(w, maxRetries, i + 1);
      }
    }
  }

  lemma ReachedStep(w: World, maxRetries: int, i: nat, k: nat)
    requires i < maxRetries
    ensures Reached(w, maxRetries, i, k) <==>
              k == i || (w.attempt(i) in {Fails, CommitsThenRaises} && w.refreshed(i) &&
                  Reached(w, maxRetries, i + 1, k))
  {
  }

  /** The attempt commits and says so, or commits and fails only in looking up the snapshot, with an attempt to
      spare and a refresh that goes through. */
  predicate EndsWell(w: World, maxRetries: int, k: nat)
  {
    w.attempt(k) == Commits || (w.attempt(k) == LookupRaises && k + 1 < maxRetries && w.refreshed(k))
  }

  /** With attempts allowed, a call succeeds exactly when some attempt it reaches ends well: every failed attempt but
      the last is retried as long as the table can be refreshed. */
  lemma {:induction false} DeliversExactly(w: World, maxRetries: int, i: nat)
    requires i < maxRetries
    ensures Deliver(w, maxRetries, i).success
       <==> exists k: nat :: Reached(w, maxRetries, i, k) && EndsWell(w, maxRetries, k)
    decreases maxRetries - i
  {
    hide Reached;
    forall k: nat
      ensures Reached(w, maxRetries, i, k) <==>
                k == i || (w.attempt(i) in {Fails, CommitsThenRaises} && w.refreshed(i) &&
                    Reached(w, maxRetries, i + 1, k))
    {
      ReachedStep(w, maxRetries, i, k);
    }
    assert Reached(w, maxRetries, i, i);
    if i + 1 < maxRetries {
      if w.attempt(i) in {Fails, CommitsThenRaises} && w.refreshed(i) {
        DeliversExactly(w, maxRetries, i + 1);
      }
    } else {
      NoneReached(w, maxRetries, i + 1);
    }
  }

  /** A reported failure committed nothing if and only if every attempt it reached failed; otherwise it
      left at least one whole copy of the rows. */
  lemma {:induction false} FailureMayHaveCommitted(w: World, maxRetries: int, i: nat)
    requires i < maxRetries && !Deliver(w, maxRetries, i).success
    ensures Deliver(w, maxRetries, i).commits == 0 <==>
              forall k :: Reached(w, maxRetries, i, k) ==> w.attempt(k) == Fails
    decreases maxRetries - i
  {
    hide Reached;
    forall k: nat
      ensures Reached(w, maxRetries, i, k) <==>
                k == i || (w.attempt(i) in {Fails, CommitsThenRaises} && w.refreshed(i) &&
                    Reached(w, maxRetries, i + 1, k))
    {
      ReachedStep(w, maxRetries, i, k);
    }
    assert Reached(w, maxRetries, i, i);
    if i + 1 < maxRetries {
      if w.attempt(i) in {Fails, CommitsThenRaises} && w.refreshed(i) {
        FailureMayHaveCommitted(w, maxRetries, i + 1);
      }
    } else {
      NoneReached(w, maxRetries, i + 1);
    }
  }

  lemma NoneReached(w: World, maxRetries: int, i: nat)
    requires i >= maxRetries
    ensures forall k: nat :: !Reached(w, maxRetries, i, k)
  {
  }

  /** With no attempt allowed the sink reports success and writes nothing. */
  lemma NoRetriesNoRows(w: World, maxRetries: int, events: seq<Event>)
    requires w.prepared && events != []
    ensures Delivered(w, maxRetries, events) == Delivery(0, true) <==> maxRetries <= 0
  {
    if maxRetries > 0 {
      SuccessMeansCommitted(w, maxRetries, 0);
    }
  }
}
