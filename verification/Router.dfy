/** Routing invalid events to quarantine: deterministic ids, a seen set and a single writer. */
module Router {
  import opened Wrappers
  import opened ErrorCodes
  import opened Quarantine

  datatype Event = Event(id: Option<string>, payload: string)
  datatype Item = Item(event: Event, results: seq<Outcome>, detectedAt: string)

  datatype Skip = NotSkipped | EventIsValid | DuplicateSkipped
  datatype RouteResult = RouteResult(record: Option<Record>, success: bool, failed: bool, skip: Skip)

  function FailedOf(results: seq<Outcome>): seq<Outcome>
  {
    if results == [] then []
    else
      var last := results[|results| - 1];
      FailedOf(results[..|results| - 1]) + if last.passed then [] else [last]
  }

  /** The id is the seed itself, standing for its hash. */
  function IdOf(version: string, event: Event, rules: seq<string>, detectedAt: string): string
  {
    (if event.id.Some? && event.id.value != "" then event.id.value else "none")
      + ":" + version + ":" + Join(rules, ",") + ":" + detectedAt
  }

  function RecordOf(version: string, item: Item): Record
  {
    var primary := DeterminePrimary(FailedOf(item.results));
    Record(IdOf(version, item.event, primary.rules, item.detectedAt), item.event.id, item.event.payload,
           primary.code, primary.message, primary.rules, item.detectedAt)
  }

  // ----- What a record says -------------------------------------------------------------------------

  predicate AllPassed(results: seq<Outcome>) { forall i :: 0 <= i < |results| ==> results[i].passed }

  /** Where the rule of this name failed. */
  function FailedAt(results: seq<Outcome>, name: string): set<nat>
  {
    set i: nat | i < |results| && !results[i].passed && results[i].rule == name
  }

  lemma FailedSnoc(front: seq<Outcome>, last: Outcome)
    ensures FailedOf(front + [last]) == if last.passed then FailedOf(front) else FailedOf(front) + [last]
    ensures FailedOf([]) == []
  {
    assert (front + [last])[..|front|] == front;
  }

  /** The failures are the results that did not pass, each as often as it occurs. */
  lemma {:induction false} FailedExactly(results: seq<Outcome>, r: Outcome)
    ensures multiset(FailedOf(results))[r] == if r.passed then 0 else multiset(results)[r]
  {
    hide FailedOf;
    if results == [] {
      FailedSnoc([], r);
    } else {
      var front, last := results[..|results| - 1], results[|results| - 1];
      assert results == front + [last];
      FailedSnoc(front, last);
      FailedExactly(front, r);
    }
  }

  lemma FailedAtSnoc(front: seq<Outcome>, o: Outcome, name: string)
    ensures |FailedAt(front + [o], name)| == |FailedAt(front, name)| + if !o.passed && o.rule == name then 1 else 0
  {
    var (all, before, n) := (FailedAt(front + [o], name), FailedAt(front, name), |front|);
    assert n !in before;
    forall i: nat ensures i in all <==> i in before || (i == n && !o.passed && o.rule == name) {
      assert i < n ==> (front + [o])[i] == front[i];
    }
    hide FailedAt;
    assert all == before + if !o.passed && o.rule == name then {n} else {};
  }

  lemma {:induction false} NamesOfFailed(results: seq<Outcome>, name: string)
    ensures multiset(Names(FailedOf(results)))[name] == |FailedAt(results, name)|
  {
    if results == [] {
      assert FailedAt(results, name) == {};
    } else {
      hide FailedAt;
      var front, last := results[..|results| - 1], results[|results| - 1];
      assert results == front + [last];
      NamesOfFailed(front, name);
      FailedAtSnoc(front, last, name);
      if !last.passed {
        assert Names(FailedOf(front) + [last]) == Names(FailedOf(front)) + [last.rule];
      } else {
        assert FailedOf(front) + [] == FailedOf(front);
      }
    }
  }

  /** The record keeps the event as it came, lists every rule that failed as often as it failed, and takes its code
      from a failure no other precedes. */
  ghost predicate Documents(item: Item, r: Record)
  {
    && r.eventId == item.event.id && r.event == item.event.payload && r.detectedAt == item.detectedAt
    && (forall name :: multiset(r.rules)[name] == |FailedAt(item.results, name)|)
    && exists p :: p in item.results && !p.passed && r.code == CodeFor(p.rule) &&
         forall o :: o in item.results && !o.passed ==> Precedes(p, o)
  }

  lemma RecordDocuments(version: string, item: Item)
    requires !AllPassed(item.results)
    ensures Documents(item, RecordOf(version, item))
  {
    hide FailedOf, FailedAt, DeterminePrimary, Precedes, CodeFor;
    var failed := FailedOf(item.results);
    FailedMembers(item.results);
    PrimaryIsWorst(failed);
    RulesAreTheFailed(failed);
    forall name ensures multiset(Names(failed))[name] == |FailedAt(item.results, name)| {
      NamesOfFailed(item.results, name);
    }
  }

  lemma FailedMembers(results: seq<Outcome>)
    ensures forall r :: r in FailedOf(results) <==> r in results && !r.passed
    ensures FailedOf(results) == [] <==> AllPassed(results)
  {
    hide FailedOf;
    forall r ensures r in FailedOf(results) <==> r in results && !r.passed {
      FailedExactly(results, r);
      assert r in multiset(FailedOf(results)) <==> r in FailedOf(results);
      assert r in multiset(results) <==> r in results;
    }
    if FailedOf(results) != [] {
      assert FailedOf(results)[0] in FailedOf(results);
    }
  }

  /** The result refuses the event exactly when every rule passed. Otherwise it has a record of it, is skipped exactly
      when the record's id was seen before, which counts as success, and else says whether it was written. */
  ghost predicate Honest(seen: set<string>, written: bool, item: Item, result: RouteResult)
  {
    if AllPassed(item.results) then
      result.skip == EventIsValid && result.record == None && !result.success && !result.failed
    else
      && result.record.Some? && Documents(item, result.record.value)
      && var again := result.record.value.id in seen;
         && result.skip == (if again then DuplicateSkipped else NotSkipped)
         && (result.success <==> again || written) && (result.failed <==> !again && !written)
  }

  function Ids(records: seq<Record>): seq<string> { seq(|records|, i requires 0 <= i < |records| => records[i].id) }

  // ----- What the router stores ---------------------------------------------------------------------

  /** One event routed by itself, or a batch, as the ids of its invalid events; whether the append reports
      success, and how many copies of what it appends it really leaves in the table. */
  datatype Op = One(id: string, ok: bool, copies: nat) | Batch(ids: seq<string>, ok: bool, copies: nat)

  /** The ids the router has seen, and those in the writer's buffer and table. */
  datatype Ledger = Ledger(seen: set<string>, buffer: seq<string>, table: seq<string>)

  function Unseen(seen: set<string>, ids: seq<string>): seq<string>
  {
    if ids == [] then []
    else
      Unseen(seen, ids[..|ids| - 1]) + if ids[|ids| - 1] in seen then [] else [ids[|ids| - 1]]
  }

  /** A single event flushes the writer's whole buffer with it; a batch bypasses the buffer. */
  function Step(s: Ledger, op: Op): Ledger
  {
    match op
    case One(id, ok, copies) =>
      if id in s.seen then s
      else
        var pending := s.buffer + [id];
        Ledger(if ok then s.seen + {id} else s.seen, if ok then [] else pending, s.table + Repeat(pending, copies))
    case Batch(ids, ok, copies) =>
      var unseen := Unseen(s.seen, ids);
      if unseen == [] then s
      else
        Ledger(if ok then s.seen + set i | 0 <= i < |unseen| :: unseen[i] else s.seen,
               s.buffer, s.table + Repeat(unseen, copies))
  }

  // ----- A batch ----------------------------------------------------------------------------------

  predicate IsFresh(version: string, seen: set<string>, item: Item)
  {
    FailedOf(item.results) != [] && RecordOf(version, item).id !in seen
  }

  /** The records of the batch that are written, in order, repeats included. */
  function FreshRecords(version: string, seen: set<string>, items: seq<Item>): seq<Record>
  {
    if items == [] then []
    else
      var front, last := items[..|items| - 1], items[|items| - 1];
      FreshRecords(version, seen, front) + (if IsFresh(version, seen, last) then [RecordOf(version, last)] else [])
  }

  /** The ids of the invalid events, in order. */
  function InvalidIds(version: string, items: seq<Item>): seq<string>
  {
    if items == [] then []
    else
      var last := items[|items| - 1];
      InvalidIds(version, items[..|items| - 1]) +
          (if FailedOf(last.results) == [] then [] else [RecordOf(version, last).id])
  }

  lemma IdsSnoc(a: seq<Record>, r: Record)
    ensures Ids(a + [r]) == Ids(a) + [r.id] && Ids(a + []) == Ids(a) && Ids([]) == []
  {
  }

  lemma {:induction false} FreshAreUnseen(version: string, seen: set<string>, items: seq<Item>)
    ensures Ids(FreshRecords(version, seen, items)) == Unseen(seen, InvalidIds(version, items))
  {
    hide RecordOf, FailedOf;
    if items != [] {
      var front, last := items[..|items| - 1], items[|items| - 1];
      FreshAreUnseen(version, seen, front);
      var ids, id := InvalidIds(version, front), RecordOf(version, last).id;
      assert (ids + [id])[..|ids|] == ids && (ids + [id])[|ids|] == id;
      assert ids + [] == ids && Unseen(seen, ids) + [] == Unseen(seen, ids);
      IdsSnoc(FreshRecords(version, seen, front), RecordOf(version, last));
    }
  }

  lemma IdsOf(records: seq<Record>)
    ensures (set r | r in records :: r.id) == set i | 0 <= i < |Ids(records)| :: Ids(records)[i]
  {
    forall r | r in records ensures exists i :: 0 <= i < |records| && Ids(records)[i] == r.id {
      var i :| 0 <= i < |records| && records[i] == r;
      assert Ids(records)[i] == r.id;
    }
  }

  lemma {:induction false} IdsRepeat(records: seq<Record>, copies: nat)
    ensures Ids(Repeat(records, copies)) == Repeat(Ids(records), copies)
  {
    if copies > 0 {
      IdsRepeat(records, copies - 1);
    }
  }

  lemma IdsAppend(a: seq<Record>, b: seq<Record>)
    ensures Ids(a + b) == Ids(a) + Ids(b)
  {
  }

  function BatchResult(version: string, seen: set<string>, item: Item, written: bool): RouteResult
  {
    if FailedOf(item.results) == [] then RouteResult(None, false, false, EventIsValid)
    else if !IsFresh(version, seen, item) then RouteResult(Some(RecordOf(version, item)), true, false, DuplicateSkipped)
    else RouteResult(Some(RecordOf(version, item)), written, !written, NotSkipped)
  }

  lemma ResultIsHonest(version: string, seen: set<string>, item: Item, written: bool)
    ensures Honest(seen, written, item, BatchResult(version, seen, item, written))
  {
    hide FailedOf, RecordOf, Documents;
    FailedMembers(item.results);
    if !AllPassed(item.results) {
      RecordDocuments(version, item);
    }
  }

  class QuarantineRouter {
    const version: string
    const writer: Writer
    var seen: set<string>

    constructor (version: string, writer: Writer)
      ensures this.version == version && this.writer == writer && seen == {}
    {
      this.version, this.writer, seen := version, writer, {};
    }

    ghost function Model(): Ledger
      reads this, writer
    {
      Ledger(seen, Ids(writer.buffer), Ids(writer.table))
    }

    method RouteInvalidEvent(item: Item, world: nat -> Attempt, now: int) returns (result: RouteResult)
      modifies this, writer
      ensures FailedOf(item.results) == [] ==>
                result == RouteResult(None, false, false, EventIsValid) && Model() == old(Model())
      ensures FailedOf(item.results) != [] ==>
                && result == BatchResult(version, old(seen), item, SomeCommits(world))
                && Model() == Step(old(Model()), One(RecordOf(version, item).id, SomeCommits(world), Copies(world, 0)))
      ensures Honest(old(seen), SomeCommits(world), item, result)
      ensures !CommitGoesUnseen(world, 0) ==>
                writer.table + writer.buffer == old(writer.table + writer.buffer)
                  + (if IsFresh(version, old(seen), item) then [RecordOf(version, item)] else [])
    {
      hide RecordOf, FailedOf, CommitsFrom, CommitGoesUnseen, Honest;
      ResultIsHonest(version, seen, item, SomeCommits(world));
      if FailedOf(item.results) == [] {
        return RouteResult(None, false, false, EventIsValid);
      }
      var record := RecordOf(version, item);
      if record.id in seen {
        return RouteResult(Some(record), true, false, DuplicateSkipped);
      }
      ghost var pending := writer.buffer + [record];
      IdsSnoc(writer.buffer, record);
      IdsAppend(writer.table, Repeat(pending, Copies(world, 0)));
      IdsRepeat(pending, Copies(world, 0));
      var ok := writer.WriteRecord(record, true, world, now);
      if ok {
        seen := seen + {record.id};
      }
      return RouteResult(Some(record), ok, !ok, NotSkipped);
    }

    /** Builds the records to write and a placeholder result for each of them. */
    method Prepare(items: seq<Item>) returns (toWrite: seq<Record>, results: seq<RouteResult>)
      ensures toWrite == FreshRecords(version, seen, items)
      ensures forall j :: 0 <= j < |items| ==>
                (IsFresh(version, seen, items[j]) ==> RecordOf(version, items[j]) in toWrite)
      ensures forall r :: r in toWrite ==> r.id !in seen
      ensures Settled(results, items, seen, 0, false)
    {
      hide RecordOf, FailedOf;
      toWrite, results := [], [];
      for i := 0 to |items|
        invariant toWrite == FreshRecords(version, seen, items[..i])
        invariant forall r :: r in toWrite ==> r.id !in seen
        invariant forall j :: 0 <= j < i ==>
                  (IsFresh(version, seen, items[j]) ==> RecordOf(version, items[j]) in toWrite)
        invariant Settled(results, items[..i], seen, 0, false)
      {
        assert items[..i + 1][..i] == items[..i];
        if FailedOf(items[i].results) == [] {
          results := results + [RouteResult(None, false, false, EventIsValid)];
        } else {
          var record := RecordOf(version, items[i]);
          if record.id in seen {
            results := results + [RouteResult(Some(record), true, false, DuplicateSkipped)];
          } else {
            toWrite := toWrite + [record];
            results := results + [RouteResult(Some(record), false, false, NotSkipped)];
          }
        }
      }
      assert items[..|items|] == items;
    }

    /** The first `n` results are final; the others are still placeholders. */
    ghost predicate Settled(results: seq<RouteResult>, items: seq<Item>, seenBefore: set<string>, n: nat, written: bool)
    {
      && |results| == |items|
      && forall j :: 0 <= j < |items| ==>
           results[j] == if j < n then BatchResult(version, seenBefore, items[j], written)
                         else BatchResult(version, seenBefore, items[j], false).(failed := false)
    }

    /** One append for the whole batch, then the placeholder results are settled in place. */
    method RouteBatch(items: seq<Item>, world: nat -> Attempt) returns (results: seq<RouteResult>)
      modifies this, writer
      ensures var writes := FreshRecords(version, old(seen), items);
              var written := writes == [] || SomeCommits(world);
              && |results| == |items|
              && (forall i :: 0 <= i < |items| ==> results[i] == BatchResult(version, old(seen), items[i], written))
              && (forall i :: 0 <= i < |items| ==> Honest(old(seen), written, items[i], results[i]))
              && writer.table == (if writes == [] then old(writer.table)
                                  else old(writer.table) + Repeat(writes, Copies(world, 0)))
      ensures Model() == Step(old(Model()), Batch(InvalidIds(version, items), SomeCommits(world), Copies(world, 0)))
    {
      hide RecordOf, FailedOf, FreshRecords, CommitsFrom, InvalidIds, Unseen, Repeat, Copies, Honest;
      forall i, written | 0 <= i < |items|
        ensures Honest(seen, written, items[i], BatchResult(version, seen, items[i], written))
      {
        ResultIsHonest(version, seen, items[i], written);
      }
      var toWrite;
      toWrite, results := Prepare(items);
      FreshAreUnseen(version, seen, items);
      if toWrite == [] {
        assert forall j :: 0 <= j < |items| ==> !IsFresh(version, seen, items[j]);
        return;
      }
      IdsOf(toWrite);
      IdsRepeat(toWrite, Copies(world, 0));
      IdsAppend(writer.table, Repeat(toWrite, Copies(world, 0)));
      var count, ok := writer.WriteBatch(toWrite, world);
      ghost var before := seen;
      if ok {
        seen := seen + set r | r in toWrite :: r.id;
      }
      results := Settle(items, toWrite, before, ok, results);
    }

    /** Flips the flags of the results whose record was written. */
    method Settle(items: seq<Item>, toWrite: seq<Record>, ghost before: set<string>, ok: bool,
                  placeholders: seq<RouteResult>)
        returns (results: seq<RouteResult>)
      requires Settled(placeholders, items, before, 0, ok)
      requires forall j :: 0 <= j < |items| ==>
                 (IsFresh(version, before, items[j]) ==> RecordOf(version, items[j]) in toWrite)
      requires forall r :: r in toWrite ==> r.id !in before
      ensures Settled(results, items, before, |items|, ok)
    {
      hide RecordOf, FailedOf;
      results := placeholders;
      for i := 0 to |results|
        invariant Settled(results, items, before, i, ok)
      {
        if results[i].record.Some? && results[i].record.value in toWrite {
          results := results[i := results[i].(success := ok, failed := !ok)];
        }
      }
    }
  }

  // ----- Runs ---------------------------------------------------------------------------------------

  function Run(ops: seq<Op>, n: nat): Ledger
    requires n <= |ops|
  {
    if n == 0 then Ledger({}, [], []) else Step(Run(ops, n - 1), ops[n - 1])
  }

  /** An append that reports success left at least one copy. */
  ghost predicate Truthful(ops: seq<Op>) { forall i :: 0 <= i < |ops| && ops[i].ok ==> ops[i].copies >= 1 }

  ghost predicate Distinct(xs: seq<string>) { forall i, j :: 0 <= i < j < |xs| ==> xs[i] != xs[j] }

  predicate Routes(op: Op, id: string)
  {
    match op case One(i, _, _) => i == id case Batch(ids, _, _) => id in ids
  }

  /** Routed and reported written. */
  ghost predicate SucceededBefore(ops: seq<Op>, n: nat, id: string)
    requires n <= |ops|
  {
    exists i :: 0 <= i < n && ops[i].ok && Routes(ops[i], id)
  }

  /** Kept somewhere: routed by itself, if only into the buffer, or in a batch that was committed. */
  ghost predicate StoredBefore(ops: seq<Op>, n: nat, id: string)
    requires n <= |ops|
  {
    exists i :: 0 <= i < n && (ops[i].One? || ops[i].copies >= 1) && Routes(ops[i], id)
  }

  /** A repeat: the id occurs in the batch at another position too. */
  predicate Repeated(ids: seq<string>, a: nat)
    requires a < |ids|
  {
    exists b :: 0 <= b < |ids| && b != a && ids[b] == ids[a]
  }

  /** What operation `k` must respect, judged by the operations before it. An id not yet written
      successfully must not be stored already, must not stand twice in a batch that commits, and no commit
      may go unseen. */
  ghost predicate Clean(ops: seq<Op>, k: nat)
    requires k < |ops|
  {
    match ops[k]
    case One(id, ok, copies) =>
      SucceededBefore(ops, k, id) || (!StoredBefore(ops, k, id) && copies == if ok then 1 else 0)
    case Batch(ids, _, copies) =>
      forall a :: 0 <= a < |ids| ==>
        || SucceededBefore(ops, k, ids[a])
        || copies == 0
        || (copies == 1 && !StoredBefore(ops, k, ids[a]) && !Repeated(ids, a))
  }

  function Count(s: Ledger, id: string): nat { multiset(s.table)[id] + multiset(s.buffer)[id] }

  ghost predicate AtMostOnce(s: Ledger) { forall id :: Count(s, id) <= 1 }

  lemma DistinctCounts(xs: seq<string>)
    ensures Distinct(xs) <==> forall x :: multiset(xs)[x] <= 1
  {
    forall i, j | 0 <= i < j < |xs| && xs[i] == xs[j] ensures multiset(xs)[xs[i]] >= 2 {
      assert xs == xs[..i] + [xs[i]] + xs[i + 1..j] + [xs[j]] + xs[j + 1..];
    }
    forall x | multiset(xs)[x] >= 2 ensures !Distinct(xs) {
      TwoPositions(xs, x);
    }
  }

  lemma {:induction false} TwoPositions(xs: seq<string>, x: string)
    requires multiset(xs)[x] >= 2
    ensures exists i, j :: 0 <= i < j < |xs| && xs[i] == xs[j] == x
  {
    var front := xs[..|xs| - 1];
    assert xs == front + [xs[|xs| - 1]];
    if xs[|xs| - 1] == x {
      assert x in multiset(front);
      var i :| 0 <= i < |front| && front[i] == x;
      assert xs[i] == xs[|xs| - 1] == x;
    } else {
      TwoPositions(front, x);
      var i, j :| 0 <= i < j < |front| && front[i] == front[j] == x;
      assert xs[i] == xs[j] == x;
    }
  }

  lemma {:induction false} UnseenExactly(seen: set<string>, ids: seq<string>, x: string)
    ensures multiset(Unseen(seen, ids))[x] == if x in seen then 0 else multiset(ids)[x]
    ensures x in Unseen(seen, ids) <==> x in ids && x !in seen
  {
    if ids != [] {
      UnseenExactly(seen, ids[..|ids| - 1], x);
      assert ids == ids[..|ids| - 1] + [ids[|ids| - 1]];
    }
  }

  /** An id is remembered exactly when a write of it reported success, and stored exactly when it was ever
      routed by itself or in a committed batch. */
  lemma {:induction false} SeenExactly(ops: seq<Op>, n: nat, id: string)
    requires n <= |ops| && Truthful(ops)
    ensures id in Run(ops, n).seen <==> SucceededBefore(ops, n, id)
    ensures Count(Run(ops, n), id) >= 1 <==> StoredBefore(ops, n, id)
  {
    hide Run, Step;
    if n == 0 {
      RunStart(ops);
    } else {
      SeenExactly(ops, n - 1, id);
      RunStep(ops, n);
      var (s, op) := (Run(ops, n - 1), ops[n - 1]);
      StepSeen(s, op, id);
      StepStored(s, op, id);
      assert SucceededBefore(ops, n, id) <==> SucceededBefore(ops, n - 1, id) || (op.ok && Routes(op, id));
      assert StoredBefore(ops, n, id) <==>
             StoredBefore(ops, n - 1, id) || ((op.One? || op.copies >= 1) && Routes(op, id));
      assert SucceededBefore(ops, n - 1, id) ==> StoredBefore(ops, n - 1, id) by {
        if i :| 0 <= i < n - 1 && ops[i].ok && Routes(ops[i], id) {
          assert ops[i].copies >= 1;
        }
      }
    }
  }

  lemma RunStart(ops: seq<Op>)
    ensures Run(ops, 0) == Ledger({}, [], [])
  {
  }

  lemma RunStep(ops: seq<Op>, n: nat)
    requires 0 < n <= |ops|
    ensures Run(ops, n) == Step(Run(ops, n - 1), ops[n - 1])
  {
  }

  lemma StepSeen(s: Ledger, op: Op, id: string)
    requires op.ok ==> op.copies >= 1
    ensures id in Step(s, op).seen <==> id in s.seen || (op.ok && Routes(op, id))
  {
    if op.Batch? {
      UnseenExactly(s.seen, op.ids, id);
      var unseen := Unseen(s.seen, op.ids);
      assert id in unseen <==> exists i :: 0 <= i < |unseen| && unseen[i] == id;
    }
  }

  /** How often an id is stored after a step. */
  lemma StepCounts(s: Ledger, op: Op, id: string)
    ensures var after := Step(s, op);
            match op
            case One(i, ok, copies) =>
              var pending := s.buffer + [i];
              if i in s.seen then after == s
              else Count(after, id) == multiset(s.table)[id] + multiset(Repeat(pending, copies))[id]
                                       + (if ok then 0 else multiset(pending)[id])
            case Batch(ids, _, copies) =>
              Count(after, id) == Count(s, id) + multiset(Repeat(Unseen(s.seen, ids), copies))[id]
  {
    if op.Batch? && Unseen(s.seen, op.ids) == [] {
      RepeatCounts(Unseen(s.seen, op.ids), op.copies, id);
    }
  }

  lemma StepStored(s: Ledger, op: Op, id: string)
    requires (op.ok ==> op.copies >= 1) && (id in s.seen ==> Count(s, id) >= 1)
    ensures Count(Step(s, op), id) >= Count(s, id)
    ensures Count(Step(s, op), id) >= 1 <==> Count(s, id) >= 1 || ((op.One? || op.copies >= 1) && Routes(op, id))
  {
    hide Step, Repeat, Unseen;
    StepCounts(s, op, id);
    match op
    case One(i, ok, copies) =>
      RepeatCounts(s.buffer + [i], copies, id);
      RepeatOnce(s.buffer + [i]);
    case Batch(ids, _, copies) =>
      RepeatCounts(Unseen(s.seen, ids), copies, id);
      RepeatOnce(Unseen(s.seen, ids));
      UnseenExactly(s.seen, ids, id);
  }

  /** `Clean`, with the state in place of the history. */
  ghost predicate CleanHere(s: Ledger, op: Op)
  {
    match op
    case One(id, ok, copies) => id in s.seen || (Count(s, id) == 0 && copies == if ok then 1 else 0)
    case Batch(ids, _, copies) =>
      forall a :: 0 <= a < |ids| ==>
        ids[a] in s.seen || copies == 0 || (copies == 1 && Count(s, ids[a]) == 0 && !Repeated(ids, a))
  }

  lemma OneClean(s: Ledger, id: string, ok: bool, copies: nat)
    requires AtMostOnce(s) && (ok ==> copies >= 1) && id !in s.seen
    ensures AtMostOnce(Step(s, One(id, ok, copies))) <==> CleanHere(s, One(id, ok, copies))
  {
    hide Step, Repeat;
    var (op, pending) := (One(id, ok, copies), s.buffer + [id]);
    RepeatOnce(pending);
    if CleanHere(s, op) {
      forall x ensures Count(Step(s, op), x) <= 1 {
        StepCounts(s, op, x);
        assert Count(s, x) <= 1;
      }
    } else {
      StepCounts(s, op, id);
      RepeatCounts(pending, copies, id);
      assert Count(Step(s, op), id) > 1;
    }
  }

  lemma BatchClean(s: Ledger, ids: seq<string>, ok: bool, copies: nat)
    requires AtMostOnce(s) && (ok ==> copies >= 1)
    ensures AtMostOnce(Step(s, Batch(ids, ok, copies))) <==> CleanHere(s, Batch(ids, ok, copies))
  {
    hide Step, Repeat, Unseen;
    var (op, unseen) := (Batch(ids, ok, copies), Unseen(s.seen, ids));
    RepeatOnce(unseen);
    if CleanHere(s, op) {
      forall x ensures Count(Step(s, op), x) <= 1 {
        StepCounts(s, op, x);
        UnseenExactly(s.seen, ids, x);
        RepeatCounts(unseen, copies, x);
        assert Count(s, x) <= 1;
        if multiset(ids)[x] >= 2 {
          TwiceIsRepeated(ids, x);
        }
        if x in ids {
          var i :| 0 <= i < |ids| && ids[i] == x;
        }
      }
    } else {
      var a :| 0 <= a < |ids| && ids[a] !in s.seen && copies != 0
               && (copies != 1 || Count(s, ids[a]) != 0 || Repeated(ids, a));
      StepCounts(s, op, ids[a]);
      UnseenExactly(s.seen, ids, ids[a]);
      RepeatCounts(unseen, copies, ids[a]);
      if Repeated(ids, a) {
        DistinctCounts(ids);
        RepeatedCounts(ids, a);
      }
      assert Count(Step(s, op), ids[a]) > 1;
    }
  }

  lemma TwiceIsRepeated(ids: seq<string>, x: string)
    requires multiset(ids)[x] >= 2
    ensures exists a :: 0 <= a < |ids| && ids[a] == x && Repeated(ids, a)
  {
    TwoPositions(ids, x);
    var i, j :| 0 <= i < j < |ids| && ids[i] == ids[j] == x;
    assert Repeated(ids, i);
  }

  lemma RepeatedCounts(ids: seq<string>, a: nat)
    requires a < |ids| && Repeated(ids, a)
    ensures multiset(ids)[ids[a]] >= 2
  {
    var b :| 0 <= b < |ids| && b != a && ids[b] == ids[a];
    var (before, after) := (ids[..a], ids[a + 1..]);
    assert ids == before + [ids[a]] + after;
    assert ids[a] in before + after by {
      assert if b < a then before[b] == ids[a] else after[b - a - 1] == ids[a];
    }
  }

  lemma StepClean(s: Ledger, op: Op)
    requires AtMostOnce(s) && (op.ok ==> op.copies >= 1)
    ensures AtMostOnce(Step(s, op)) <==> CleanHere(s, op)
  {
    hide AtMostOnce, Repeat, Unseen;
    match op
    case One(id, ok, copies) =>
      if id !in s.seen {
        OneClean(s, id, ok, copies);
      }
    case Batch(ids, ok, copies) => BatchClean(s, ids, ok, copies);
  }

  lemma CleanIsCleanHere(ops: seq<Op>, k: nat)
    requires k < |ops| && Truthful(ops)
    ensures Clean(ops, k) <==> CleanHere(Run(ops, k), ops[k])
  {
    hide Run, SucceededBefore, StoredBefore, Count, Repeated;
    match ops[k]
    case One(id, _, _) => SeenExactly(ops, k, id);
    case Batch(ids, _, _) =>
      forall a | 0 <= a < |ids|
        ensures ids[a] in Run(ops, k).seen <==> SucceededBefore(ops, k, ids[a])
        ensures Count(Run(ops, k), ids[a]) == 0 <==> !StoredBefore(ops, k, ids[a])
      {
        SeenExactly(ops, k, ids[a]);
      }
  }

  lemma StaysRepeated(s: Ledger, op: Op)
    requires !AtMostOnce(s) && (op.ok ==> op.copies >= 1) && forall id :: id in s.seen ==> Count(s, id) >= 1
    ensures !AtMostOnce(Step(s, op))
  {
    hide Step;
    var id :| Count(s, id) > 1;
    StepStored(s, op, id);
  }

  lemma SeenIsStored(ops: seq<Op>, n: nat)
    requires n <= |ops| && Truthful(ops)
    ensures forall id :: id in Run(ops, n).seen ==> Count(Run(ops, n), id) >= 1
  {
    hide Run, Count;
    forall id | id in Run(ops, n).seen ensures Count(Run(ops, n), id) >= 1 {
      SeenExactly(ops, n, id);
      var i :| 0 <= i < n && ops[i].ok && Routes(ops[i], id);
      assert ops[i].copies >= 1;
    }
  }

  lemma {:induction false} AtMostOnceExactly(ops: seq<Op>, n: nat)
    requires n <= |ops| && Truthful(ops)
    ensures AtMostOnce(Run(ops, n)) <==> forall k :: 0 <= k < n ==> Clean(ops, k)
  {
    hide Run, AtMostOnce, Clean, CleanHere;
    if n == 0 {
      RunStart(ops);
      NothingStored();
    } else {
      AtMostOnceExactly(ops, n - 1);
      RunStep(ops, n);
      CleanIsCleanHere(ops, n - 1);
      if AtMostOnce(Run(ops, n - 1)) {
        StepClean(Run(ops, n - 1), ops[n - 1]);
      } else {
        SeenIsStored(ops, n - 1);
        StaysRepeated(Run(ops, n - 1), ops[n - 1]);
      }
    }
  }

  lemma NothingStored()
    ensures AtMostOnce(Ledger({}, [], []))
  {
  }

  /** In every run that mixes single events and batches, each id is stored at most once, in the table or
      still in the buffer, exactly when every operation is clean: it stores no id that an earlier one
      stored, none twice, and no commit of its append goes unseen. */
  lemma StoredOnceExactly(ops: seq<Op>, n: nat)
    requires n <= |ops| && Truthful(ops)
    ensures Distinct(Run(ops, n).table + Run(ops, n).buffer) <==> forall k :: 0 <= k < n ==> Clean(ops, k)
  {
    hide Run, Clean, Distinct;
    var s := Run(ops, n);
    AtMostOnceExactly(ops, n);
    DistinctCounts(s.table + s.buffer);
    assert multiset(s.table + s.buffer) == multiset(s.table) + multiset(s.buffer);
    if AtMostOnce(s) {
      forall x ensures multiset(s.table + s.buffer)[x] <= 1 {
        assert Count(s, x) <= 1;
      }
    } else {
      var x :| Count(s, x) > 1;
      assert multiset(s.table + s.buffer)[x] > 1;
    }
  }

  /** For single events with truthful appends that is: no id is routed again after its first write failed. */
  lemma CleanSingles(ops: seq<Op>, n: nat)
    requires n <= |ops| && forall i :: 0 <= i < |ops| ==> ops[i].One? && ops[i].copies == if ops[i].ok then 1 else 0
    ensures (forall k :: 0 <= k < n ==> Clean(ops, k)) <==>
            forall i, j :: 0 <= i < j < n && ops[i].id == ops[j].id ==> SucceededBefore(ops, j, ops[j].id)
  {
    forall k | 0 <= k < n
      ensures Clean(ops, k) <==>
              ((exists i :: 0 <= i < k && ops[i].id == ops[k].id) ==> SucceededBefore(ops, k, ops[k].id))
    {
      assert StoredBefore(ops, k, ops[k].id) <==> exists i :: 0 <= i < k && ops[i].id == ops[k].id;
    }
    if forall i, j :: 0 <= i < j < n && ops[i].id == ops[j].id ==> SucceededBefore(ops, j, ops[j].id) {
      forall k | 0 <= k < n ensures Clean(ops, k) {
      }
    }
  }

  predicate HasFreshId(version: string, seen: set<string>, item: Item, id: string)
  {
    IsFresh(version, seen, item) && RecordOf(version, item).id == id
  }

  /** Two unseen events with one id. */
  predicate Alike(version: string, seen: set<string>, x: Item, y: Item)
  {
    IsFresh(version, seen, x) && HasFreshId(version, seen, y, RecordOf(version, x).id)
  }

  /** A batch checks its records only against earlier ones: what it stores is free of repeats exactly when
      no two of its unseen events have the same id. */
  lemma {:induction false} BatchStoresRepeats(version: string, seen: set<string>, items: seq<Item>)
    ensures Distinct(Ids(FreshRecords(version, seen, items)))
       <==> forall i, j :: 0 <= i < j < |items| ==> !Alike(version, seen, items[i], items[j])
  {
    hide RecordOf, FailedOf, Distinct;
    if items == [] {
      assert Ids(FreshRecords(version, seen, items)) == [];
      NoneDistinct();
    } else {
      var front, last := items[..|items| - 1], items[|items| - 1];
      BatchStoresRepeats(version, seen, front);
      var (records, r) := (FreshRecords(version, seen, front), RecordOf(version, last));
      FreshIdsExactly(version, seen, front, r.id);
      IdsSnoc(records, r);
      DistinctAppend(Ids(records), r.id);
      assert forall i :: 0 <= i < |front| ==> front[i] == items[i];
      assert forall i :: 0 <= i < |front| ==>
               (Alike(version, seen, items[i], last) <==>
                   IsFresh(version, seen, last) && HasFreshId(version, seen, front[i], r.id));
    }
  }

  lemma NoneDistinct()
    ensures Distinct([])
  {
  }

  lemma {:induction false} FreshIdsExactly(version: string, seen: set<string>, items: seq<Item>, id: string)
    ensures id in Ids(FreshRecords(version, seen, items))
       <==> exists i :: 0 <= i < |items| && HasFreshId(version, seen, items[i], id)
  {
    hide RecordOf, FailedOf;
    if items != [] {
      var front, last := items[..|items| - 1], items[|items| - 1];
      FreshIdsExactly(version, seen, front, id);
      assert forall i :: 0 <= i < |front| ==> front[i] == items[i];
      IdsSnoc(FreshRecords(version, seen, front), RecordOf(version, last));
      assert HasFreshId(version, seen, last, id) ==> HasFreshId(version, seen, items[|items| - 1], id);
    }
  }

  lemma DistinctAppend(xs: seq<string>, x: string)
    ensures Distinct(xs + [x]) <==> Distinct(xs) && x !in xs
  {
    var ys := xs + [x];
    assert forall i :: 0 <= i < |xs| ==> ys[i] == xs[i];
    if Distinct(ys) {
      assert ys[|xs|] == x;
      assert Distinct(xs);
    }
  }

  /** The batch is written in the order of its events: a fresh one's record comes after those of the fresh ones before
      it, and there is nothing else. */
  lemma {:induction false} WrittenInOrder(version: string, seen: set<string>, items: seq<Item>, i: nat)
    requires i < |items|
    ensures var rank := |FreshRecords(version, seen, items[..i])|;
            if IsFresh(version, seen, items[i]) then
              rank < |FreshRecords(version, seen, items)| &&
              FreshRecords(version, seen, items)[rank] == RecordOf(version, items[i])
            else |FreshRecords(version, seen, items[..i + 1])| == rank
  {
    hide RecordOf, IsFresh;
    assert items[..i + 1][..i] == items[..i];
    var front := items[..|items| - 1];
    if i < |front| {
      WrittenInOrder(version, seen, front, i);
      assert front[..i] == items[..i] && front[..i + 1] == items[..i + 1];
    } else {
      assert items[..i] == front && items[..i + 1] == items;
    }
  }

  // ----- Which events share an id -------------------------------------------------------------------

  function NameOf(event: Event): string
  {
    if event.id.Some? && event.id.value != "" then event.id.value else "none"
  }

  lemma CutAtFirst(a: string, b: string, x: string, y: string, mark: char)
    requires mark !in a && mark !in b && a + [mark] + x == b + [mark] + y
    ensures a == b && x == y
  {
    var whole := a + [mark] + x;
    assert whole[|a|] == mark && whole[|b|] == mark;
    assert forall i :: 0 <= i < |a| ==> whole[i] == a[i];
    assert forall i :: 0 <= i < |b| ==> whole[i] == b[i];
    assert |a| == |b|;
    assert whole[..|a|] == a && whole[..|b|] == b;
    assert whole[|a| + 1..] == x && whole[|b| + 1..] == y;
  }

  predicate Lacks(parts: seq<string>, mark: char) { forall i :: 0 <= i < |parts| ==> mark !in parts[i] }

  lemma {:induction false} JoinLacks(parts: seq<string>, mark: char)
    requires Lacks(parts, mark) && mark != ','
    ensures mark !in Join(parts, ",")
  {
    if |parts| > 1 {
      JoinLacks(parts[1..], mark);
    }
  }

  lemma JoinHasComma(parts: seq<string>)
    requires |parts| > 1
    ensures ',' in Join(parts, ",")
  {
    assert Join(parts, ",")[|parts[0]|] == ',';
  }

  lemma {:induction false} JoinInjective(a: seq<string>, b: seq<string>)
    requires a != [] && b != [] && Lacks(a, ',') && Lacks(b, ',') && Join(a, ",") == Join(b, ",")
    ensures a == b
  {
    if |a| > 1 && |b| > 1 {
      CutAtFirst(a[0], b[0], Join(a[1..], ","), Join(b[1..], ","), ',');
      JoinInjective(a[1..], b[1..]);
      assert a == [a[0]] + a[1..] && b == [b[0]] + b[1..];
    } else if |a| > 1 {
      JoinHasComma(a);
    } else if |b| > 1 {
      JoinHasComma(b);
    }
  }

  /** As long as event ids and rule names have no colon and rule names no comma, two events of one pipeline version
      share a quarantine id exactly when they agree in event id, failed rules and detection time; an event without an
      id counts as named "none". */
  lemma SharedIdExactly(version: string, e: Event, f: Event, a: seq<string>, b: seq<string>, at: string, bt: string)
    requires ':' !in NameOf(e) && ':' !in NameOf(f) && Lacks(a, ':') && Lacks(b, ':') && Lacks(a, ',') && Lacks(b, ',')
    requires a != [] && b != []
    ensures IdOf(version, e, a, at) == IdOf(version, f, b, bt) <==> NameOf(e) == NameOf(f) && a == b && at == bt
  {
    hide NameOf;
    var (ja, jb) := (Join(a, ","), Join(b, ","));
    var (resta, restb) := (version + ":" + (ja + ":" + at), version + ":" + (jb + ":" + bt));
    SeedOf(version, e, a, at);
    SeedOf(version, f, b, bt);
    if IdOf(version, e, a, at) == IdOf(version, f, b, bt) {
      CutAtFirst(NameOf(e), NameOf(f), resta, restb, ':');
      assert resta[|version| + 1..] == ja + ":" + at && restb[|version| + 1..] == jb + ":" + bt;
      JoinLacks(a, ':');
      JoinLacks(b, ':');
      CutAtFirst(ja, jb, at, bt, ':');
      JoinInjective(a, b);
    }
  }

  lemma SeedOf(version: string, e: Event, rules: seq<string>, at: string)
    ensures IdOf(version, e, rules, at) == NameOf(e) + ":" + (version + ":" + (Join(rules, ",") + ":" + at))
  {
    hide Join;
  }

  /** One name is the other followed by the version, on its own or with more after a colon. */
  predicate Extends(version: string, longer: string, shorter: string)
  {
    longer == shorter + ":" + version || shorter + ":" + version + ":" <= longer
  }

  /** The two events can get one quarantine id: for some failed rules and detection times they do. */
  ghost predicate CanShare(version: string, e: Event, f: Event)
  {
    exists a: seq<string>, b: seq<string>, at, bt ::
      a != [] && b != [] && Lacks(a, ':') && Lacks(b, ':') && IdOf(version, e, a, at) == IdOf(version, f, b, bt)
  }

  lemma CutAtSome(s: string, mark: char) returns (front: string, back: string)
    requires mark in s
    ensures s == front + [mark] + back && mark !in front
  {
    var i := 0;
    while s[i] != mark
      invariant 0 <= i < |s| && mark in s[i..]
      invariant mark !in s[..i]
      decreases |s| - i
    {
      i := i + 1;
    }
    front, back := s[..i], s[i + 1..];
  }

  lemma ExtendingShares(version: string, e: Event, f: Event)
    requires Extends(version, NameOf(e), NameOf(f))
    ensures CanShare(version, e, f) && CanShare(version, f, e)
  {
    hide NameOf;
    var (long, head) := (NameOf(e), NameOf(f) + ":" + version + ":");
    var seed := IdOf(version, e, ["r"], "");
    SeedOf(version, e, ["r"], "");
    var rest := RestAfter(version, long, NameOf(f));
    var rule, at := CutAtSome(rest, ':');
    SeedOf(version, f, [rule], at);
    SplitHead(NameOf(f), version, rule, at);
    hide Extends, Join;
    assert Lacks(["r"], ':') && Lacks([rule], ':');
    assert IdOf(version, e, ["r"], "") == IdOf(version, f, [rule], at);
  }

  lemma SplitHead(name: string, version: string, rule: string, at: string)
    ensures name + ":" + (version + ":" + (rule + ":" + at)) == name + ":" + version + ":" + (rule + ":" + at)
    ensures Join([rule], ",") == rule
  {
  }

  lemma RestAfter(version: string, longer: string, shorter: string) returns (rest: string)
    requires Extends(version, longer, shorter)
    ensures longer + ":" + (version + ":" + ("r" + ":" + "")) == shorter + ":" + version + ":" + rest && ':' in rest
  {
    var seed := longer + ":" + (version + ":" + ("r" + ":" + ""));
    var head := shorter + ":" + version + ":";
    if longer == shorter + ":" + version {
      rest := version + ":" + ("r" + ":" + "");
    } else {
      rest := longer[|head|..] + ":" + (version + ":" + ("r" + ":" + ""));
      assert longer == head + longer[|head|..];
    }
    assert rest[|rest| - 1] == ':';
  }

  lemma LongerExtends(version: string, longer: string, shorter: string, x: string, y: string)
    requires ':' !in version && |longer| > |shorter|
    requires longer + ":" + (version + ":" + x) == shorter + ":" + (version + ":" + y)
    ensures Extends(version, longer, shorter)
  {
    var whole := longer + ":" + (version + ":" + x);
    var head := shorter + ":" + version;
    assert whole == head + ":" + y;
    assert whole[|longer|] == ':' && whole[..|longer|] == longer;
    assert forall i :: |shorter| < i < |head| ==> whole[i] == version[i - |shorter| - 1];
    assert |longer| >= |head|;
    assert whole[..|head|] == head && whole[|head|] == ':';
    if |longer| > |head| {
      assert longer[..|head| + 1] == whole[..|head| + 1] == head + ":";
    }
  }

  lemma SameLengthHeads(a: string, b: string, x: string, y: string)
    requires a + ":" + x == b + ":" + y && |a| == |b|
    ensures a == b
  {
    assert (a + ":" + x)[..|a|] == a && (b + ":" + y)[..|b|] == b;
  }

  /** Colons inside ids matter in one way only: two events with different names can share a quarantine id exactly when
      one name is the other extended by the pipeline version. */
  lemma CollideExactly(version: string, e: Event, f: Event)
    requires ':' !in version && NameOf(e) != NameOf(f)
    ensures CanShare(version, e, f) <==>
              Extends(version, NameOf(e), NameOf(f)) || Extends(version, NameOf(f), NameOf(e))
  {
    hide NameOf, Extends;
    if CanShare(version, e, f) {
      var a: seq<string>, b: seq<string>, at, bt :| a != [] && b != [] && Lacks(a, ':') && Lacks(b, ':') &&
          IdOf(version, e, a, at) == IdOf(version, f, b, bt);
      SeedOf(version, e, a, at);
      SeedOf(version, f, b, bt);
      var (x, y) := (Join(a, ",") + ":" + at, Join(b, ",") + ":" + bt);
      if |NameOf(e)| > |NameOf(f)| {
        LongerExtends(version, NameOf(e), NameOf(f), x, y);
      } else if |NameOf(f)| > |NameOf(e)| {
        LongerExtends(version, NameOf(f), NameOf(e), y, x);
      } else {
        SameLengthHeads(NameOf(e), NameOf(f), version + ":" + x, version + ":" + y);
      }
    }
    if Extends(version, NameOf(e), NameOf(f)) {
      ExtendingShares(version, e, f);
    }
    if Extends(version, NameOf(f), NameOf(e)) {
      ExtendingShares(version, f, e);
    }
  }

  /** Permuting the failures of an event changes neither its id nor its error code. */
  lemma IdIgnoresEvaluationOrder(version: string, item: Item, permuted: Item)
    requires item.event == permuted.event && item.detectedAt == permuted.detectedAt
    requires multiset(FailedOf(item.results)) == multiset(FailedOf(permuted.results))
    ensures RecordOf(version, item).id == RecordOf(version, permuted).id
    ensures RecordOf(version, item).code == RecordOf(version, permuted).code
  {
    PrimaryIsCanonical(FailedOf(item.results), FailedOf(permuted.results));
  }
}
