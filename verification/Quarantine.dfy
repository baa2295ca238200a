/** The buffered quarantine writer: records are buffered under a lock, a flush copies the buffer,
    appends the copy without the lock, and then trims as many records as it wrote. */
module Quarantine {
  import opened Wrappers

  datatype Record = Record(id: string, eventId: Option<string>, event: string, code: string, message: string,
                           rules: seq<string>, detectedAt: string)

  /** What one attempt to append meets: the table cannot be loaded or created, the append fails, it commits
      but raises all the same, or it commits. */
  datatype Attempt = LoadFails | AppendFails | CommitsThenRaises | Commits

  const MAX_ATTEMPTS := 5

  predicate CommitsFrom(world: nat -> Attempt, i: nat)
  {
    exists k :: i <= k < MAX_ATTEMPTS && world(k) == Commits
  }

  /** Whether one of the attempts that are made commits and says so. */
  predicate SomeCommits(world: nat -> Attempt) { CommitsFrom(world, 0) }

  /** How many copies of the batch the attempts from `i` on leave in the table. */
  function Copies(world: nat -> Attempt, i: nat): nat
    decreases MAX_ATTEMPTS - i
  {
    if i >= MAX_ATTEMPTS then 0
    else
      match world(i)
      case Commits => 1
      case CommitsThenRaises => 1 + Copies(world, i + 1)
      case _ => Copies(world, i + 1)
  }

  /** An attempt that is made commits without saying so. */
  ghost predicate CommitGoesUnseen(world: nat -> Attempt, i: nat)
  {
    exists k :: i <= k < MAX_ATTEMPTS && world(k) == CommitsThenRaises && forall j :: i <= j < k ==> world(j) != Commits
  }

  class Writer {
    const batchSize: int
    const flushInterval: int
    var buffer: seq<Record>
    var lastFlush: int
    var appends: nat
    var table: seq<Record>

    constructor (batchSize: int, flushInterval: int, now: int)
      ensures this.batchSize == batchSize && this.flushInterval == flushInterval
      ensures buffer == table == [] && lastFlush == now && appends == 0
    {
      this.batchSize, this.flushInterval := batchSize, flushInterval;
      buffer, table, lastFlush, appends := [], [], now, 0;
    }

    /** Atomic appends, up to five, until one reports success; the buffer is not involved. */
    method WriteBatch(records: seq<Record>, world: nat -> Attempt) returns (count: nat, success: bool)
      modifies this`table, this`appends
      ensures success <==> records == [] || SomeCommits(world)
      ensures count == if success then |records| else 0
      ensures table == if records == [] then old(table) else old(table) + Repeat(records, Copies(world, 0))
      ensures appends == if success && records != [] then old(appends) + 1 else old(appends)
    {
      if records == [] {
        return 0, true;
      }
      ghost var copies := 0;
      for attempt := 0 to MAX_ATTEMPTS
        invariant table == old(table) + Repeat(records, copies) && appends == old(appends)
        invariant copies + Copies(world, attempt) == Copies(world, 0)
        invariant forall i :: 0 <= i < attempt ==> world(i) != Commits
      {
        if world(attempt) == Commits || world(attempt) == CommitsThenRaises {
          assert (old(table) + Repeat(records, copies)) + records == old(table) + (Repeat(records, copies) + records);
          RepeatSnoc(records, copies);
          table := table + records;
          copies := copies + 1;
        }
        if world(attempt) == Commits {
          appends := appends + 1;
          return |records|, true;
        }
      }
      return 0, false;
    }

    /** Unless a commit goes unseen, everything submitted is in the table or still in the buffer, once and
        in order, whether or not the write succeeded. */
    method Flush(world: nat -> Attempt, now: int) returns (count: nat, success: bool)
      modifies this
      ensures success <==> old(buffer) == [] || SomeCommits(world)
      ensures table == if old(buffer) == [] then old(table) else old(table) + Repeat(old(buffer), Copies(world, 0))
      ensures if success then buffer == [] && count == |old(buffer)| else buffer == old(buffer) && count == 0
      ensures !CommitGoesUnseen(world, 0) ==> table + buffer == old(table + buffer)
      ensures lastFlush == if success && old(buffer) != [] then now else old(lastFlush)
    {
      hide CommitsFrom, CommitGoesUnseen;
      if buffer == [] {
        return 0, true;
      }
      CopiesExactly(world, 0);
      RepeatOnce(buffer);
      var batch := buffer;
      count, success := WriteBatch(batch, world);
      if success {
        buffer := buffer[|batch|..];
        lastFlush := now;
      } else {
        count := 0;
      }
    }

    predicate FlushDue(immediate: bool, now: int)
      reads this
    {
      immediate || |buffer| + 1 >= batchSize || now - lastFlush >= flushInterval
    }

    method WriteRecord(record: Record, immediate: bool, world: nat -> Attempt, now: int) returns (success: bool)
      modifies this
      ensures success <==> !old(FlushDue(immediate, now)) || SomeCommits(world)
      ensures buffer == if old(FlushDue(immediate, now)) && success then [] else old(buffer) + [record]
      ensures table == if old(FlushDue(immediate, now)) then
                old(table) + Repeat(old(buffer) + [record], Copies(world, 0))
                       else old(table)
      ensures !CommitGoesUnseen(world, 0) ==> table + buffer == old(table + buffer) + [record]
      ensures success && batchSize >= 1 ==> |buffer| < batchSize
      ensures success && immediate ==> buffer == []
      ensures success && now - old(lastFlush) >= flushInterval ==> buffer == []
      ensures !immediate && |old(buffer)| + 1 < batchSize && now - old(lastFlush) < flushInterval ==>
                success && table == old(table) && lastFlush == old(lastFlush)
    {
      buffer := buffer + [record];
      assert table + buffer == old(table + buffer) + [record];
      if immediate || |buffer| >= batchSize || now - lastFlush >= flushInterval {
        var count;
        count, success := Flush(world, now);
        return;
      }
      return true;
    }

    method Close(world: nat -> Attempt, now: int) returns (count: nat, success: bool)
      modifies this
      ensures !CommitGoesUnseen(world, 0) ==> table + buffer == old(table + buffer)
      ensures success ==> buffer == []
    {
      count, success := Flush(world, now);
    }
  }

  /** The attempts, from `i` on, that are made and commit. */
  function Committing(world: nat -> Attempt, i: nat): set<nat>
  {
    set k: nat |
      i <= k < 5 && world(k) in {Commits, CommitsThenRaises} && forall j :: i <= j < k ==> world(j) != Commits
  }

  /** There is one copy for each attempt, of at most five, that is made and commits; the first that says so
      ends them. */
  lemma {:induction false} OneCopyPerCommit(world: nat -> Attempt, i: nat)
    ensures Copies(world, i) == |Committing(world, i)|
    decreases MAX_ATTEMPTS - i
  {
    if i >= MAX_ATTEMPTS {
      assert Committing(world, i) == {};
    } else {
      OneCopyPerCommit(world, i + 1);
      CommittingStep(world, i);
      assert i !in Committing(world, i + 1);
    }
  }

  lemma CommittingStep(world: nat -> Attempt, i: nat)
    requires i < 5
    ensures Committing(world, i)
         == match world(i)
            case Commits => {i}
            case CommitsThenRaises => {i} + Committing(world, i + 1)
            case _ => Committing(world, i + 1)
  {
    forall k: nat | k > i
      ensures k in Committing(world, i) <==> world(i) != Commits && k in Committing(world, i + 1)
    {
    }
  }

  /** A batch is written exactly once on success and not at all on failure, if and only if no commit it
      reaches goes unseen. */
  lemma {:induction false} CopiesExactly(world: nat -> Attempt, i: nat)
    requires i <= MAX_ATTEMPTS
    ensures Copies(world, i) == (if CommitsFrom(world, i) then 1 else 0) <==> !CommitGoesUnseen(world, i)
    ensures CommitsFrom(world, i) ==> Copies(world, i) >= 1
    decreases MAX_ATTEMPTS - i
  {
    if i < MAX_ATTEMPTS {
      CopiesExactly(world, i + 1);
      if world(i) != Commits && CommitGoesUnseen(world, i + 1) {
        var k :| i + 1 <= k < MAX_ATTEMPTS && world(k) == CommitsThenRaises &&
                 forall j :: i + 1 <= j < k ==> world(j) != Commits;
        assert CommitGoesUnseen(world, i);
      }
    }
  }
}
