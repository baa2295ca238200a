/** Compaction: read every row, write them back in fewer files, and retry when another commit got there
    first. Rows are a multiset: rewriting keeps no order. */
module Compaction {

  /** `appended` is everything writers ever committed. */
  datatype Lake<T> = Lake(rows: multiset<T>, version: nat, appended: multiset<T>)

  /** How the overwrite ends when no other commit intervened: cleanly; refused, as a conflict; or with any
      other error. An exception may come before or after the commit took effect. */
  datatype Reply = Clean | Refused(committed: bool) | Crashed(committed: bool)

  /** One attempt's surroundings: writers' commits before the refresh, between scan and overwrite, and
      before the row-count check; and what goes wrong. */
  datatype Round<T> = Round(early: seq<multiset<T>>, scanFails: bool, during: seq<multiset<T>>, reply: Reply,
                            late: seq<multiset<T>>, checkFails: bool)

  datatype End = Again | Stop | Empty | Done(records: nat)
  datatype CompactionResult = CompactionResult(success: bool, needed: bool, records: nat)

  function Arrive<T>(l: Lake<T>, batches: seq<multiset<T>>): Lake<T>
  {
    if batches == [] then l
    else
      var before := Arrive(l, batches[..|batches| - 1]);
      var batch := batches[|batches| - 1];
      Lake(before.rows + batch, before.version + 1, before.appended + batch)
  }

  /** The commit replaces what was read; `data` is what the scan returned. */
  function Overwritten<T>(l: Lake<T>, data: multiset<T>): Lake<T> { l.(rows := data, version := l.version + 1) }

  function Checked<T>(l: Lake<T>, data: multiset<T>, round: Round<T>): (Lake<T>, End)
  {
    var seen := Arrive(l, round.late);
    (seen, if round.checkFails || |seen.rows| != |data| then Stop else Done(|data|))
  }

  function RunRound<T>(l: Lake<T>, round: Round<T>): (Lake<T>, End)
  {
    var read := Arrive(l, round.early);
    if round.scanFails then (read, Stop)
    else if |read.rows| == 0 then (read, Empty)
    else
      var found := Arrive(read, round.during);
      if found.version != read.version then (found, Again)
      else
        match round.reply
        case Clean => Checked(Overwritten(found, read.rows), read.rows, round)
        case Refused(committed) => (if committed then Overwritten(found, read.rows) else found, Again)
        case Crashed(committed) => (if committed then Overwritten(found, read.rows) else found, Stop)
  }

  const FAILURE := CompactionResult(false, true, 0)

  /** The loop from attempt `i` on. */
  function Compact<T>(l: Lake<T>, world: nat -> Round<T>, retries: int, i: nat): (Lake<T>, CompactionResult)
    decreases retries - i
  {
    if i >= retries then (l, FAILURE)
    else
      var (after, end) := RunRound(l, world(i));
      match end
      case Again => Compact(after, world, retries, i + 1)
      case Stop => (after, FAILURE)
      case Empty => (after, CompactionResult(true, false, 0))
      case Done(records) => (after, CompactionResult(true, true, records))
  }

  /** The whole call; `files` is the number of files planned before the first attempt. */
  function Call<T>(l: Lake<T>, files: nat, minFileCount: int, retries: int,
                   world: nat -> Round<T>): (Lake<T>, CompactionResult)
  {
    if files < minFileCount then (l, CompactionResult(true, false, 0)) else Compact(l, world, retries, 0)
  }

  class Table<T(==)> {
    var rows: multiset<T>
    var version: nat
    ghost var appended: multiset<T>

    constructor ()
      ensures Model() == Lake(multiset{}, 0, multiset{})
    {
      rows, version, appended := multiset{}, 0, multiset{};
    }

    ghost function Model(): Lake<T>
      reads this
    {
      Lake(rows, version, appended)
    }

    method Append(batch: multiset<T>)
      modifies this
      ensures Model() == Lake(old(rows) + batch, old(version) + 1, old(appended) + batch)
    {
      rows, version, appended := rows + batch, version + 1, appended + batch;
    }

    /** Writers at work while somebody else waits. */
    method Interfere(batches: seq<multiset<T>>)
      modifies this
      ensures Model() == Arrive(old(Model()), batches)
    {
      for i := 0 to |batches|
        invariant Model() == Arrive(old(Model()), batches[..i])
      {
        assert batches[..i + 1][..i] == batches[..i];
        Append(batches[i]);
      }
      assert batches[..|batches|] == batches;
    }
  }

  class Compactor<T(==)> {
    const table: Table<T>

    constructor (table: Table<T>)
      ensures this.table == table
    {
      this.table := table;
    }

    /** Refresh, scan, overwrite against the version that was read, refresh and count. */
    method Attempt(round: Round<T>) returns (end: End)
      modifies table
      ensures (table.Model(), end) == RunRound(old(table.Model()), round)
    {
      hide Arrive;
      table.Interfere(round.early);
      if round.scanFails {
        return Stop;
      }
      var data, base := table.rows, table.version;
      if |data| == 0 {
        return Empty;
      }
      table.Interfere(round.during);
      if table.version != base {
        return Again;
      }
      if round.reply == Clean || round.reply.committed {
        table.rows, table.version := data, table.version + 1;
      }
      match round.reply
      case Refused(_) => return Again;
      case Crashed(_) => return Stop;
      case Clean =>
        table.Interfere(round.late);
        if round.checkFails || |table.rows| != |data| {
          return Stop;
        }
        return Done(|data|);
    }

    method CompactTable(files: nat, minFileCount: int, retries: int, world: nat -> Round<T>)
        returns (r: CompactionResult)
      modifies table
      ensures (table.Model(), r) == Call(old(table.Model()), files, minFileCount, retries, world)
    {
      hide RunRound;
      if files < minFileCount {
        return CompactionResult(true, false, 0);
      }
      var attempt := 0;
      while attempt < retries
        invariant 0 <= attempt
        invariant Compact(table.Model(), world, retries, attempt) == Compact(old(table.Model()), world, retries, 0)
        decreases retries - attempt
      {
        var end := Attempt(world(attempt));
        match end
        case Again => attempt := attempt + 1;
        case Stop => return FAILURE;
        case Empty => return CompactionResult(true, false, 0);
        case Done(records) => return CompactionResult(true, true, records);
      }
      return FAILURE;
    }
  }

  // ----- No row is lost or duplicated -------------------------------------------------------------

  /** The current rows are exactly the rows writers committed. */
  ghost predicate Conserved<T>(l: Lake<T>) { l.rows == l.appended }

  lemma {:induction false} ArriveConserves<T>(l: Lake<T>, batches: seq<multiset<T>>)
    requires Conserved(l)
    ensures Conserved(Arrive(l, batches)) && Arrive(l, batches).version == l.version + |batches|
  {
    if batches != [] {
      ArriveConserves(l, batches[..|batches| - 1]);
    }
  }

  lemma {:induction false} NothingArrives<T>(l: Lake<T>, batches: seq<multiset<T>>)
    ensures Arrive(l, batches).version == l.version + |batches|
    ensures Arrive(l, batches).version == l.version ==> Arrive(l, batches) == l
  {
    if batches != [] {
      NothingArrives(l, batches[..|batches| - 1]);
    }
  }

  lemma RoundConserves<T>(l: Lake<T>, round: Round<T>)
    requires Conserved(l)
    ensures Conserved(RunRound(l, round).0)
  {
    hide Arrive;
    var read := Arrive(l, round.early);
    ArriveConserves(l, round.early);
    ArriveConserves(read, round.during);
    NothingArrives(read, round.during);
    ArriveConserves(Overwritten(read, read.rows), round.late);
  }

  /** Whatever interferes and however the call ends, conflict, error, mismatch or success, no row is
      lost and none is duplicated. */
  lemma {:induction false} CompactionConserves<T>(l: Lake<T>, world: nat -> Round<T>, retries: int, i: nat)
    requires Conserved(l)
    ensures Conserved(Compact(l, world, retries, i).0)
    decreases retries - i
  {
    hide RunRound, Conserved;
    if i < retries {
      RoundConserves(l, world(i));
      if RunRound(l, world(i)).1.Again? {
        CompactionConserves(RunRound(l, world(i)).0, world, retries, i + 1);
      }
    }
  }

  lemma {:induction false} LoopCountsRows<T>(l: Lake<T>, world: nat -> Round<T>, retries: int, i: nat)
    ensures var (after, r) := Compact(l, world, retries, i);
            r.success ==> r.records == |after.rows| && (r.needed <==> |after.rows| > 0)
    decreases retries - i
  {
    hide Arrive;
    if i < retries && RunRound(l, world(i)).1.Again? {
      LoopCountsRows(RunRound(l, world(i)).0, world, retries, i + 1);
    }
  }

  /** A success says compaction was needed exactly when there were enough files and there are rows; it
      reports the number of rows of the table, unless too few files made it leave the rows unread. */
  lemma SuccessCountsRows<T>(l: Lake<T>, files: nat, minFileCount: int, retries: int, world: nat -> Round<T>)
    requires Call(l, files, minFileCount, retries, world).1.success
    ensures var (after, r) := Call(l, files, minFileCount, retries, world);
            && (r.needed <==> files >= minFileCount && |after.rows| > 0)
            && (r.records == |after.rows| <==> files >= minFileCount || |after.rows| == 0)
  {
    hide Compact;
    LoopCountsRows(l, world, retries, 0);
  }

  predicate Good(e: End) { e.Empty? || e.Done? }

  /** Up to attempt `k` every attempt met a conflict; `at` is the table attempt `k` finds. */
  ghost predicate Reaches<T>(l: Lake<T>, world: nat -> Round<T>, i: nat, k: nat, at: Lake<T>)
    decreases k - i
  {
    if k <= i then k == i && at == l
    else RunRound(l, world(i)).1.Again? && Reaches(RunRound(l, world(i)).0, world, i + 1, k, at)
  }

  /** The call succeeds exactly when some attempt within the limit, preceded by conflicts only, finds the
      table empty or passes its own row count. */
  lemma {:induction false} SucceedsExactly<T>(l: Lake<T>, world: nat -> Round<T>, retries: int, i: nat)
    ensures Compact(l, world, retries, i).1.success
       <==> exists k: nat, at :: k < retries && Reaches(l, world, i, k, at) && Good(RunRound(at, world(k)).1)
    decreases retries - i
  {
    hide RunRound;
    if i < retries {
      var (after, end) := RunRound(l, world(i));
      if end.Again? {
        SucceedsExactly(after, world, retries, i + 1);
        if Compact(l, world, retries, i).1.success {
          var k: nat, at :| k < retries && Reaches(after, world, i + 1, k, at) && Good(RunRound(at, world(k)).1);
          assert Reaches(l, world, i, k, at);
        }
      } else if end.Empty? || end.Done? {
        assert Reaches(l, world, i, i, l);
      }
    }
  }

  // ----- Success, read off what each attempt meets --------------------------------------------------

  /** Another commit got in between, or the catalog refuses the overwrite. */
  predicate MeetsConflict<T>(round: Round<T>) { !round.scanFails && (round.during != [] || round.reply.Refused?) }

  ghost predicate NoRows<T>(batches: seq<multiset<T>>) { forall b :: b in batches ==> |b| == 0 }

  /** Nothing goes wrong, and no row arrives between the overwrite and the row count. */
  ghost predicate GoesWell<T>(round: Round<T>)
  {
    && !round.scanFails && round.during == [] && round.reply.Clean?
    && !round.checkFails && NoRows(round.late)
  }

  lemma {:induction false} ArriveRows<T>(l: Lake<T>, batches: seq<multiset<T>>)
    ensures |Arrive(l, batches).rows| >= |l.rows|
    ensures |Arrive(l, batches).rows| == |l.rows| <==> NoRows(batches)
  {
    if batches != [] {
      var front, last := batches[..|batches| - 1], batches[|batches| - 1];
      ArriveRows(l, front);
      assert batches == front + [last];
      assert NoRows(batches) <==> NoRows(front) && |last| == 0;
    }
  }

  lemma RoundEnds<T>(l: Lake<T>, round: Round<T>)
    requires |Arrive(l, round.early).rows| > 0
    ensures RunRound(l, round).1.Again? <==> MeetsConflict(round)
    ensures RunRound(l, round).1.Done? <==> GoesWell(round)
    ensures !RunRound(l, round).1.Empty?
    ensures |RunRound(l, round).0.rows| > 0
  {
    hide Arrive, NoRows;
    var read := Arrive(l, round.early);
    NothingArrives(read, round.during);
    ArriveRows(read, round.during);
    ArriveRows(Overwritten(read, read.rows), round.late);
  }

  lemma EmptyRound<T>(l: Lake<T>, round: Round<T>)
    requires |Arrive(l, round.early).rows| == 0
    ensures RunRound(l, round) == (Arrive(l, round.early), if round.scanFails then Stop else Empty)
  {
  }

  /** Attempt `n` goes well and every attempt before it met a conflict. */
  ghost predicate WellAfterConflicts<T>(world: nat -> Round<T>, i: nat, n: nat)
  {
    i <= n && (forall k: nat :: i <= k < n ==> MeetsConflict(world(k))) && GoesWell(world(n))
  }

  ghost predicate SomeGoesWell<T>(world: nat -> Round<T>, retries: int, i: nat)
  {
    exists n: nat :: n < retries && WellAfterConflicts(world, i, n)
  }

  lemma WellStep<T>(world: nat -> Round<T>, retries: int, i: nat)
    requires i < retries
    ensures SomeGoesWell(world, retries, i)
       <==> GoesWell(world(i)) || (MeetsConflict(world(i)) && SomeGoesWell(world, retries, i + 1))
  {
    hide GoesWell, MeetsConflict;
    if SomeGoesWell(world, retries, i) {
      var n: nat :| n < retries && WellAfterConflicts(world, i, n);
      assert n > i ==> WellAfterConflicts(world, i + 1, n);
    }
    if GoesWell(world(i)) {
      assert WellAfterConflicts(world, i, i);
    }
    if MeetsConflict(world(i)) && SomeGoesWell(world, retries, i + 1) {
      var n: nat :| n < retries && WellAfterConflicts(world, i + 1, n);
      assert WellAfterConflicts(world, i, n);
    }
  }

  /** On a table with rows a call succeeds exactly when some attempt within the limit goes well after nothing
      but conflicts: every conflict is retried, and nothing else is. */
  lemma {:induction false} RetriesExactly<T>(l: Lake<T>, world: nat -> Round<T>, retries: int, i: nat)
    requires |l.rows| > 0
    ensures Compact(l, world, retries, i).1.success
       <==> SomeGoesWell(world, retries, i)
    ensures Compact(l, world, retries, i).1.success || Compact(l, world, retries, i).1 == FAILURE
    decreases retries - i
  {
    hide RunRound, GoesWell, MeetsConflict, SomeGoesWell;
    if i < retries {
      ArriveRows(l, world(i).early);
      RoundEnds(l, world(i));
      WellStep(world, retries, i);
      WellConflicts(world(i));
      if MeetsConflict(world(i)) {
        RetriesExactly(RunRound(l, world(i)).0, world, retries, i + 1);
      }
    } else {
      NoneWell(world, retries, i);
    }
  }

  lemma WellConflicts<T>(round: Round<T>)
    ensures !(GoesWell(round) && MeetsConflict(round))
  {
  }

  lemma NoneWell<T>(world: nat -> Round<T>, retries: int, i: nat)
    requires i >= retries
    ensures !SomeGoesWell(world, retries, i)
  {
  }

  /** A whole call, on any table, with or without rows: too few files end it successfully; so does an
      empty table that stays empty until the first scan; otherwise the attempts decide. */
  lemma CallSucceedsExactly<T>(l: Lake<T>, files: nat, minFileCount: int, retries: int, world: nat -> Round<T>)
    ensures Call(l, files, minFileCount, retries, world).1.success
       <==> || files < minFileCount
            || (retries >= 1 && |l.rows| == 0 && NoRows(world(0).early) && !world(0).scanFails)
            || SomeGoesWell(world, retries, 0)
    ensures files < minFileCount ==>
              Call(l, files, minFileCount, retries, world) == (l, CompactionResult(true, false, 0))
  {
    hide RunRound, GoesWell, MeetsConflict, SomeGoesWell, NoRows;
    if files >= minFileCount {
      if retries <= 0 {
        NoneWell(world, retries, 0);
      } else {
        ArriveRows(l, world(0).early);
        WellStep(world, retries, 0);
        if |Arrive(l, world(0).early).rows| == 0 {
          EmptyRound(l, world(0));
          ScansFirst(world(0));
        } else {
          RoundEnds(l, world(0));
          WellConflicts(world(0));
          if MeetsConflict(world(0)) {
            RetriesExactly(RunRound(l, world(0)).0, world, retries, 1);
          }
        }
      }
    }
  }

  lemma ScansFirst<T>(round: Round<T>)
    ensures round.scanFails ==> !GoesWell(round) && !MeetsConflict(round)
  {
  }

  /** The first attempt that meets no conflict is the last one made: what later attempts would have met does
      not matter. */
  lemma {:induction false} LaterAttemptsDoNotMatter<T>(l: Lake<T>, world: nat -> Round<T>, other: nat -> Round<T>,
                                                       retries: int, i: nat, n: nat)
    requires |l.rows| > 0 && i <= n && !MeetsConflict(world(n))
    requires forall k: nat :: i <= k <= n ==> world(k) == other(k)
    ensures Compact(l, world, retries, i) == Compact(l, other, retries, i)
    decreases n - i
  {
    hide RunRound, MeetsConflict;
    if i < retries {
      ArriveRows(l, world(i).early);
      RoundEnds(l, world(i));
      if i < n && MeetsConflict(world(i)) {
        LaterAttemptsDoNotMatter(RunRound(l, world(i)).0, world, other, retries, i + 1, n);
      }
    }
  }

  // ----- When a call rewrites the table -------------------------------------------------------------

  /** The attempt on table `at` replaces it: the scan returns rows, nobody commits before the overwrite, and
      the overwrite takes effect, whether or not it says so. */
  predicate Commits<T>(at: Lake<T>, round: Round<T>)
  {
    !round.scanFails && |Arrive(at, round.early).rows| > 0 && round.during == [] &&
    (round.reply.Clean? || round.reply.committed)
  }

  /** How many writers' commits fall into the attempt. */
  function Arrivals<T>(at: Lake<T>, round: Round<T>): nat
  {
    |round.early| +
    if round.scanFails || |Arrive(at, round.early).rows| == 0 then 0
    else |round.during| + if round.during == [] && round.reply.Clean? then |round.late| else 0
  }

  /** How many attempts of the call replace the table. */
  function Rewrites<T>(l: Lake<T>, world: nat -> Round<T>, retries: int, i: nat): nat
    decreases retries - i
  {
    if i >= retries then 0
    else
      var (after, end) := RunRound(l, world(i));
      (if Commits(l, world(i)) then 1 else 0) + if end.Again? then Rewrites(after, world, retries, i + 1) else 0
  }

  /** How many commits writers make during the call. */
  function CallArrivals<T>(l: Lake<T>, world: nat -> Round<T>, retries: int, i: nat): nat
    decreases retries - i
  {
    if i >= retries then 0
    else
      var (after, end) := RunRound(l, world(i));
      Arrivals(l, world(i)) + if end.Again? then CallArrivals(after, world, retries, i + 1) else 0
  }

  lemma RoundVersion<T>(l: Lake<T>, round: Round<T>)
    ensures RunRound(l, round).0.version ==
              l.version + Arrivals(l, round) + if Commits(l, round) then 1 else 0
  {
    hide Arrive;
    var read := Arrive(l, round.early);
    NothingArrives(l, round.early);
    NothingArrives(read, round.during);
    NothingArrives(Overwritten(read, read.rows), round.late);
  }

  /** The version counts every commit: the writers' and the call's own. */
  lemma {:induction false} VersionCounts<T>(l: Lake<T>, world: nat -> Round<T>, retries: int, i: nat)
    ensures Compact(l, world, retries, i).0.version ==
              l.version + CallArrivals(l, world, retries, i) + Rewrites(l, world, retries, i)
    decreases retries - i
  {
    hide RunRound, Commits, Arrivals;
    if i < retries {
      RoundVersion(l, world(i));
      if RunRound(l, world(i)).1.Again? {
        VersionCounts(RunRound(l, world(i)).0, world, retries, i + 1);
      }
    }
  }

  lemma {:induction false} RewritesExactly<T>(l: Lake<T>, world: nat -> Round<T>, retries: int, i: nat)
    ensures Rewrites(l, world, retries, i) == 0
       <==> forall k: nat, at :: k < retries && Reaches(l, world, i, k, at) ==> !Commits(at, world(k))
    decreases retries - i
  {
    hide RunRound, Commits;
    if i < retries {
      var (after, end) := RunRound(l, world(i));
      assert Reaches(l, world, i, i, l);
      if end.Again? {
        RewritesExactly(after, world, retries, i + 1);
        if k: nat, at :| k < retries && Reaches(after, world, i + 1, k, at) && Commits(at, world(k)) {
          assert Reaches(l, world, i, k, at);
        }
      }
    }
  }

  /** However a call ends, only the writers committed exactly when no attempt it reaches found rows, was
      undisturbed until its overwrite and saw that overwrite take effect. */
  lemma OnlyWritersCommittedExactly<T>(l: Lake<T>, world: nat -> Round<T>, retries: int)
    ensures Compact(l, world, retries, 0).0.version == l.version + CallArrivals(l, world, retries, 0)
       <==> forall k: nat, at :: k < retries && Reaches(l, world, 0, k, at) ==> !Commits(at, world(k))
  {
    VersionCounts(l, world, retries, 0);
    RewritesExactly(l, world, retries, 0);
  }

  /** A reported failure is no sign that nothing happened: it follows a committed rewrite exactly when no
      attempt the call reaches ends well, and some attempt it reaches commits. */
  lemma FailureRewroteExactly<T>(l: Lake<T>, world: nat -> Round<T>, retries: int)
    ensures !Compact(l, world, retries, 0).1.success &&
            Compact(l, world, retries, 0).0.version > l.version + CallArrivals(l, world, retries, 0)
       <==> (forall k: nat, at :: k < retries && Reaches(l, world, 0, k, at) ==> !Good(RunRound(at, world(k)).1)) &&
            exists k: nat, at :: k < retries && Reaches(l, world, 0, k, at) && Commits(at, world(k))
  {
    hide Compact, CallArrivals, Rewrites, Reaches, RunRound, Commits, Good;
    SucceedsExactly(l, world, retries, 0);
    VersionCounts(l, world, retries, 0);
    RewritesExactly(l, world, retries, 0);
  }

  /** For example, the rewrite committed and a later append made the row count differ. */
  lemma FailureAfterCommit<T>(x: T)
    ensures var l := Lake(multiset{x}, 0, multiset{x});
            var world := (i: nat) => Round([], false, [], Clean, [multiset{x}], false);
            Compact(l, world, 3, 0) == (Lake(multiset{x, x}, 2, multiset{x, x}), FAILURE)
  {
    var l := Lake(multiset{x}, 0, multiset{x});
    var round := Round([], false, [], Clean, [multiset{x}], false);
    assert Arrive(l, []) == l;
    assert [multiset{x}][..0] == [];
    var rewritten := Overwritten(l, l.rows);
    assert Arrive(rewritten, []) == rewritten;
    assert Arrive(rewritten, [multiset{x}]) == Lake(multiset{x, x}, 2, multiset{x, x});
    assert RunRound(l, round) == (Lake(multiset{x, x}, 2, multiset{x, x}), Stop);
  }

  // ----- Any number of compactors and writers -----------------------------------------------------

  datatype Reading<T> = Reading(version: nat, data: multiset<T>)
  datatype State<T> = State(lake: Lake<T>, readings: map<nat, Reading<T>>)
  datatype Action<T> = Append(batch: multiset<T>) | Read(c: nat) | Overwrite(c: nat)

  /** `swap` says whether the catalog compares the version before it replaces the table; a refused
      overwrite, like an overwrite by a compactor that read nothing, changes nothing. */
  function Step<T>(swap: bool, s: State<T>, a: Action<T>): State<T>
  {
    match a
    case Append(batch) => s.(lake := Lake(s.lake.rows + batch, s.lake.version + 1, s.lake.appended + batch))
    case Read(c) => s.(readings := s.readings[c := Reading(s.lake.version, s.lake.rows)])
    case Overwrite(c) =>
      if c in s.readings && (swap ==> s.readings[c].version == s.lake.version)
      then s.(lake := Overwritten(s.lake, s.readings[c].data)) else s
  }

  function Run<T>(swap: bool, actions: seq<Action<T>>, n: nat): State<T>
    requires n <= |actions|
  {
    if n == 0 then State(Lake(multiset{}, 0, multiset{}), map[])
        else Step(swap, Run(swap, actions, n - 1), actions[n - 1])
  }

  /** A reading of the current version is the current table. */
  ghost predicate Current<T>(s: State<T>)
  {
    && Conserved(s.lake)
    && forall c :: c in s.readings ==>
         s.readings[c].version <= s.lake.version &&
             (s.readings[c].version == s.lake.version ==> s.readings[c].data == s.lake.rows)
  }

  lemma StepCurrent<T>(s: State<T>, a: Action<T>)
    requires Current(s)
    ensures Current(Step(true, s, a))
  {
  }

  lemma {:induction false} ReadingsStayCurrent<T>(actions: seq<Action<T>>, n: nat)
    requires n <= |actions|
    ensures Current(Run(true, actions, n))
  {
    if n > 0 {
      hide Current, Step;
      ReadingsStayCurrent(actions, n - 1);
      StepCurrent(Run(true, actions, n - 1), actions[n - 1]);
    }
  }

  /** In every interleaving of compactors and writers under compare-and-swap commits, the rows are
      exactly those that were appended. */
  lemma InterleavingsConserve<T>(actions: seq<Action<T>>, n: nat)
    requires n <= |actions|
    ensures Run(true, actions, n).lake.rows == Run(true, actions, n).lake.appended
  {
    hide Run;
    ReadingsStayCurrent(actions, n);
  }

  // ----- A call is a run of the step system -------------------------------------------------------

  function RunFrom<T>(s: State<T>, actions: seq<Action<T>>, n: nat): State<T>
    requires n <= |actions|
  {
    if n == 0 then s else Step(true, RunFrom(s, actions, n - 1), actions[n - 1])
  }

  /** Some sequence of appends, reads and overwrites under compare-and-swap leads from `s` to `t`. */
  ghost predicate Leads<T(!new)>(s: State<T>, t: State<T>)
  {
    exists actions: seq<Action<T>> :: RunFrom(s, actions, |actions|) == t
  }

  lemma {:induction false} RunFromAppend<T>(s: State<T>, a: seq<Action<T>>, b: seq<Action<T>>, n: nat)
    requires n <= |b|
    ensures RunFrom(s, a + b, |a| + n) == RunFrom(RunFrom(s, a, |a|), b, n)
    decreases n
  {
    hide Step;
    if n > 0 {
      RunFromAppend(s, a, b, n - 1);
    } else {
      RunFromPrefix(s, a, b, |a|);
    }
  }

  lemma {:induction false} RunFromPrefix<T>(s: State<T>, a: seq<Action<T>>, b: seq<Action<T>>, n: nat)
    requires n <= |a|
    ensures RunFrom(s, a + b, n) == RunFrom(s, a, n)
  {
    hide Step;
    if n > 0 {
      RunFromPrefix(s, a, b, n - 1);
    }
  }

  lemma LeadsOn<T(!new)>(s: State<T>, t: State<T>, u: State<T>)
    requires Leads(s, t) && Leads(t, u)
    ensures Leads(s, u)
  {
    hide RunFrom;
    var a :| RunFrom(s, a, |a|) == t;
    var b :| RunFrom(t, b, |b|) == u;
    RunFromAppend(s, a, b, |b|);
    assert |a + b| == |a| + |b|;
  }

  lemma LeadsNowhere<T(!new)>(s: State<T>)
    ensures Leads(s, s)
  {
    var none: seq<Action<T>> := [];
    assert RunFrom(s, none, |none|) == s;
  }

  lemma LeadsStep<T(!new)>(s: State<T>, a: Action<T>)
    ensures Leads(s, Step(true, s, a))
  {
    hide Step;
    assert RunFrom(s, [a], 0) == s;
    assert RunFrom(s, [a], |[a]|) == Step(true, s, a);
  }

  lemma {:induction false} ArriveLeads<T(!new)>(s: State<T>, batches: seq<multiset<T>>)
    ensures Leads(s, s.(lake := Arrive(s.lake, batches)))
  {
    hide Leads;
    if batches == [] {
      LeadsNowhere(s);
    } else {
      var front, last := batches[..|batches| - 1], batches[|batches| - 1];
      ArriveLeads(s, front);
      var t := s.(lake := Arrive(s.lake, front));
      LeadsStep(t, Append(last));
      LeadsOn(s, t, Step(true, t, Append(last)));
    }
  }

  lemma RoundLeads<T(!new)>(s: State<T>, c: nat, round: Round<T>)
    ensures exists t :: Leads(s, t) && t.lake == RunRound(s.lake, round).0
  {
    hide Leads, Arrive;
    var early := s.(lake := Arrive(s.lake, round.early));
    ArriveLeads(s, round.early);
    var read := Step(true, early, Read(c));
    LeadsStep(early, Read(c));
    LeadsOn(s, early, read);
    var found := read.(lake := Arrive(read.lake, round.during));
    ArriveLeads(read, round.during);
    LeadsOn(s, read, found);
    var written := Step(true, found, Overwrite(c));
    LeadsStep(found, Overwrite(c));
    LeadsOn(s, found, written);
    var seen := written.(lake := Arrive(written.lake, round.late));
    ArriveLeads(written, round.late);
    LeadsOn(s, written, seen);
    var end := RunRound(s.lake, round).0;
    assert end == early.lake || end == found.lake || end == written.lake || end == seen.lake;
  }

  /** Whatever a call does to the table, reads, appends and overwrites of the step system do too. */
  lemma {:induction false} CompactIsARun<T(!new)>(s: State<T>, c: nat, world: nat -> Round<T>, retries: int, i: nat)
    ensures exists t :: Leads(s, t) && t.lake == Compact(s.lake, world, retries, i).0
    decreases retries - i
  {
    hide Leads, RunRound;
    if i >= retries {
      LeadsNowhere(s);
    } else {
      RoundLeads(s, c, world(i));
      var t :| Leads(s, t) && t.lake == RunRound(s.lake, world(i)).0;
      if RunRound(s.lake, world(i)).1.Again? {
        CompactIsARun(t, c, world, retries, i + 1);
        var u :| Leads(t, u) && u.lake == Compact(t.lake, world, retries, i + 1).0;
        LeadsOn(s, t, u);
      }
    }
  }

  /** Without the comparison an append between the read and the overwrite is lost. */
  lemma BlindOverwriteLosesRows<T>(x: T, y: T)
    ensures var actions := [Append(multiset{x}), Read(1), Append(multiset{y}), Overwrite(1)];
            Run(false, actions, 4).lake.rows == multiset{x} && Run(false, actions, 4).lake.appended == multiset{x, y}
  {
    var actions := [Append(multiset{x}), Read(1), Append(multiset{y}), Overwrite(1)];
    assert Run(false, actions, 0) == State(Lake(multiset{}, 0, multiset{}), map[]);
    assert Run(false, actions, 1).lake == Lake(multiset{x}, 1, multiset{x});
    assert Run(false, actions, 2).readings == map[1 := Reading(1, multiset{x})];
    assert Run(false, actions, 3).lake == Lake(multiset{x, y}, 2, multiset{x, y});
  }
}
