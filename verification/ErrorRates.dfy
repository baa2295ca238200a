/** The error-rate engine: one window aggregator per configured size, a persisted fallback and a
    health classification. */
module ErrorRates {
  import opened Wrappers
  import opened Windows

  datatype Health = Healthy | Warning | Critical
  datatype Config = Config(healthyMax: real, warningMax: real)

  /** A persisted count row; a missing timestamp counts as fresh. */
  datatype Row = Row(total: int, valid: int, failed: int, updatedAt: Option<int>)

  /** `Raised` is one of the engine's own invariant errors. */
  datatype Outcome = Raised | Measured(total: int, valid: int, failed: int, rate: real, health: Health)

  predicate ValidConfig(c: Config) { 0.0 <= c.healthyMax < c.warningMax <= 1.0 }

  function Classify(c: Config, rate: real): Health
  {
    if rate < c.healthyMax then Healthy else if rate <= c.warningMax then Warning else Critical
  }

  predicate ConsistentRow(row: Row) { row.valid >= 0 && row.failed >= 0 && row.valid + row.failed == row.total }

  ghost predicate Consistent(rows: map<int, Row>) { forall w :: w in rows ==> ConsistentRow(rows[w]) }

  predicate Fresh(row: Row, windowSeconds: int, now: int)
  {
    row.updatedAt.None? || now - row.updatedAt.value <= windowSeconds * SECOND
  }

  /** What happens to the engine: an outcome is recorded at clock time `at`, with or without a flush
      after it, or one window is measured as of time `at`. */
  datatype Op = Record(outcome: Rec, at: int, flushed: bool) | Measure(windowSeconds: int, at: int)

  /** The effect on the deque of the window of size `w`. */
  function Step(w: int, records: seq<Rec>, op: Op): seq<Rec>
  {
    match op
    case Record(outcome, at, flushed) =>
      if flushed then Live(records + [outcome], Cutoff(at, w)) else records + [outcome]
    case Measure(windowSeconds, at) =>
      if windowSeconds == w then Live(records, Cutoff(at, w)) else records
  }

  /** The persisted row that replaces an empty local window, if any. */
  function Fallback(local: nat, total: nat, ref: Option<int>, rows: map<int, Row>, readable: bool, w: int,
                    now: int): Option<Row>
  {
    if local == 0 && total == 0 && ref.None? && readable && w in rows && rows[w].total > 0 && Fresh(rows[w], w, now)
    then Some(rows[w]) else None
  }

  class ErrorRateEngine {
    const config: Config
    const flushInterval: int
    var aggregators: map<int, WindowAggregator>
    var sinceFlush: nat
    var local: nat
    var lastHealth: map<int, Health>
    var rows: map<int, Row>

    ghost predicate Valid()
      reads this, aggregators.Values
    {
      ValidConfig(config) && forall w :: w in aggregators ==> aggregators[w].windowSeconds == w
    }

    constructor (config: Config, windows: seq<int>, flushInterval: int, rows: map<int, Row>)
      requires ValidConfig(config)
      ensures Valid() && this.config == config && this.flushInterval == flushInterval && this.rows == rows
      ensures forall w :: w in aggregators <==> w in windows
      ensures forall w :: w in aggregators ==> fresh(aggregators[w]) && aggregators[w].records == []
      ensures sinceFlush == local == 0 && lastHealth == map[]
    {
      this.config, this.flushInterval, this.rows := config, flushInterval, rows;
      aggregators, sinceFlush, local, lastHealth := map[], 0, 0, map[];
      new;
      for i := 0 to |windows|
        invariant Valid() && this.config == config && this.flushInterval == flushInterval && this.rows == rows
        invariant sinceFlush == local == 0 && lastHealth == map[]
        invariant forall w :: w in aggregators <==> w in windows[..i]
        invariant forall w :: w in aggregators ==> fresh(aggregators[w]) && aggregators[w].records == []
      {
        var aggregator := new WindowAggregator(windows[i]);
        aggregators := aggregators[windows[i] := aggregator];
      }
      assert windows[..|windows|] == windows;
    }

    /** One window's share of a flush: evict, count, save; `saved` says whether the save succeeds. */
    method FlushWindow(aggregator: WindowAggregator, now: int, saved: bool)
      modifies this`rows, aggregator
      ensures aggregator.records == Live(old(aggregator.records), Cutoff(now, aggregator.windowSeconds))
      ensures var kept := aggregator.records;
              rows == if !saved then old(rows)
                      else old(rows)[aggregator.windowSeconds :=
                                     Row(|kept|, CountValid(kept), |kept| - CountValid(kept), Some(now))]
      ensures saved ==> var row := rows[aggregator.windowSeconds];
                && row.valid == |Positions(aggregator.records, true)|
                && row.failed == |Positions(aggregator.records, false)|
      ensures old(Consistent(rows)) ==> Consistent(rows)
    {
      hide Live, CountValid, Positions;
      var m := aggregator.GetMetrics(now);
      if saved {
        rows := rows[aggregator.windowSeconds := Row(m.valid + m.invalid, m.valid, m.invalid, Some(now))];
      }
    }

    /** Evicts every window, and saves the counts of those whose save succeeds. */
    method FlushEventCounts(now: int, saved: int -> bool)
      requires Valid()
      modifies this`rows, this`sinceFlush, aggregators.Values
      ensures sinceFlush == 0
      ensures forall w :: w in aggregators ==>
                aggregators[w].records == Live(old(aggregators[w].records), Cutoff(now, w))
      ensures old(Consistent(rows)) ==> Consistent(rows)
    {
      hide Live, Consistent;
      sinceFlush := 0;
      var rest := aggregators.Values;
      while rest != {}
        invariant rest <= aggregators.Values
        invariant forall w :: w in aggregators && aggregators[w] in rest ==>
                  aggregators[w].records == old(aggregators[w].records)
        invariant forall w :: w in aggregators && aggregators[w] !in rest ==>
                    aggregators[w].records == Live(old(aggregators[w].records), Cutoff(now, w))
        invariant old(Consistent(rows)) ==> Consistent(rows)
        modifies this`rows, aggregators.Values
        decreases rest
      {
        var aggregator :| aggregator in rest;
        FlushWindow(aggregator, now, saved(aggregator.windowSeconds));
        rest := rest - {aggregator};
      }
    }

    method RecordEventOutcome(valid: bool, time: int, now: int, saved: int -> bool)
      requires Valid()
      modifies this`rows, this`sinceFlush, this`local, aggregators.Values
      ensures local == old(local) + 1
      ensures var due := old(sinceFlush) + 1 >= flushInterval;
              && sinceFlush == (if due then 0 else old(sinceFlush) + 1)
              && forall w :: w in aggregators ==>
                   aggregators[w].records == Step(w, old(aggregators[w].records), Record(Rec(time, valid), now, due))
      ensures old(Consistent(rows)) ==> Consistent(rows)
    {
      hide Live, Consistent;
      var rest := aggregators.Values;
      while rest != {}
        invariant rest <= aggregators.Values
        invariant forall w :: w in aggregators && aggregators[w] in rest ==>
                  aggregators[w].records == old(aggregators[w].records)
        invariant forall w :: w in aggregators && aggregators[w] !in rest ==>
                    aggregators[w].records == old(aggregators[w].records) + [Rec(time, valid)]
        modifies aggregators.Values
        decreases rest
      {
        var aggregator :| aggregator in rest;
        aggregator.AddEvent(valid, time);
        rest := rest - {aggregator};
      }
      sinceFlush := sinceFlush + 1;
      local := local + 1;
      if sinceFlush >= flushInterval {
        FlushEventCounts(now, saved);
      }
    }

    /** The window's deque, created empty on first use, after eviction. */
    method Window(windowSeconds: int, ref: int) returns (m: Metrics)
      requires Valid()
      modifies this`aggregators, aggregators.Values
      ensures Valid() && aggregators.Keys == old(aggregators).Keys + {windowSeconds}
      ensures forall w :: w in old(aggregators) ==>
                aggregators[w] == old(aggregators)[w] &&
                aggregators[w].records == Step(w, old(aggregators[w].records), Measure(windowSeconds, ref))
      ensures windowSeconds !in old(aggregators) ==>
                fresh(aggregators[windowSeconds]) && aggregators[windowSeconds].records == []
      ensures m == MetricsOf(aggregators[windowSeconds].records, windowSeconds, ref)
      ensures Describes(m, aggregators[windowSeconds].records, windowSeconds, ref)
    {
      if windowSeconds !in aggregators {
        var created := new WindowAggregator(windowSeconds);
        aggregators := aggregators[windowSeconds := created];
      }
      m := aggregators[windowSeconds].GetMetrics(ref);
    }

    /** The rate over one window. It raises exactly when the fallback row contradicts itself. */
    method Calculate(windowSeconds: int, ref: Option<int>, now: int, readable: bool) returns (r: Outcome)
      requires Valid()
      modifies this`aggregators, this`lastHealth, aggregators.Values
      ensures Valid() && aggregators.Keys == old(aggregators).Keys + {windowSeconds}
      ensures forall w :: w in old(aggregators) ==>
                aggregators[w] == old(aggregators)[w] &&
                aggregators[w].records ==
                  Step(w, old(aggregators[w].records), Measure(windowSeconds, if ref.Some? then ref.value else now))
      ensures windowSeconds !in old(aggregators) ==>
                fresh(aggregators[windowSeconds]) && aggregators[windowSeconds].records == []
      ensures r == Conclude(config, aggregators[windowSeconds].records,
                            Fallback(local, |aggregators[windowSeconds].records|, ref, rows, readable, windowSeconds,
                                now))
      ensures r.Measured? ==>
                Explains(config, r, aggregators[windowSeconds].records,
                         if local == 0 && ref.None? && readable && windowSeconds in rows then Some(rows[windowSeconds])
                         else None, windowSeconds, now)
      ensures lastHealth == if r.Measured? then old(lastHealth)[windowSeconds := r.health] else old(lastHealth)
    {
      hide Live, CountValid, Step, Assessed, Positions, Describes, Explains, Classify, Ratio;
      var m := Window(windowSeconds, if ref.Some? then ref.value else now);
      var total: int, valid: int, failed: int := m.total, m.valid, m.invalid;
      if local == 0 && total == 0 && ref.None? && readable && windowSeconds in rows {
        var row := rows[windowSeconds];
        if row.total > 0 && (row.updatedAt.None? || now - row.updatedAt.value <= windowSeconds * SECOND) {
          total, valid, failed := row.total, row.valid, row.failed;
        }
      }
      r := Assess(config, total, valid, failed);
      ConcludesExactly(config, aggregators[windowSeconds].records, local, ref, rows, readable, windowSeconds, now);
      if r.Measured? {
        lastHealth := lastHealth[windowSeconds := r.health];
      }
    }
  }

  /** The engine's own invariant checks, then the rate and its class. */
  method Assess(config: Config, total: int, valid: int, failed: int) returns (r: Outcome)
    ensures r == Assessed(config, total, valid, failed)
  {
    if total < 0 || valid < 0 || failed < 0 || valid + failed != total || failed > total {
      return Raised;
    }
    var rate := if total > 0 then failed as real / total as real else 0.0;
    RatioInRange(failed, total);
    if !(0.0 <= rate <= 1.0) {
      return Raised;
    }
    return Measured(total, valid, failed, rate, Classify(config, rate));
  }

  function Assessed(config: Config, total: int, valid: int, failed: int): Outcome
  {
    if valid < 0 || failed < 0 || valid + failed != total then Raised
    else Measured(total, valid, failed, Ratio(failed, total), Classify(config, Ratio(failed, total)))
  }

  /** The answer for a deque, or for the persisted row that stands in for it. */
  function Conclude(config: Config, kept: seq<Rec>, fallback: Option<Row>): Outcome
  {
    match fallback
    case Some(row) => Assessed(config, row.total, row.valid, row.failed)
    case None => Assessed(config, |kept|, CountValid(kept), |kept| - CountValid(kept))
  }

  /** The three health classes and their boundaries. */
  ghost predicate Graded(c: Config, rate: real, health: Health)
  {
    && (health == Healthy <==> rate < c.healthyMax)
    && (health == Warning <==> c.healthyMax <= rate <= c.warningMax)
    && (health == Critical <==> rate > c.warningMax)
  }

  /** What a measurement means. `offered` is the persisted row, if there is one to fall back on: it is used when
      the window is empty and the row has events and is no older than the window. */
  ghost predicate Explains(c: Config, r: Outcome, kept: seq<Rec>, offered: Option<Row>, windowSeconds: int, now: int)
    requires r.Measured?
  {
    && r.rate * r.total as real == r.failed as real && (r.total == 0 ==> r.rate == 0.0) && Graded(c, r.rate, r.health)
    && if kept == [] && offered.Some? && offered.value.total > 0 &&
          (offered.value.updatedAt.Some? ==> now - offered.value.updatedAt.value <= windowSeconds * 1_000_000)
       then r.total == offered.value.total && r.valid == offered.value.valid && r.failed == offered.value.failed
       else r.total == |kept| && r.valid == |Positions(kept, true)| && r.failed == |Positions(kept, false)|
  }

  lemma AssessedMeans(c: Config, total: int, valid: int, failed: int)
    requires ValidConfig(c) && Assessed(c, total, valid, failed).Measured?
    ensures var r := Assessed(c, total, valid, failed);
            && r.total == total && r.valid == valid && r.failed == failed
            && r.rate * r.total as real == r.failed as real && (r.total == 0 ==> r.rate == 0.0)
            && Graded(c, r.rate, r.health)
  {
    RatioExactly(failed, total);
  }

  lemma ConcludesExactly(c: Config, kept: seq<Rec>, local: nat, ref: Option<int>, rows: map<int, Row>, readable: bool,
                         w: int, now: int)
    requires ValidConfig(c)
    ensures var r := Conclude(c, kept, Fallback(local, |kept|, ref, rows, readable, w, now));
            r.Measured? ==>
              Explains(c, r, kept, if local == 0 && ref.None? && readable && w in rows then Some(rows[w]) else None, w,
                       now)
  {
    hide CountValid, Positions, Assessed, Graded, ValidConfig;
    CountExactly(kept);
    var r := Conclude(c, kept, Fallback(local, |kept|, ref, rows, readable, w, now));
    if r.Measured? {
      match Fallback(local, |kept|, ref, rows, readable, w, now)
      case Some(row) => AssessedMeans(c, row.total, row.valid, row.failed);
      case None => AssessedMeans(c, |kept|, CountValid(kept), |kept| - CountValid(kept));
    }
  }

  lemma RatioInRange(part: int, whole: int)
    requires 0 <= part <= whole
    ensures 0.0 <= Ratio(part, whole) <= 1.0
  {
    if whole > 0 {
      var (p, w) := (part as real, whole as real);
      assert p / w * w == p;
    }
  }

  /** The engine raises exactly when a persisted row it falls back on contradicts itself, and never
      about its own windows; whatever it measures is a rate between 0 and 1. */
  lemma RaisesExactly(config: Config, kept: seq<Rec>, fallback: Option<Row>)
    requires fallback.Some? ==> fallback.value.total > 0
    ensures Conclude(config, kept, fallback).Raised? <==> fallback.Some? && !ConsistentRow(fallback.value)
    ensures Conclude(config, kept, fallback).Measured? ==>
              var m := Conclude(config, kept, fallback);
              0 <= m.failed <= m.total && m.valid + m.failed == m.total && 0.0 <= m.rate <= 1.0
  {
    var r := Conclude(config, kept, fallback);
    if r.Measured? {
      RatioInRange(r.failed, r.total);
    }
  }

  // ----- Runs -----------------------------------------------------------------------------------

  /** Every outcome recorded by the first `n` operations. */
  function History(ops: seq<Op>, n: nat): seq<Rec>
    requires n <= |ops|
  {
    if n == 0 then [] else History(ops, n - 1) + (if ops[n - 1].Record? then [ops[n - 1].outcome] else [])
  }

  /** The deque of a window of size `w` configured from the start. */
  function Run(w: int, ops: seq<Op>, n: nat): seq<Rec>
    requires n <= |ops|
  {
    if n == 0 then [] else Step(w, Run(w, ops, n - 1), ops[n - 1])
  }

  /** None of the first `n` operations came later than `ref`. */
  ghost predicate NoneLater(ops: seq<Op>, n: nat, ref: int)
    requires n <= |ops|
  {
    forall i :: 0 <= i < n ==> ops[i].at <= ref
  }

  lemma StepRefines(w: int, records: seq<Rec>, history: seq<Rec>, op: Op, cutoff: int)
    requires Live(records, cutoff) == Live(history, cutoff) && Cutoff(op.at, w) <= cutoff
    ensures Live(Step(w, records, op), cutoff)
         == Live(history + (if op.Record? then [op.outcome] else []), cutoff)
  {
    match op
    case Record(outcome, at, flushed) =>
      LiveAppend(records, outcome, cutoff);
      LiveAppend(history, outcome, cutoff);
      LiveTwice(records + [outcome], Cutoff(at, w), cutoff);
    case Measure(_, at) =>
      assert history + [] == history;
      LiveTwice(records, Cutoff(at, w), cutoff);
  }

  lemma {:induction false} RunRefinesHistory(w: int, ops: seq<Op>, n: nat, ref: int)
    requires n <= |ops| && NoneLater(ops, n, ref)
    ensures Live(Run(w, ops, n), Cutoff(ref, w)) == Live(History(ops, n), Cutoff(ref, w))
  {
    hide Live, Step;
    if n > 0 {
      RunRefinesHistory(w, ops, n - 1, ref);
      StepRefines(w, Run(w, ops, n - 1), History(ops, n - 1), ops[n - 1], Cutoff(ref, w));
    }
  }

  /** Measured no earlier than anything before it, and whatever the order of event times, a window
      holds the complete history less its leading expired outcomes. */
  lemma MeasuredFromHistory(w: int, ops: seq<Op>, n: nat)
    requires n < |ops| && ops[n].Measure? && ops[n].windowSeconds == w && NoneLater(ops, n, ops[n].at)
    ensures Run(w, ops, n + 1) == Live(History(ops, n), Cutoff(ops[n].at, w))
  {
    RunRefinesHistory(w, ops, n, ops[n].at);
  }

  /** So it misses no unexpired outcome, and it counts exactly the unexpired ones when, and only when,
      no expired outcome was recorded after an unexpired one. */
  lemma MeasuresWindowExactly(w: int, ops: seq<Op>, n: nat)
    requires n < |ops| && ops[n].Measure? && ops[n].windowSeconds == w && NoneLater(ops, n, ops[n].at)
    ensures var (kept, all, cutoff) := (Run(w, ops, n + 1), History(ops, n), Cutoff(ops[n].at, w));
            && Recent(kept, cutoff) == Recent(all, cutoff)
            && (kept == Recent(all, cutoff) <==> NoneStale(all, cutoff))
            && (Sorted(all) ==> kept == Recent(all, cutoff))
  {
    hide Live, Recent, Run, History, Sorted, NoneStale;
    MeasuredFromHistory(w, ops, n);
    LiveLosesNothingRecent(History(ops, n), Cutoff(ops[n].at, w));
    LiveIsRecentExactly(History(ops, n), Cutoff(ops[n].at, w));
    SortedHasNoneStale(History(ops, n), Cutoff(ops[n].at, w));
  }

  lemma SortedHasNoneStale(records: seq<Rec>, cutoff: int)
    ensures Sorted(records) ==> NoneStale(records, cutoff)
  {
  }

  /** Two windows configured from the start and measured one after the other as of one time: the
      smaller never counts more than the larger, even when event times are out of order. */
  lemma SmallerWindowCountsLess(small: int, large: int, ops: seq<Op>, n: nat)
    requires small <= large && n + 1 < |ops| && ops[n].at == ops[n + 1].at && NoneLater(ops, n, ops[n].at)
    requires ops[n] == Measure(small, ops[n].at) && ops[n + 1] == Measure(large, ops[n].at)
    ensures |Run(small, ops, n + 1)| <= |Run(large, ops, n + 2)|
  {
    hide Live;
    var (all, ref) := (History(ops, n), ops[n].at);
    MeasuredFromHistory(small, ops, n);
    MeasuredFromHistory(large, ops, n + 1);
    assert History(ops, n + 1) == all;
    LiveTwice(all, Cutoff(ref, large), Cutoff(ref, small));
    LiveNotLonger(Live(all, Cutoff(ref, large)), Cutoff(ref, small));
  }

  // ----- Any order of measurements ----------------------------------------------------------------

  predicate Evicts(w: int, op: Op)
  {
    match op case Record(_, _, flushed) => flushed case Measure(windowSeconds, _) => windowSeconds == w
  }

  /** The deque an operation finds, with the outcome it records. */
  function Filled(records: seq<Rec>, op: Op): seq<Rec> { records + if op.Record? then [op.outcome] else [] }

  lemma StepEvicts(w: int, records: seq<Rec>, op: Op)
    ensures Step(w, records, op)
         == if Evicts(w, op) then Live(Filled(records, op), Cutoff(op.at, w)) else Filled(records, op)
  {
    assert records + [] == records;
  }

  /** The eviction of operation `k` drops an outcome that is unexpired at `cutoff`. */
  ghost predicate LosesAt(w: int, ops: seq<Op>, k: nat, cutoff: int)
    requires k < |ops|
  {
    var found := Filled(Run(w, ops, k), ops[k]);
    Evicts(w, ops[k]) &&
    exists i :: 0 <= i < |found| - |Live(found, Cutoff(ops[k].at, w))| && found[i].time >= cutoff
  }

  predicate Suffix(a: seq<Rec>, b: seq<Rec>) { |a| <= |b| && a == b[|b| - |a|..] }

  lemma RecentCons(records: seq<Rec>, cutoff: int)
    requires records != []
    ensures Recent(records, cutoff)
         == if records[0].time >= cutoff then [records[0]] + Recent(records[1..], cutoff)
            else Recent(records[1..], cutoff)
  {
  }

  lemma Associative(a: seq<Rec>, b: seq<Rec>, c: seq<Rec>)
    ensures a + (b + c) == (a + b) + c
  {
  }

  lemma TailOfSum(a: seq<Rec>, b: seq<Rec>)
    requires a != []
    ensures (a + b)[1..] == a[1..] + b && (a + b)[0] == a[0]
  {
  }

  lemma {:induction false} RecentAppend(a: seq<Rec>, b: seq<Rec>, cutoff: int)
    ensures Recent(a + b, cutoff) == Recent(a, cutoff) + Recent(b, cutoff)
  {
    if a == [] {
      assert a + b == b && Recent(a, cutoff) + Recent(b, cutoff) == Recent(b, cutoff);
    } else {
      hide Recent;
      RecentAppend(a[1..], b, cutoff);
      TailOfSum(a, b);
      RecentCons(a, cutoff);
      RecentCons(a + b, cutoff);
      Associative([a[0]], Recent(a[1..], cutoff), Recent(b, cutoff));
    }
  }

  lemma {:induction false} RecentEmpty(a: seq<Rec>, cutoff: int)
    ensures Recent(a, cutoff) == [] <==> forall i :: 0 <= i < |a| ==> a[i].time < cutoff
  {
    if a != [] {
      RecentEmpty(a[1..], cutoff);
      assert forall i :: 0 < i < |a| ==> a[i] == a[1..][i - 1];
      if forall i :: 0 <= i < |a| ==> a[i].time < cutoff {
        forall i | 0 <= i < |a| - 1 ensures a[1..][i].time < cutoff {
        }
      }
    }
  }

  /** What an eviction leaves of the unexpired is a suffix, and all of it exactly when it drops none. */
  lemma LiveLoses(found: seq<Rec>, evicted: int, cutoff: int)
    ensures Suffix(Recent(Live(found, evicted), cutoff), Recent(found, cutoff))
    ensures |Recent(Live(found, evicted), cutoff)| == |Recent(found, cutoff)|
       <==> forall i :: 0 <= i < |found| - |Live(found, evicted)| ==> found[i].time < cutoff
  {
    hide Recent, Live;
    LiveLosesNothingRecent(found, evicted);
    var dropped := |found| - |Live(found, evicted)|;
    var (gone, left) := (found[..dropped], found[dropped..]);
    assert found == gone + left && left == Live(found, evicted);
    RecentAppend(gone, left, cutoff);
    RecentEmpty(gone, cutoff);
    assert forall i :: 0 <= i < dropped ==> gone[i] == found[i];
    var all := Recent(gone, cutoff) + Recent(left, cutoff);
    assert all[|Recent(gone, cutoff)|..] == Recent(left, cutoff);
  }

  lemma SuffixStep(kept: seq<Rec>, all: seq<Rec>, more: seq<Rec>, left: seq<Rec>)
    requires Suffix(kept, all) && Suffix(left, kept + more)
    ensures Suffix(left, all + more)
    ensures |left| == |all + more| <==> |kept| == |all| && |left| == |kept + more|
  {
    assert kept + more == (all + more)[|all| - |kept|..];
  }

  lemma {:induction false} KeptExactly(w: int, ops: seq<Op>, n: nat, cutoff: int)
    requires n <= |ops|
    ensures Suffix(Recent(Run(w, ops, n), cutoff), Recent(History(ops, n), cutoff))
    ensures |Recent(Run(w, ops, n), cutoff)| == |Recent(History(ops, n), cutoff)|
       <==> forall k :: 0 <= k < n ==> !LosesAt(w, ops, k, cutoff)
  {
    hide Recent, Live, Step, Suffix, LosesAt;
    if n == 0 {
      NothingKept(w, ops, cutoff);
    } else {
      KeptExactly(w, ops, n - 1, cutoff);
      StepKept(w, ops, n, cutoff);
    }
  }

  lemma NothingKept(w: int, ops: seq<Op>, cutoff: int)
    ensures Run(w, ops, 0) == History(ops, 0) == [] && Suffix(Recent([], cutoff), Recent([], cutoff))
  {
  }

  lemma StepKept(w: int, ops: seq<Op>, n: nat, cutoff: int)
    requires 0 < n <= |ops|
    requires Suffix(Recent(Run(w, ops, n - 1), cutoff), Recent(History(ops, n - 1), cutoff))
    ensures Suffix(Recent(Run(w, ops, n), cutoff), Recent(History(ops, n), cutoff))
    ensures |Recent(Run(w, ops, n), cutoff)| == |Recent(History(ops, n), cutoff)|
       <==> |Recent(Run(w, ops, n - 1), cutoff)| == |Recent(History(ops, n - 1), cutoff)| &&
            !LosesAt(w, ops, n - 1, cutoff)
  {
    hide Recent, Live, Suffix, Step;
    var (kept, all, op) := (Run(w, ops, n - 1), History(ops, n - 1), ops[n - 1]);
    var more := if op.Record? then [op.outcome] else [];
    var found := Filled(kept, op);
    StepEvicts(w, kept, op);
    RecentAppend(kept, more, cutoff);
    RecentAppend(all, more, cutoff);
    LiveLoses(found, Cutoff(op.at, w), cutoff);
    SuffixWhole(Recent(found, cutoff));
    SuffixStep(Recent(kept, cutoff), Recent(all, cutoff), Recent(more, cutoff), Recent(Run(w, ops, n), cutoff));
  }

  lemma SuffixWhole(a: seq<Rec>)
    ensures Suffix(a, a)
  {
  }

  /** A measurement misses no unexpired outcome exactly when no eviction before it dropped one. */
  lemma MissesNothingExactly(w: int, ops: seq<Op>, n: nat)
    requires n < |ops| && ops[n] == Measure(w, ops[n].at)
    ensures var cutoff := Cutoff(ops[n].at, w);
            Recent(Run(w, ops, n + 1), cutoff) == Recent(History(ops, n), cutoff)
            <==> forall k :: 0 <= k < n ==> !LosesAt(w, ops, k, cutoff)
  {
    hide Recent, Live, LosesAt, Run, History;
    var cutoff := Cutoff(ops[n].at, w);
    KeptExactly(w, ops, n, cutoff);
    RunMeasure(w, ops, n);
    LiveLosesNothingRecent(Run(w, ops, n), cutoff);
  }

  lemma RunMeasure(w: int, ops: seq<Op>, n: nat)
    requires n < |ops| && ops[n] == Measure(w, ops[n].at)
    ensures Run(w, ops, n + 1) == Live(Run(w, ops, n), Cutoff(ops[n].at, w))
  {
  }

  // ----- Which schedules are safe whatever the event times ----------------------------------------

  /** The same operations at the same clock times; only what is recorded may differ. */
  ghost predicate SameSchedule(a: seq<Op>, b: seq<Op>)
  {
    && |a| == |b|
    && forall i :: 0 <= i < |a| ==>
         if a[i].Record? then b[i].Record? && (a[i].at, a[i].flushed) == (b[i].at, b[i].flushed) else b[i] == a[i]
  }

  /** No eviction that can find an outcome uses a later cutoff. */
  ghost predicate CutoffsBehind(w: int, ops: seq<Op>, n: nat, cutoff: int)
    requires n <= |ops|
  {
    forall k :: 0 <= k < n && Evicts(w, ops[k]) && History(ops, k + 1) != [] ==> Cutoff(ops[k].at, w) <= cutoff
  }

  lemma {:induction false} HistoryLength(a: seq<Op>, b: seq<Op>, n: nat)
    requires SameSchedule(a, b) && n <= |a|
    ensures |History(a, n)| == |History(b, n)|
  {
    if n > 0 {
      HistoryLength(a, b, n - 1);
    }
  }

  lemma {:induction false} RunIsShort(w: int, ops: seq<Op>, k: nat, n: nat)
    requires k <= n <= |ops|
    ensures |Run(w, ops, n)| - |Run(w, ops, k)| <= |History(ops, n)| - |History(ops, k)|
  {
    hide Live;
    if k < n {
      RunIsShort(w, ops, k, n - 1);
      var op := ops[n - 1];
      LiveNotLonger(Run(w, ops, n - 1), Cutoff(op.at, w));
      if op.Record? {
        LiveNotLonger(Run(w, ops, n - 1) + [op.outcome], Cutoff(op.at, w));
      }
    }
  }

  lemma BehindLosesNothing(w: int, ops: seq<Op>, k: nat, cutoff: int)
    requires k < |ops| && CutoffsBehind(w, ops, k + 1, cutoff)
    ensures !LosesAt(w, ops, k, cutoff)
  {
    hide Run, History, Live;
    var found := Filled(Run(w, ops, k), ops[k]);
    LiveLosesNothingRecent(found, Cutoff(ops[k].at, w));
    if History(ops, k + 1) == [] {
      RunIsShort(w, ops, 0, k);
      NoneYet(w, ops, k);
    }
  }

  lemma NoneYet(w: int, ops: seq<Op>, k: nat)
    requires k < |ops| && History(ops, k + 1) == []
    ensures Filled(Run(w, ops, k), ops[k]) == []
  {
    assert History(ops, k) == [] && !ops[k].Record?;
    RunIsShort(w, ops, 0, k);
  }

  function Retimed(ops: seq<Op>, time: int): seq<Op>
  {
    seq(|ops|, i requires 0 <= i < |ops| => if ops[i].Record? then ops[i].(outcome := Rec(time, true)) else ops[i])
  }

  ghost predicate AllAt(records: seq<Rec>, time: int) { forall i :: 0 <= i < |records| ==> records[i].time == time }

  lemma StepAllAt(w: int, records: seq<Rec>, op: Op, time: int)
    requires AllAt(records, time) && (op.Record? ==> op.outcome.time == time)
    ensures AllAt(Filled(records, op), time) && AllAt(Step(w, records, op), time)
  {
    hide Live, Step;
    StepEvicts(w, records, op);
    LiveLosesNothingRecent(Filled(records, op), Cutoff(op.at, w));
  }

  lemma {:induction false} AllAtOneTime(w: int, ops: seq<Op>, n: nat, time: int)
    requires n <= |ops| && forall i :: 0 <= i < |ops| && ops[i].Record? ==> ops[i].outcome.time == time
    ensures AllAt(Run(w, ops, n), time) && AllAt(History(ops, n), time)
  {
    if n > 0 {
      hide Step;
      AllAtOneTime(w, ops, n - 1, time);
      StepAllAt(w, Run(w, ops, n - 1), ops[n - 1], time);
    }
  }

  lemma LiveOfAll(records: seq<Rec>, time: int, cutoff: int)
    requires AllAt(records, time) && time < cutoff
    ensures Live(records, cutoff) == []
  {
    LiveOfExpired(records, cutoff);
  }

  lemma NoneRecent(cutoff: int)
    ensures Recent([], cutoff) == []
  {
  }

  lemma AllRecent(records: seq<Rec>, time: int)
    requires AllAt(records, time)
    ensures Recent(records, time) == records
  {
    RecentNotLonger(records, time);
  }

  /** When every outcome is exactly at the cutoff, an eviction with a later cutoff empties the deque, and
      the measurement comes up short. */
  lemma LaterCutoffMisses(w: int, ops: seq<Op>, n: nat, k: nat, cutoff: int)
    requires k < n <= |ops| && Evicts(w, ops[k]) && History(ops, k + 1) != [] && Cutoff(ops[k].at, w) > cutoff
    requires forall i :: 0 <= i < |ops| && ops[i].Record? ==> ops[i].outcome.time == cutoff
    ensures exists j :: 0 <= j < n && LosesAt(w, ops, j, cutoff)
  {
    hide Live, Recent, LosesAt, Step, Filled, History, AllAt;
    if forall j :: 0 <= j < n ==> !LosesAt(w, ops, j, cutoff) {
      KeptExactly(w, ops, k + 1, cutoff);
      AllAtOneTime(w, ops, k + 1, cutoff);
      AllAtOneTime(w, ops, k, cutoff);
      var found := Filled(Run(w, ops, k), ops[k]);
      StepEvicts(w, Run(w, ops, k), ops[k]);
      StepAllAt(w, Run(w, ops, k), ops[k], cutoff);
      LiveOfAll(found, cutoff, Cutoff(ops[k].at, w));
      NoneRecent(cutoff);
      AllRecent(History(ops, k + 1), cutoff);
    }
  }

  lemma {:induction false} LiveOfExpired(records: seq<Rec>, cutoff: int)
    requires forall i :: 0 <= i < |records| ==> records[i].time < cutoff
    ensures Live(records, cutoff) == []
  {
    if records != [] {
      assert forall i :: 0 <= i < |records| - 1 ==> records[1..][i] == records[i + 1];
      LiveOfExpired(records[1..], cutoff);
    }
  }

  /** Whatever the event times, a measurement misses no unexpired outcome, if and only if every earlier
      eviction that could find an outcome had a cutoff no later than its own. */
  lemma ScheduleMissesNothingExactly(w: int, ops: seq<Op>, n: nat)
    requires n < |ops| && ops[n] == Measure(w, ops[n].at)
    ensures var cutoff := Cutoff(ops[n].at, w);
            (forall b: seq<Op> :: SameSchedule(ops, b) ==>
                Recent(Run(w, b, n + 1), cutoff) == Recent(History(b, n), cutoff))
            <==> CutoffsBehind(w, ops, n, cutoff)
  {
    hide Recent, Live, Run, History, LosesAt;
    var cutoff := Cutoff(ops[n].at, w);
    if CutoffsBehind(w, ops, n, cutoff) {
      forall b: seq<Op> | SameSchedule(ops, b)
        ensures Recent(Run(w, b, n + 1), cutoff) == Recent(History(b, n), cutoff)
      {
        MissesNothingExactly(w, b, n);
        forall k | 0 <= k < n ensures !LosesAt(w, b, k, cutoff) {
          forall j | 0 <= j < k + 1 && Evicts(w, b[j]) && History(b, j + 1) != []
            ensures Cutoff(b[j].at, w) <= cutoff
          {
            HistoryLength(ops, b, j + 1);
            assert Evicts(w, ops[j]);
          }
          BehindLosesNothing(w, b, k, cutoff);
        }
      }
    } else {
      var k :| 0 <= k < n && Evicts(w, ops[k]) && History(ops, k + 1) != [] && Cutoff(ops[k].at, w) > cutoff;
      var b := Retimed(ops, cutoff);
      assert SameSchedule(ops, b);
      HistoryLength(ops, b, k + 1);
      assert Evicts(w, b[k]);
      LaterCutoffMisses(w, b, n, k, cutoff);
      MissesNothingExactly(w, b, n);
    }
  }

  // ----- The premises are needed ------------------------------------------------------------------

  lemma Live1(r: Rec, cutoff: int)
    ensures Live([], cutoff) == []
    ensures Live([r], cutoff) == if r.time >= cutoff then [r] else []
  {
  }

  /** An outcome that arrives late stays behind a fresh one and is still counted 61 seconds on. */
  lemma LateOutcomeOvercounts()
    ensures var ops := [Record(Rec(61 * SECOND, true), 61 * SECOND, false), Record(Rec(0, false), 61 * SECOND, false),
                        Measure(60, 61 * SECOND)];
            |Run(60, ops, 3)| == 2 && |Recent(History(ops, 2), Cutoff(61 * SECOND, 60))| == 1
  {
    var (early, late) := (Rec(61 * SECOND, true), Rec(0, false));
    var ops := [Record(early, 61 * SECOND, false), Record(late, 61 * SECOND, false), Measure(60, 61 * SECOND)];
    assert Run(60, ops, 0) == [] && History(ops, 0) == [];
    assert Run(60, ops, 1) == [early] && History(ops, 1) == [early];
    assert Run(60, ops, 2) == [early, late] && History(ops, 2) == [early, late];
    assert [early, late][1..] == [late] && [late][1..] == [];
    assert Recent([], SECOND) == [] && Recent([late], SECOND) == [];
  }

  /** Asking about the past after the present undercounts: the present question has evicted for good. */
  lemma AskingBackwardsUndercounts()
    ensures var ops := [Record(Rec(0, true), 0, false), Measure(60, 100 * SECOND), Measure(60, 30 * SECOND)];
            Run(60, ops, 3) == [] && Recent(History(ops, 2), Cutoff(30 * SECOND, 60)) == [Rec(0, true)]
  {
    var ops := [Record(Rec(0, true), 0, false), Measure(60, 100 * SECOND), Measure(60, 30 * SECOND)];
    assert Run(60, ops, 0) == [] && History(ops, 0) == [];
    assert Run(60, ops, 1) == [Rec(0, true)] && History(ops, 1) == [Rec(0, true)];
    assert Run(60, ops, 2) == [] by { Live1(Rec(0, true), 40 * SECOND); }
    assert Run(60, ops, 3) == [];
    assert History(ops, 2) == [Rec(0, true)];
    assert [Rec(0, true)][1..] == [];
  }
}
