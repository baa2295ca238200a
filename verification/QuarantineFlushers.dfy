/** Several threads flushing one quarantine writer.

    Each flush copies the buffer under the lock, appends the copy without it, and then takes the lock
    again to trim as many records as it copied. The steps of different flushes may interleave. */
module QuarantineFlushers {

  /** `epoch` and `base` record how many flushes, and how many records, had been trimmed at the copy. */
  datatype Flight<T> = Copied(batch: seq<T>, epoch: nat, base: nat) | Written(size: nat, ok: bool)

  /** `commits` counts successful appends, `trims` the successful flushes that have finished, and
      `trimmed` the records those removed from the buffer; `written` and `claimed` are the total sizes of
      the batches appended successfully and of those whose flush has finished. */
  datatype State<T> = State(submitted: seq<T>, buffer: seq<T>, table: seq<T>, flights: map<nat, Flight<T>>,
                            commits: nat, trims: nat, trimmed: nat, written: nat, claimed: nat)

  /** `Unseen` is an append that commits but raises, so that the flush tries again or gives up. */
  datatype Action<T> = Submit(record: T) | Copy(f: nat) | Unseen(f: nat) | Append(f: nat, ok: bool) | Trim(f: nat)

  function Start<T>(): State<T> { State([], [], [], map[], 0, 0, 0, 0, 0) }

  function Min(a: nat, b: nat): nat { if a <= b then a else b }

  /** An action whose flush is not at that point changes nothing. */
  function Step<T>(s: State<T>, a: Action<T>): State<T>
  {
    match a
    case Submit(record) => s.(submitted := s.submitted + [record], buffer := s.buffer + [record])
    case Copy(f) =>
      if f in s.flights || s.buffer == [] then s
      else s.(flights := s.flights[f := Copied(s.buffer, s.trims, s.trimmed)])
    case Unseen(f) =>
      if f !in s.flights || !s.flights[f].Copied? then s else s.(table := s.table + s.flights[f].batch)
    case Append(f, ok) =>
      if f !in s.flights || !s.flights[f].Copied? then s
      else
        var batch := s.flights[f].batch;
        if ok then
          s.(flights := s.flights[f := Written(|batch|, true)], table := s.table + batch,
             commits := s.commits + 1, written := s.written + |batch|)
        else s.(flights := s.flights[f := Written(|batch|, false)])
    case Trim(f) =>
      if f !in s.flights || !s.flights[f].Written? then s
      else if !s.flights[f].ok then s.(flights := s.flights - {f})
      else
        var size := Min(s.flights[f].size, |s.buffer|);
        s.(flights := s.flights - {f}, buffer := s.buffer[size..], trims := s.trims + 1,
           trimmed := s.trimmed + size, claimed := s.claimed + s.flights[f].size)
  }

  function Run<T>(actions: seq<Action<T>>, n: nat): State<T>
    requires n <= |actions|
  {
    if n == 0 then Start() else Step(Run(actions, n - 1), actions[n - 1])
  }

  /** A flush commits although another committed flush had not finished trimming when it copied the buffer. */
  predicate Clash<T>(s: State<T>, a: Action<T>)
  {
    a.Append? && a.ok && a.f in s.flights && s.flights[a.f].Copied? && s.commits > s.flights[a.f].epoch
  }

  ghost predicate Clashed<T>(actions: seq<Action<T>>, n: nat)
    requires n <= |actions|
  {
    exists k :: 0 <= k < n && Clash(Run(actions, k), actions[k])
  }

  /** An append commits unseen. */
  predicate Unnoticed<T>(s: State<T>, a: Action<T>)
  {
    a.Unseen? && a.f in s.flights && s.flights[a.f].Copied?
  }

  ghost predicate SomeUnnoticed<T>(actions: seq<Action<T>>, n: nat)
    requires n <= |actions|
  {
    exists k :: 0 <= k < n && Unnoticed(Run(actions, k), actions[k])
  }

  /** Every flush that reported a batch written has finished. */
  predicate Settled<T>(s: State<T>) { s.written == s.claimed }

  ghost predicate Distinct<T>(xs: seq<T>) { forall i, j :: 0 <= i < j < |xs| ==> xs[i] != xs[j] }

  // ----- The invariant --------------------------------------------------------------------------

  ghost predicate FlightOrderly<T>(s: State<T>, flight: Flight<T>)
  {
    match flight
    case Copied(batch, epoch, base) =>
      && batch != [] && base + |batch| <= |s.submitted| && batch == s.submitted[base..base + |batch|]
      && epoch <= s.trims
      && (if epoch == s.trims then base == s.trimmed else base < s.trimmed)
    case Written(size, ok) => ok ==> s.commits == s.trims + 1 && size == |s.table| - s.trimmed
  }

  /** While no flush has clashed: the table is the submitted prefix, the buffer what was not trimmed,
      and at most one committed flush still has to trim. */
  ghost predicate Orderly<T>(s: State<T>)
  {
    && s.trimmed <= |s.table| <= |s.submitted|
    && s.table == s.submitted[..|s.table|]
    && s.buffer == s.submitted[s.trimmed..]
    && s.written == |s.table| && s.claimed == s.trimmed
    && s.trims <= s.commits <= s.trims + 1
    && (if s.commits == s.trims then |s.table| == s.trimmed else s.trimmed < |s.table|)
    && (forall f :: f in s.flights ==> FlightOrderly(s, s.flights[f]))
    && (forall f, g :: f in s.flights && g in s.flights && f != g ==>
          !(s.flights[f].Written? && s.flights[f].ok && s.flights[g].Written? && s.flights[g].ok))
  }

  lemma SubmitKeepsOrder<T>(s: State<T>, record: T)
    requires Orderly(s)
    ensures Orderly(Step(s, Submit(record)))
  {
    var after := Step(s, Submit(record));
    forall f | f in s.flights
      ensures FlightOrderly(after, s.flights[f])
    {
      assert FlightOrderly(s, s.flights[f]);
    }
  }

  lemma CopyKeepsOrder<T>(s: State<T>, f: nat)
    requires Orderly(s)
    ensures Orderly(Step(s, Copy(f)))
  {
    var after := Step(s, Copy(f));
    forall g | g in after.flights
      ensures FlightOrderly(after, after.flights[g])
    {
      assert g in s.flights ==> FlightOrderly(s, s.flights[g]);
    }
  }

  lemma AppendKeepsOrder<T>(s: State<T>, f: nat, ok: bool)
    requires Orderly(s) && !Clash(s, Append(f, ok))
    ensures Orderly(Step(s, Append(f, ok)))
  {
    if f in s.flights && s.flights[f].Copied? {
      var after := Step(s, Append(f, ok));
      assert FlightOrderly(s, s.flights[f]);
      forall g | g in after.flights
        ensures FlightOrderly(after, after.flights[g])
      {
        assert FlightOrderly(s, s.flights[g]);
      }
    }
  }

  lemma TrimKeepsOrder<T>(s: State<T>, f: nat)
    requires Orderly(s)
    ensures Orderly(Step(s, Trim(f)))
  {
    if f in s.flights && s.flights[f].Written? {
      var after := Step(s, Trim(f));
      assert FlightOrderly(s, s.flights[f]);
      forall g | g in after.flights
        ensures FlightOrderly(after, after.flights[g])
      {
        assert FlightOrderly(s, s.flights[g]);
      }
    }
  }

  lemma UnseenNothing<T>(s: State<T>, f: nat)
    requires !Unnoticed(s, Unseen(f))
    ensures Step(s, Unseen(f)) == s
  {
  }

  lemma StepKeepsOrder<T>(s: State<T>, a: Action<T>)
    requires Orderly(s) && !Clash(s, a) && !Unnoticed(s, a)
    ensures Orderly(Step(s, a))
  {
    hide Orderly, Step;
    match a
    case Submit(record) => SubmitKeepsOrder(s, record);
    case Copy(f) => CopyKeepsOrder(s, f);
    case Unseen(f) => UnseenNothing(s, f);
    case Append(f, ok) => AppendKeepsOrder(s, f, ok);
    case Trim(f) => TrimKeepsOrder(s, f);
  }

  lemma {:induction false} UnclashedIsOrderly<T>(actions: seq<Action<T>>, n: nat)
    requires n <= |actions| && !Clashed(actions, n) && !SomeUnnoticed(actions, n)
    ensures Orderly(Run(actions, n))
  {
    hide Step, Clash, Unnoticed;
    if n == 0 {
      assert Orderly(Start<T>());
    } else {
      hide Orderly;
      assert !Clashed(actions, n - 1) && !SomeUnnoticed(actions, n - 1);
      UnclashedIsOrderly(actions, n - 1);
      assert !Clash(Run(actions, n - 1), actions[n - 1]) && !Unnoticed(Run(actions, n - 1), actions[n - 1]);
      StepKeepsOrder(Run(actions, n - 1), actions[n - 1]);
    }
  }

  // ----- A clash writes a record twice ----------------------------------------------------------

  ghost predicate Repeats<T>(xs: seq<T>) { exists i, j :: 0 <= i < j < |xs| && xs[i] == xs[j] }

  lemma ClashRepeats<T>(s: State<T>, a: Action<T>)
    requires Orderly(s) && Clash(s, a)
    ensures Repeats(Step(s, a).table)
  {
    var flight := s.flights[a.f];
    assert FlightOrderly(s, flight);
    var table := Step(s, a).table;
    assert table[flight.base] == s.submitted[flight.base] == flight.batch[0] == table[|s.table|];
  }

  lemma {:induction false} RepeatsStays<T>(actions: seq<Action<T>>, k: nat, n: nat)
    requires k <= n <= |actions| && Repeats(Run(actions, k).table)
    ensures Repeats(Run(actions, n).table)
  {
    if k < n {
      RepeatsStays(actions, k, n - 1);
      var (before, after) := (Run(actions, n - 1).table, Run(actions, n).table);
      var i, j :| 0 <= i < j < |before| && before[i] == before[j];
      assert before <= after;
      assert after[i] == after[j];
    }
  }

  lemma {:induction false} ClashedRepeats<T>(actions: seq<Action<T>>, n: nat)
    requires n <= |actions| && Clashed(actions, n) && !SomeUnnoticed(actions, n)
    ensures Repeats(Run(actions, n).table)
  {
    hide Orderly, Step, Clash, Repeats, Unnoticed;
    assert n > 0 ==> !SomeUnnoticed(actions, n - 1);
    if Clashed(actions, n - 1) {
      ClashedRepeats(actions, n - 1);
      RepeatsStays(actions, n - 1, n);
    } else {
      UnclashedIsOrderly(actions, n - 1);
      ClashRepeats(Run(actions, n - 1), actions[n - 1]);
    }
  }

  lemma RepeatsIsNotDistinct<T>(xs: seq<T>, more: seq<T>)
    requires Repeats(xs)
    ensures !Distinct(xs + more)
  {
    var i, j :| 0 <= i < j < |xs| && xs[i] == xs[j];
    assert (xs + more)[i] == (xs + more)[j];
  }

  // ----- An unseen commit leaves too many records ---------------------------------------------------

  /** Records in table and buffer beyond the submitted ones, leaving out those still to be trimmed. */
  function Surplus<T>(s: State<T>): int
  {
    |s.table| + |s.buffer| - |s.submitted| - (s.written - s.claimed)
  }

  ghost predicate BatchesNonEmpty<T>(s: State<T>)
  {
    forall f :: f in s.flights && s.flights[f].Copied? ==> s.flights[f].batch != []
  }

  lemma StepSurplus<T>(s: State<T>, a: Action<T>)
    requires BatchesNonEmpty(s)
    ensures BatchesNonEmpty(Step(s, a))
    ensures Surplus(Step(s, a)) >= Surplus(s) + if Unnoticed(s, a) then 1 else 0
  {
  }

  /** Nothing ever makes up for an unseen commit. */
  lemma {:induction false} RunSurplus<T>(actions: seq<Action<T>>, n: nat)
    requires n <= |actions|
    ensures BatchesNonEmpty(Run(actions, n))
    ensures Surplus(Run(actions, n)) >= if SomeUnnoticed(actions, n) then 1 else 0
  {
    hide Step, BatchesNonEmpty, Surplus, Unnoticed;
    if n == 0 {
      StartSurplus<T>();
    } else {
      RunSurplus(actions, n - 1);
      StepSurplus(Run(actions, n - 1), actions[n - 1]);
      assert SomeUnnoticed(actions, n) ==>
               SomeUnnoticed(actions, n - 1) || Unnoticed(Run(actions, n - 1), actions[n - 1]);
    }
  }

  lemma StartSurplus<T>()
    ensures BatchesNonEmpty(Start<T>()) && Surplus(Start<T>()) == 0
  {
  }

  // ----- Conservation ---------------------------------------------------------------------------

  /** In every interleaving of any number of flushes, with any mix of failed and retried appends: once
      every flush that reported success has finished, table and buffer together are the distinct
      submitted records, in order, exactly when no two successful flushes overlapped and no commit went
      unseen. */
  lemma ConservationExactly<T>(actions: seq<Action<T>>, n: nat)
    requires n <= |actions| && Settled(Run(actions, n)) && Distinct(Run(actions, n).submitted)
    ensures var s := Run(actions, n);
            s.table + s.buffer == s.submitted <==> !Clashed(actions, n) && !SomeUnnoticed(actions, n)
  {
    hide Run, Clashed, Repeats, Distinct, SomeUnnoticed;
    var s := Run(actions, n);
    RunSurplus(actions, n);
    if SomeUnnoticed(actions, n) {
      assert |s.table + s.buffer| > |s.submitted|;
    } else if Clashed(actions, n) {
      ClashedRepeats(actions, n);
      RepeatsIsNotDistinct(s.table, s.buffer);
    } else {
      UnclashedIsOrderly(actions, n);
      assert s.submitted == s.submitted[..s.trimmed] + s.submitted[s.trimmed..];
    }
  }

  /** At most one flush is in flight, and what it copied is still current until it commits. */
  ghost predicate Solo<T>(s: State<T>)
  {
    && (forall f, g :: f in s.flights && g in s.flights ==> f == g)
    && (forall f :: f in s.flights ==>
         match s.flights[f]
         case Copied(_, epoch, _) => epoch == s.trims == s.commits
         case Written(_, ok) => s.commits == s.trims + (if ok then 1 else 0))
    && (s.flights == map[] ==> s.commits == s.trims)
  }

  ghost predicate OneAtATime<T>(s: State<T>) { forall f, g :: f in s.flights && g in s.flights ==> f == g }

  lemma SoloStep<T>(s: State<T>, a: Action<T>)
    requires Solo(s) && OneAtATime(Step(s, a))
    ensures Solo(Step(s, a)) && !Clash(s, a)
  {
    var after := Step(s, a);
    if a.Trim? && a.f in s.flights && s.flights[a.f].Written? {
      assert after.flights == map[];
    } else {
      assert forall f :: f in s.flights ==> f in after.flights;
    }
  }

  lemma {:induction false} SoloRun<T>(actions: seq<Action<T>>, n: nat)
    requires n <= |actions| && forall k :: 0 <= k <= n ==> OneAtATime(Run(actions, k))
    ensures Solo(Run(actions, n)) && !Clashed(actions, n)
  {
    hide Step, Clash;
    if n == 0 {
      assert Solo(Start<T>());
    } else {
      hide OneAtATime, Solo;
      SoloRun(actions, n - 1);
      assert OneAtATime(Run(actions, n));
      SoloStep(Run(actions, n - 1), actions[n - 1]);
    }
  }

  /** With at most one flush in flight at any time there is never a clash, so as long as no commit goes
      unseen nothing submitted is lost, repeated or reordered, whichever appends fail. */
  lemma OneFlushAtATimeConserves<T>(actions: seq<Action<T>>, n: nat)
    requires n <= |actions| && forall k :: 0 <= k <= n ==> OneAtATime(Run(actions, k))
    requires !SomeUnnoticed(actions, n)
    ensures var s := Run(actions, n);
            if Settled(s) then s.table + s.buffer == s.submitted
            else exists size: nat :: size <= |s.buffer| && s.table + s.buffer[size..] == s.submitted
  {
    hide Run, OneAtATime, Clashed, SomeUnnoticed;
    SoloRun(actions, n);
    UnclashedIsOrderly(actions, n);
    var s := Run(actions, n);
    assert s.submitted == s.submitted[..s.trimmed] + s.submitted[s.trimmed..];
    if !Settled(s) {
      var size := |s.table| - s.trimmed;
      assert s.table + s.buffer[size..] == s.submitted;
    }
  }

  /** Two flushes that copy the same record; one finishes, another record arrives, the other finishes. */
  function Overlap(): seq<Action<char>>
  {
    [Submit('a'), Copy(1), Copy(2), Append(1, true), Trim(1), Submit('b'), Append(2, true), Trim(2)]
  }

  function Midway(): State<char>
  {
    State(['a'], ['a'], ['a'], map[1 := Written(1, true), 2 := Copied(['a'], 0, 0)], 1, 0, 0, 1, 0)
  }

  lemma OverlapMidway()
    ensures Run(Overlap(), 4) == Midway()
  {
    hide Run;
    First(Overlap());
    var one := Copied(['a'], 0, 0);
    var s1 := State(['a'], ['a'], [], map[], 0, 0, 0, 0, 0);
    var s3 := s1.(flights := map[1 := one, 2 := one]);
    Next(Overlap(), 0, Start(), s1);
    Next(Overlap(), 1, s1, s1.(flights := map[1 := one]));
    Next(Overlap(), 2, s1.(flights := map[1 := one]), s3);
    Next(Overlap(), 3, s3, Midway());
  }

  /** Two flushes that overlap: the first record is written twice and the second, submitted in
      between, is trimmed away unwritten. */
  lemma OverlappingFlushesLoseARecord()
    ensures var s := Run(Overlap(), 8);
            s.submitted == ['a', 'b'] && s.table == ['a', 'a'] && s.buffer == [] && s.flights == map[]
  {
    hide Run;
    OverlapMidway();
    var (one, done) := (Copied(['a'], 0, 0), Written(1, true));
    var s5 := State(['a'], [], ['a'], map[2 := one], 1, 1, 1, 1, 1);
    var s6 := s5.(submitted := ['a', 'b'], buffer := ['b']);
    var s7 := State(['a', 'b'], ['b'], ['a', 'a'], map[2 := done], 2, 1, 1, 2, 1);
    Next(Overlap(), 4, Midway(), s5);
    Next(Overlap(), 5, s5, s6);
    Next(Overlap(), 6, s6, s7);
    Next(Overlap(), 7, s7, State(['a', 'b'], [], ['a', 'a'], map[], 2, 2, 2, 2, 2));
  }

  lemma First<T>(actions: seq<Action<T>>)
    ensures Run(actions, 0) == Start()
  {
  }

  lemma Next<T>(actions: seq<Action<T>>, n: nat, before: State<T>, after: State<T>)
    requires n < |actions| && Run(actions, n) == before && Step(before, actions[n]) == after
    ensures Run(actions, n + 1) == after
  {
  }
}
