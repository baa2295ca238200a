/** Rolling-window event counts: a deque of outcomes from whose head the expired ones are evicted. */
module Windows {

  /** Times are whole microseconds; windows are configured in seconds. */
  const SECOND := 1_000_000

  datatype Rec = Rec(time: int, valid: bool)
  datatype Metrics = Metrics(total: nat, valid: nat, invalid: nat, rate: real, start: int, end: int)

  function Cutoff(ref: int, windowSeconds: int): int { ref - windowSeconds * SECOND }

  /** What head eviction leaves: everything from the first record that has not expired. */
  function Live(records: seq<Rec>, cutoff: int): seq<Rec>
  {
    if records == [] || records[0].time >= cutoff then records else Live(records[1..], cutoff)
  }

  /** The records that have not expired, wherever they stand. */
  function Recent(records: seq<Rec>, cutoff: int): seq<Rec>
  {
    if records == [] then []
    else (if records[0].time >= cutoff then [records[0]] else []) + Recent(records[1..], cutoff)
  }

  function CountValid(records: seq<Rec>): (n: nat)
    ensures n <= |records|
  {
    if records == [] then 0
    else CountValid(records[..|records| - 1]) + (if records[|records| - 1].valid then 1 else 0)
  }

  function Ratio(part: int, whole: int): real
  {
    if whole > 0 then part as real / whole as real else 0.0
  }

  function MetricsOf(kept: seq<Rec>, windowSeconds: int, ref: int): Metrics
  {
    var invalid := |kept| - CountValid(kept);
    Metrics(|kept|, CountValid(kept), invalid, Ratio(invalid, |kept|),
            if kept != [] then kept[0].time else Cutoff(ref, windowSeconds), ref)
  }

  // ----- What the metrics say -----------------------------------------------------------------------

  /** Where the valid, or the invalid, records stand. */
  function Positions(records: seq<Rec>, wanted: bool): set<nat>
  {
    set i: nat | i < |records| && records[i].valid == wanted
  }

  lemma PositionsSnoc(front: seq<Rec>, r: Rec, wanted: bool)
    ensures |Positions(front + [r], wanted)| == |Positions(front, wanted)| + if r.valid == wanted then 1 else 0
  {
    var (all, n) := (Positions(front + [r], wanted), |front|);
    var before := Positions(front, wanted);
    assert n !in before;
    forall i: nat ensures i in all <==> i in before || (i == n && r.valid == wanted) {
      PositionInFront(front, r, wanted, i);
    }
    hide Positions;
    assert all == before + if r.valid == wanted then {n} else {};
  }

  lemma PositionInFront(front: seq<Rec>, r: Rec, wanted: bool, i: nat)
    ensures i in Positions(front + [r], wanted) <==>
              i in Positions(front, wanted) || (i == |front| && r.valid == wanted)
  {
    assert i < |front| ==> (front + [r])[i] == front[i];
  }

  lemma {:induction false} CountExactly(records: seq<Rec>)
    ensures CountValid(records) == |Positions(records, true)|
    ensures |records| - CountValid(records) == |Positions(records, false)|
  {
    if records == [] {
      assert Positions(records, true) == {} && Positions(records, false) == {};
    } else {
      hide Positions;
      var front, last := records[..|records| - 1], records[|records| - 1];
      assert records == front + [last];
      CountExactly(front);
      PositionsSnoc(front, last, true);
      PositionsSnoc(front, last, false);
    }
  }

  lemma RatioExactly(part: int, whole: int)
    requires 0 <= part <= whole
    ensures Ratio(part, whole) * whole as real == part as real
  {
  }

  /** The metrics of a deque: how many records it holds, how many of them are valid and how many are not, and
      the invalid share; they range from its first record, or from the cutoff, to the reference time. */
  ghost predicate Describes(m: Metrics, kept: seq<Rec>, windowSeconds: int, ref: int)
  {
    && m.total == |kept| && m.valid == |Positions(kept, true)| && m.invalid == |Positions(kept, false)|
    && m.valid + m.invalid == m.total && m.rate * m.total as real == m.invalid as real
    && (m.total == 0 ==> m.rate == 0.0)
    && m.end == ref && m.start == if kept == [] then ref - windowSeconds * 1_000_000 else kept[0].time
  }

  lemma MetricsExactly(kept: seq<Rec>, windowSeconds: int, ref: int)
    ensures Describes(MetricsOf(kept, windowSeconds, ref), kept, windowSeconds, ref)
  {
    hide CountValid, Positions;
    CountExactly(kept);
    RatioExactly(|kept| - CountValid(kept), |kept|);
  }

  class WindowAggregator {
    const windowSeconds: int
    var records: seq<Rec>

    constructor (windowSeconds: int)
      ensures this.windowSeconds == windowSeconds && records == []
    {
      this.windowSeconds, records := windowSeconds, [];
    }

    method AddEvent(valid: bool, time: int)
      modifies this
      ensures records == old(records) + [Rec(time, valid)]
    {
      records := records + [Rec(time, valid)];
    }

    method EvictExpired(ref: int)
      modifies this
      ensures records == Live(old(records), Cutoff(ref, windowSeconds))
    {
      var cutoff := ref - windowSeconds * SECOND;
      while records != [] && records[0].time < cutoff
        invariant Live(records, cutoff) == Live(old(records), cutoff)
        decreases |records|
      {
        records := records[1..];
      }
    }

    method GetMetrics(ref: int) returns (m: Metrics)
      modifies this
      ensures records == Live(old(records), Cutoff(ref, windowSeconds))
      ensures m == MetricsOf(records, windowSeconds, ref) && Describes(m, records, windowSeconds, ref)
    {
      EvictExpired(ref);
      MetricsExactly(records, windowSeconds, ref);
      var valid := 0;
      for i := 0 to |records|
        invariant valid == CountValid(records[..i])
      {
        assert records[..i + 1][..i] == records[..i];
        if records[i].valid {
          valid := valid + 1;
        }
      }
      assert records[..|records|] == records;
      var total := |records|;
      var invalid := total - valid;
      return Metrics(total, valid, invalid, if total > 0 then invalid as real / total as real else 0.0,
                     if total > 0 then records[0].time else Cutoff(ref, windowSeconds), ref);
    }
  }

  // ----- Head eviction against filtering ----------------------------------------------------------

  lemma {:induction false} LiveTwice(records: seq<Rec>, early: int, late: int)
    requires early <= late
    ensures Live(Live(records, early), late) == Live(records, late)
  {
    if records != [] && records[0].time < early {
      LiveTwice(records[1..], early, late);
    }
  }

  lemma {:induction false} LiveAppend(records: seq<Rec>, r: Rec, cutoff: int)
    ensures Live(records + [r], cutoff)
         == if Live(records, cutoff) == [] then Live([r], cutoff) else Live(records, cutoff) + [r]
  {
    if records == [] {
      assert records + [r] == [r];
    } else if records[0].time < cutoff {
      assert (records + [r])[1..] == records[1..] + [r];
      LiveAppend(records[1..], r, cutoff);
    }
  }

  lemma {:induction false} LiveNotLonger(records: seq<Rec>, cutoff: int)
    ensures |Live(records, cutoff)| <= |records|
  {
    if records != [] && records[0].time < cutoff {
      LiveNotLonger(records[1..], cutoff);
    }
  }

  /** Eviction drops a prefix made of expired records only, and stops at the first unexpired one, so no
      unexpired record is ever lost. */
  lemma {:induction false} LiveLosesNothingRecent(records: seq<Rec>, cutoff: int)
    ensures var dropped := |records| - |Live(records, cutoff)|;
            && 0 <= dropped && Live(records, cutoff) == records[dropped..]
            && (forall i :: 0 <= i < dropped ==> records[i].time < cutoff)
            && (dropped < |records| ==> records[dropped].time >= cutoff)
    ensures Recent(Live(records, cutoff), cutoff) == Recent(records, cutoff)
  {
    if records != [] && records[0].time < cutoff {
      LiveLosesNothingRecent(records[1..], cutoff);
    }
  }

  /** No expired record stands behind an unexpired one. */
  ghost predicate NoneStale(records: seq<Rec>, cutoff: int)
  {
    forall i, j :: 0 <= i < j < |records| && records[i].time >= cutoff ==> records[j].time >= cutoff
  }

  lemma {:induction false} RecentNotLonger(records: seq<Rec>, cutoff: int)
    ensures |Recent(records, cutoff)| <= |records|
    ensures Recent(records, cutoff) == records <==> forall i :: 0 <= i < |records| ==> records[i].time >= cutoff
  {
    if records != [] {
      var tail := records[1..];
      RecentNotLonger(tail, cutoff);
      assert forall i :: 0 <= i < |tail| ==> tail[i] == records[i + 1];
      if records[0].time >= cutoff {
        assert records == [records[0]] + tail;
        if forall i :: 0 <= i < |tail| ==> tail[i].time >= cutoff {
          assert forall i :: 0 < i < |records| ==> records[i] == tail[i - 1];
        } else {
          assert ([records[0]] + Recent(tail, cutoff))[1..] == Recent(tail, cutoff);
        }
      }
    }
  }

  lemma {:induction false} LiveIsRecentExactly(records: seq<Rec>, cutoff: int)
    ensures Live(records, cutoff) == Recent(records, cutoff) <==> NoneStale(records, cutoff)
  {
    if records != [] {
      var tail := records[1..];
      assert forall i :: 0 <= i < |tail| ==> tail[i] == records[i + 1];
      if records[0].time >= cutoff {
        RecentNotLonger(records, cutoff);
      } else {
        LiveIsRecentExactly(tail, cutoff);
        StaleTail(records, cutoff);
      }
    }
  }

  lemma StaleTail(records: seq<Rec>, cutoff: int)
    requires records != [] && records[0].time < cutoff
    ensures NoneStale(records, cutoff) <==> NoneStale(records[1..], cutoff)
  {
    var tail := records[1..];
    if NoneStale(tail, cutoff) {
      forall i, j | 0 <= i < j < |records| && records[i].time >= cutoff ensures records[j].time >= cutoff {
        assert tail[i - 1] == records[i] && tail[j - 1] == records[j];
      }
    }
  }

  ghost predicate Sorted(records: seq<Rec>)
  {
    forall i, j :: 0 <= i < j < |records| ==> records[i].time <= records[j].time
  }
}
