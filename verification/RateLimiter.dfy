/** Per-client sliding-window admission for control requests.

    The middleware keeps, for each client, a pruned list of admission times. The lemmas compare that
    list with `log`, the complete list of times at which the client was ever admitted. */
module RateLimiter {

  /** `Raised` is the IndexError of indexing an empty list when the configured limit is not positive. */
  datatype Verdict = Admitted | Denied(retryAfter: int) | Raised

  /** One client: what the middleware stores, and every admission it ever granted. */
  datatype Client = Client(stored: seq<int>, log: seq<int>)

  function Prune(ts: seq<int>, cutoff: int): (kept: seq<int>)
  {
    if ts == [] then []
    else
      var front := Prune(ts[..|ts| - 1], cutoff);
      if ts[|ts| - 1] > cutoff then front + [ts[|ts| - 1]] else front
  }

  /** Times are whole microseconds, the resolution of the clock the middleware reads. */
  const SECOND := 1_000_000

  function Max(a: int, b: int): int { if a >= b then a else b }

  /** What the middleware answers when `kept` is the list left after pruning. */
  function Judge(limit: int, window: int, kept: seq<int>, now: int): Verdict
  {
    if |kept| < limit then Admitted
    else if kept == [] then Raised
    else Denied(Max(SECOND, window - (now - kept[0])) / SECOND)
  }

  /** The locked decision: the verdict and the list stored back for the client. */
  function Decide(limit: int, window: int, stored: seq<int>, now: int): (Verdict, seq<int>)
  {
    var kept := Prune(stored, now - window);
    var verdict := Judge(limit, window, kept, now);
    (verdict, match verdict case Admitted => kept + [now] case Denied(_) => kept case Raised => stored)
  }

  class Middleware {
    const limit: int
    const windowSeconds: int
    var history: map<string, seq<int>>

    constructor (limit: int, windowSeconds: int)
      ensures this.limit == limit && this.windowSeconds == windowSeconds && history == map[]
    {
      this.limit, this.windowSeconds, history := limit, windowSeconds, map[];
    }

    function Stored(ip: string): seq<int>
      reads this
    {
      if ip in history then history[ip] else []
    }

    method Dispatch(ip: string, now: int) returns (verdict: Verdict)
      modifies this
      ensures (verdict, Stored(ip)) == Decide(limit, windowSeconds * SECOND, old(Stored(ip)), now)
      ensures forall other: string :: other != ip ==> Stored(other) == old(Stored(other))
    {
      var all, cutoff := Stored(ip), now - windowSeconds * SECOND;
      var timestamps: seq<int> := [];
      for i := 0 to |all|
        invariant timestamps == Prune(all[..i], cutoff)
      {
        assert all[..i + 1][..i] == all[..i];
        if all[i] > cutoff {
          timestamps := timestamps + [all[i]];
        }
      }
      assert all[..|all|] == all;
      if |timestamps| >= limit {
        if timestamps == [] {
          return Raised;
        }
        var remaining := windowSeconds * SECOND - (now - timestamps[0]);
        history := history[ip := timestamps];
        return Denied(Max(SECOND, remaining) / SECOND);
      }
      history := history[ip := timestamps + [now]];
      return Admitted;
    }
  }

  // ----- Runs of one client ---------------------------------------------------------------------

  /** The client after its first `n` requests. */
  function Run(limit: int, window: int, times: seq<int>, n: nat): Client
    requires n <= |times|
  {
    if n == 0 then Client([], [])
    else
      var before := Run(limit, window, times, n - 1);
      var (verdict, stored) := Decide(limit, window, before.stored, times[n - 1]);
      Client(stored, if verdict.Admitted? then before.log + [times[n - 1]] else before.log)
  }

  function VerdictAt(limit: int, window: int, times: seq<int>, n: nat): Verdict
    requires n < |times|
  {
    Decide(limit, window, Run(limit, window, times, n).stored, times[n]).0
  }

  /** Every admission, of all those ever granted, that the window of request `n` still covers. */
  function RecentAt(limit: int, window: int, times: seq<int>, n: nat): seq<int>
    requires n < |times|
  {
    Prune(Run(limit, window, times, n).log, times[n] - window)
  }

  ghost predicate Sorted(ts: seq<int>) { forall i, j :: 0 <= i < j < |ts| ==> ts[i] <= ts[j] }

  /** Admissions in the half-open interval [from, to). */
  function Within(ts: seq<int>, from: int, to: int): seq<int>
  {
    if ts == [] then []
    else
      var front := Within(ts[..|ts| - 1], from, to);
      if from <= ts[|ts| - 1] < to then front + [ts[|ts| - 1]] else front
  }

  lemma {:induction false} PruneTwice(ts: seq<int>, early: int, late: int)
    requires early <= late
    ensures Prune(Prune(ts, early), late) == Prune(ts, late)
  {
    if ts != [] {
      var front, last := ts[..|ts| - 1], ts[|ts| - 1];
      PruneTwice(front, early, late);
      if last > early {
        var kept := Prune(front, early);
        assert (kept + [last])[..|kept|] == kept;
      }
    }
  }

  lemma PruneAppend(ts: seq<int>, t: int, cutoff: int)
    ensures Prune(ts + [t], cutoff) == Prune(ts, cutoff) + (if t > cutoff then [t] else [])
  {
    assert (ts + [t])[..|ts|] == ts;
  }

  lemma {:induction false} PruneNotLonger(ts: seq<int>, cutoff: int)
    ensures |Prune(ts, cutoff)| <= |ts|
  {
    if ts != [] {
      PruneNotLonger(ts[..|ts| - 1], cutoff);
    }
  }

  lemma {:induction false} PruneSorted(ts: seq<int>, cutoff: int)
    requires Sorted(ts)
    ensures Sorted(Prune(ts, cutoff))
    ensures forall i :: 0 <= i < |Prune(ts, cutoff)| ==> Prune(ts, cutoff)[i] in ts && Prune(ts, cutoff)[i] > cutoff
  {
    if ts != [] {
      var front := ts[..|ts| - 1];
      PruneSorted(front, cutoff);
      assert forall t :: t in front ==> t in ts && t <= ts[|ts| - 1];
    }
  }

  lemma {:induction false} PruneDropsHead(ts: seq<int>, cutoff: int)
    requires Sorted(ts) && ts != []
    ensures Prune(ts, cutoff) == ts <==> ts[0] > cutoff
    ensures |Prune(ts, cutoff)| < |ts| <==> ts[0] <= cutoff
  {
    PruneNotLonger(ts[..|ts| - 1], cutoff);
    if |ts| > 1 {
      PruneDropsHead(ts[..|ts| - 1], cutoff);
      assert ts[0] <= ts[|ts| - 1];
      assert ts == ts[..|ts| - 1] + [ts[|ts| - 1]];
    }
  }

  /** One request keeps the pruned list interchangeable with the full log at every later cutoff. */
  lemma DecideRefines(limit: int, window: int, stored: seq<int>, log: seq<int>, now: int, cutoff: int)
    requires Prune(stored, cutoff) == Prune(log, cutoff) && now - window <= cutoff
    ensures var (verdict, kept) := Decide(limit, window, stored, now);
            Prune(kept, cutoff) == Prune(if verdict.Admitted? then log + [now] else log, cutoff)
  {
    PruneTwice(stored, now - window, cutoff);
    PruneAppend(Prune(stored, now - window), now, cutoff);
    PruneAppend(log, now, cutoff);
  }

  /** On a nondecreasing clock the pruned list answers every later question as the full log would. */
  lemma {:induction false} StoredRefinesLog(limit: int, window: int, times: seq<int>, n: nat, cutoff: int)
    requires Sorted(times) && n <= |times|
    requires n > 0 ==> cutoff >= times[n - 1] - window
    ensures Prune(Run(limit, window, times, n).stored, cutoff) == Prune(Run(limit, window, times, n).log, cutoff)
  {
    if n > 0 {
      StoredRefinesLog(limit, window, times, n - 1, cutoff);
      var before := Run(limit, window, times, n - 1);
      DecideRefines(limit, window, before.stored, before.log, times[n - 1], cutoff);
    }
  }

  lemma {:induction false} LogSorted(limit: int, window: int, times: seq<int>, n: nat)
    requires Sorted(times) && n <= |times|
    ensures Sorted(Run(limit, window, times, n).log)
    ensures forall t :: t in Run(limit, window, times, n).log ==> n > 0 && t <= times[n - 1]
  {
    if n > 0 {
      LogSorted(limit, window, times, n - 1);
      var log := Run(limit, window, times, n - 1).log;
      assert forall i :: 0 <= i < |log| ==> log[i] in log;
    }
  }

  /** Every verdict is the one the full admission log would give. */
  lemma VerdictByHistory(limit: int, window: int, times: seq<int>, n: nat)
    requires Sorted(times) && n < |times|
    ensures VerdictAt(limit, window, times, n) == Judge(limit, window, RecentAt(limit, window, times, n), times[n])
  {
    StoredRefinesLog(limit, window, times, n, times[n] - window);
  }

  /** The admissions, of all those granted before request `n`, that are less than a window old. */
  function StillCounting(limit: int, window: int, times: seq<int>, n: nat): set<nat>
    requires n < |times|
  {
    var log := Run(limit, window, times, n).log;
    set i: nat | i < |log| && times[n] - log[i] < window
  }

  function After(ts: seq<int>, cutoff: int): set<nat> { set i: nat | i < |ts| && ts[i] > cutoff }

  lemma AfterSnoc(front: seq<int>, t: int, cutoff: int)
    ensures |After(front + [t], cutoff)| == |After(front, cutoff)| + if t > cutoff then 1 else 0
  {
    var (all, before, n) := (After(front + [t], cutoff), After(front, cutoff), |front|);
    assert n !in before;
    forall i: nat ensures i in all <==> i in before || (i == n && t > cutoff) {
      assert i < n ==> (front + [t])[i] == front[i];
    }
    hide After;
    assert all == before + if t > cutoff then {n} else {};
  }

  lemma {:induction false} PruneCounts(ts: seq<int>, cutoff: int)
    ensures |Prune(ts, cutoff)| == |After(ts, cutoff)|
  {
    if ts == [] {
      assert After(ts, cutoff) == {};
    } else {
      hide After;
      PruneCounts(ts[..|ts| - 1], cutoff);
      AfterSnoc(ts[..|ts| - 1], ts[|ts| - 1], cutoff);
      assert ts == ts[..|ts| - 1] + [ts[|ts| - 1]];
    }
  }

  /** A request is admitted exactly when fewer than `limit` of all the admissions ever granted are less than one window
      old; if not, it is denied, unless the limit is not positive and there is none. */
  lemma AdmittedExactly(limit: int, window: int, times: seq<int>, n: nat)
    requires Sorted(times) && n < |times|
    ensures VerdictAt(limit, window, times, n).Admitted? <==> |StillCounting(limit, window, times, n)| < limit
    ensures VerdictAt(limit, window, times, n).Raised? <==> limit <= 0 && StillCounting(limit, window, times, n) == {}
  {
    hide Prune, Run;
    var log := Run(limit, window, times, n).log;
    VerdictByHistory(limit, window, times, n);
    PruneCounts(log, times[n] - window);
    assert StillCounting(limit, window, times, n) == After(log, times[n] - window);
  }

  lemma {:induction false} WithinAtMostRecent(ts: seq<int>, cutoff: int, from: int, to: int)
    requires from > cutoff
    ensures |Within(ts, from, to)| <= |Prune(ts, cutoff)|
  {
    if ts != [] {
      WithinAtMostRecent(ts[..|ts| - 1], cutoff, from, to);
    }
  }

  lemma WithinAppend(ts: seq<int>, t: int, from: int, to: int)
    ensures Within(ts + [t], from, to) == Within(ts, from, to) + (if from <= t < to then [t] else [])
    ensures Within([], from, to) == []
  {
    assert (ts + [t])[..|ts|] == ts;
  }

  /** No half-open interval one window long ever holds more than `limit` admissions of a client. */
  lemma {:induction false} WindowNeverExceeded(limit: int, window: int, times: seq<int>, n: nat, from: int)
    requires limit >= 1 && Sorted(times) && n <= |times|
    ensures |Within(Run(limit, window, times, n).log, from, from + window)| <= limit
  {
    hide Prune, Within;
    if n > 0 {
      var now, log := times[n - 1], Run(limit, window, times, n - 1).log;
      WindowNeverExceeded(limit, window, times, n - 1, from);
      VerdictByHistory(limit, window, times, n - 1);
      WithinAppend(log, now, from, from + window);
      if from <= now < from + window {
        WithinAtMostRecent(log, now - window, from, from + window);
      }
    } else {
      WithinAppend([], from, from, from + window);
    }
  }

  lemma {:induction false} RecentAtMostLimit(limit: int, window: int, times: seq<int>, n: nat, cutoff: int)
    requires limit >= 1 && Sorted(times) && n <= |times|
    requires n > 0 ==> cutoff >= times[n - 1] - window
    ensures |Prune(Run(limit, window, times, n).log, cutoff)| <= limit
  {
    if n > 0 {
      RecentAtMostLimit(limit, window, times, n - 1, cutoff);
      VerdictByHistory(limit, window, times, n - 1);
      AppendAtMost(Run(limit, window, times, n - 1).log, times[n - 1], times[n - 1] - window, cutoff);
    }
  }

  lemma AppendAtMost(log: seq<int>, now: int, early: int, cutoff: int)
    requires early <= cutoff
    ensures |Prune(log + [now], cutoff)| <= |Prune(log, early)| + 1
  {
    PruneAppend(log, now, cutoff);
    PruneTwice(log, early, cutoff);
    PruneNotLonger(Prune(log, early), cutoff);
  }

  /** Request `i` was denied and nothing was admitted from then until request `j`. */
  ghost predicate DeniedSince(limit: int, window: int, times: seq<int>, i: nat, j: nat)
    requires i < j < |times|
  {
    VerdictAt(limit, window, times, i).Denied? && Run(limit, window, times, j).log == Run(limit, window, times, i).log
  }

  /** After a denial, as long as nothing was admitted since, a request is admitted exactly when the
      oldest admission of the denied window has become one whole window old. */
  lemma RetryExactly(limit: int, window: int, times: seq<int>, i: nat, j: nat)
    requires limit >= 1 && Sorted(times)
    requires i < j < |times| && DeniedSince(limit, window, times, i, j)
    ensures RecentAt(limit, window, times, i) != []
    ensures VerdictAt(limit, window, times, j).Admitted?
       <==> times[j] - RecentAt(limit, window, times, i)[0] >= window
  {
    hide Prune, Run;
    VerdictByHistory(limit, window, times, i);
    VerdictByHistory(limit, window, times, j);
    RecentAtMostLimit(limit, window, times, i, times[i] - window);
    LogSorted(limit, window, times, i);
    WindowOpens(Run(limit, window, times, i).log, limit, times[i] - window, times[j] - window);
  }

  lemma WindowOpens(log: seq<int>, limit: int, early: int, late: int)
    requires Sorted(log) && early <= late
    requires 1 <= limit == |Prune(log, early)|
    ensures |Prune(log, late)| < limit <==> Prune(log, early)[0] <= late
  {
    PruneSorted(log, early);
    PruneDropsHead(Prune(log, early), late);
    PruneTwice(log, early, late);
  }

  /** Waiting one second more than Retry-After says is always enough; waiting exactly Retry-After is
      enough only when truncation to whole seconds lost nothing. */
  lemma RetryAfterAdvice(limit: int, window: int, times: seq<int>, i: nat, j: nat)
    requires limit >= 1 && Sorted(times)
    requires i < j < |times| && DeniedSince(limit, window, times, i, j)
    ensures var advised := times[i] + VerdictAt(limit, window, times, i).retryAfter * SECOND;
            && RecentAt(limit, window, times, i) != []
            && (times[j] >= advised + SECOND ==> VerdictAt(limit, window, times, j).Admitted?)
            && (times[j] == advised ==>
                 (VerdictAt(limit, window, times, j).Admitted? <==>
                  RecentAt(limit, window, times, i)[0] + window <= advised))
  {
    RetryExactly(limit, window, times, i, j);
    VerdictByHistory(limit, window, times, i);
  }

  lemma RunNext(limit: int, window: int, times: seq<int>, n: nat, before: Client, verdict: Verdict, kept: seq<int>)
    requires n < |times| && Run(limit, window, times, n) == before
    requires Decide(limit, window, before.stored, times[n]) == (verdict, kept)
    ensures VerdictAt(limit, window, times, n) == verdict
    ensures Run(limit, window, times, n + 1) ==
              Client(kept, if verdict.Admitted? then before.log + [times[n]] else before.log)
  {
  }

  lemma DecideShort(window: int, now: int)
    ensures Decide(1, window, [], now) == (Admitted, [now])
    ensures forall t :: now - t < window ==>
              Decide(1, window, [t], now) == (Denied(Max(SECOND, window - (now - t)) / SECOND), [t])
  {
    assert Prune([], now - window) + [now] == [now];
    forall t | now - t < window ensures Prune([t], now - window) == [t] {
      assert [t][..0] == [];
    }
  }

  /** With one request a minute, a client denied half a second after its admission that waits exactly
      the advertised 59 seconds is denied again. */
  lemma RetryAfterTooShort()
    ensures var (window, half) := (60 * SECOND, SECOND / 2);
            var times := [0, half, half + 59 * SECOND];
            VerdictAt(1, window, times, 1) == Denied(59) && VerdictAt(1, window, times, 2) == Denied(1)
  {
    hide Decide, Prune, VerdictAt;
    var (window, half) := (60 * SECOND, SECOND / 2);
    var times := [0, half, half + 59 * SECOND];
    assert Run(1, window, times, 0) == Client([], []);
    hide Run;
    DecideShort(window, 0);
    RunNext(1, window, times, 0, Client([], []), Admitted, [0]);
    DecideShort(window, half);
    RunNext(1, window, times, 1, Client([0], [0]), Denied(59), [0]);
    DecideShort(window, half + 59 * SECOND);
    RunNext(1, window, times, 2, Client([0], [0]), Denied(1), [0]);
  }

  // ----- Many clients ---------------------------------------------------------------------------

  function TimesOf(requests: seq<(string, int)>, ip: string): seq<int>
  {
    if requests == [] then []
    else
      var front, last := requests[..|requests| - 1], requests[|requests| - 1];
      TimesOf(front, ip) + (if last.0 == ip then [last.1] else [])
  }

  function RunAll(limit: int, window: int, requests: seq<(string, int)>): map<string, seq<int>>
  {
    if requests == [] then map[]
    else
      var before := RunAll(limit, window, requests[..|requests| - 1]);
      var (ip, now) := requests[|requests| - 1];
      before[ip := Decide(limit, window, if ip in before then before[ip] else [], now).1]
  }

  /** What is stored for a client depends on that client's requests alone. */
  lemma {:induction false} ClientsAreIsolated(limit: int, window: int, requests: seq<(string, int)>, ip: string)
    ensures var all := RunAll(limit, window, requests);
            (if ip in all then all[ip] else []) ==
                Run(limit, window, TimesOf(requests, ip), |TimesOf(requests, ip)|).stored
  {
    hide Decide;
    if requests != [] {
      var front, last := requests[..|requests| - 1], requests[|requests| - 1];
      ClientsAreIsolated(limit, window, front, ip);
      if last.0 == ip {
        RunPrefix(limit, window, TimesOf(front, ip), [last.1], |TimesOf(front, ip)|);
      } else {
        assert TimesOf(requests, ip) == TimesOf(front, ip);
      }
    }
  }

  lemma {:induction false} RunPrefix(limit: int, window: int, times: seq<int>, more: seq<int>, n: nat)
    requires n <= |times|
    ensures Run(limit, window, times + more, n) == Run(limit, window, times, n)
  {
    if n > 0 {
      RunPrefix(limit, window, times, more, n - 1);
    }
  }
}
