/** Duplicate detection over a rolling window: event ids and order ids use the same rule.

    The rule remembers only unexpired acceptances. The lemmas compare it with the complete log. */
module Duplicates {

  /** `Unpopulated` stands for an id that is null, blank or the word "none"; the rule skips it. */
  datatype Id = Unpopulated | Populated(name: string)
  datatype Probe = Probe(id: Id, now: int)
  datatype Accepted = Accepted(name: string, time: int)

  function Purge(seen: map<string, int>, cutoff: int): map<string, int>
  {
    map name | name in seen && seen[name] >= cutoff :: seen[name]
  }

  /** The map after a check, and whether the id was flagged as a duplicate. */
  function Validate(window: int, seen: map<string, int>, check: Probe): (map<string, int>, bool)
  {
    match check.id
    case Unpopulated => (seen, false)
    case Populated(name) =>
      var live := Purge(seen, check.now - window);
      if name in live then (live, true) else (live[name := check.now], false)
  }

  class DuplicateRule {
    const window: int
    var seen: map<string, int>

    constructor (window: int)
      ensures this.window == window && seen == map[]
    {
      this.window, seen := window, map[];
    }

    /** Collects the expired names, then deletes them one at a time. */
    method PurgeExpired(now: int)
      modifies this
      ensures seen == Purge(old(seen), now - window)
    {
      var cutoff := now - window;
      var expired := set name | name in seen && seen[name] < cutoff;
      ghost var all := expired;
      while expired != {}
        invariant expired <= all
        invariant seen == map name | name in old(seen) && name !in all - expired :: old(seen)[name]
        decreases expired
      {
        var name :| name in expired;
        seen := seen - {name};
        expired := expired - {name};
      }
    }

    method Check(id: Id, now: int) returns (passed: bool)
      modifies this
      ensures (seen, !passed) == Validate(window, old(seen), Probe(id, now))
    {
      if id.Unpopulated? {
        return true;
      }
      PurgeExpired(now);
      if id.name in seen {
        return false;
      }
      seen := seen[id.name := now];
      return true;
    }
  }

  // ----- Runs -----------------------------------------------------------------------------------

  /** The rule's map, the time each name was last accepted, and every acceptance in order. */
  datatype Track = Track(seen: map<string, int>, last: map<string, int>, log: seq<Accepted>)

  function Run(window: int, checks: seq<Probe>, n: nat): Track
    requires n <= |checks|
  {
    if n == 0 then Track(map[], map[], [])
    else
      var before := Run(window, checks, n - 1);
      var check := checks[n - 1];
      var (seen, flagged) := Validate(window, before.seen, check);
      if check.id.Unpopulated? || flagged then before.(seen := seen)
      else Track(seen, before.last[check.id.name := check.now], before.log + [Accepted(check.id.name, check.now)])
  }

  function FlaggedAt(window: int, checks: seq<Probe>, n: nat): bool
    requires n < |checks|
  {
    Validate(window, Run(window, checks, n).seen, checks[n]).1
  }

  ghost predicate Nondecreasing(checks: seq<Probe>)
  {
    forall i, j :: 0 <= i < j < |checks| ==> checks[i].now <= checks[j].now
  }

  /** The name was accepted at `cutoff` or later. */
  ghost predicate AcceptedSince(log: seq<Accepted>, name: string, cutoff: int)
  {
    exists i :: 0 <= i < |log| && log[i].name == name && log[i].time >= cutoff
  }

  lemma PurgeTwice(seen: map<string, int>, early: int, late: int)
    requires early <= late
    ensures Purge(Purge(seen, early), late) == Purge(seen, late)
  {
  }

  lemma AcceptRefines(seen: map<string, int>, last: map<string, int>, name: string, now: int, cutoff: int)
    requires Purge(seen, cutoff) == Purge(last, cutoff)
    ensures Purge(seen[name := now], cutoff) == Purge(last[name := now], cutoff)
  {
    forall other | other in seen && other != name && seen[other] >= cutoff
      ensures other in last && last[other] == seen[other]
    {
      assert other in Purge(seen, cutoff);
    }
    forall other | other in last && other != name && last[other] >= cutoff
      ensures other in seen && last[other] == seen[other]
    {
      assert other in Purge(last, cutoff);
    }
  }

  /** On a nondecreasing clock the map and the complete record of last acceptances agree on every
      cutoff still to come. */
  lemma {:induction false} SeenRefinesLast(window: int, checks: seq<Probe>, n: nat, cutoff: int)
    requires Nondecreasing(checks) && n <= |checks|
    requires n > 0 ==> cutoff >= checks[n - 1].now - window
    ensures Purge(Run(window, checks, n).seen, cutoff) == Purge(Run(window, checks, n).last, cutoff)
  {
    hide Purge;
    if n > 0 {
      SeenRefinesLast(window, checks, n - 1, cutoff);
      var before, check := Run(window, checks, n - 1), checks[n - 1];
      PurgeTwice(before.seen, check.now - window, cutoff);
      if check.id.Populated? {
        AcceptRefines(Purge(before.seen, check.now - window), before.last, check.id.name, check.now, cutoff);
      }
    }
  }

  /** `last` holds the latest acceptance of each logged name, none of them after `now`. */
  ghost predicate Summarizes(last: map<string, int>, log: seq<Accepted>, now: int)
  {
    && (forall i :: 0 <= i < |log| ==> log[i].name in last && log[i].time <= last[log[i].name] && log[i].time <= now)
    && (forall name :: name in last ==> AcceptedSince(log, name, last[name]))
  }

  lemma SummarizesAppend(last: map<string, int>, log: seq<Accepted>, earlier: int, name: string, now: int)
    requires Summarizes(last, log, earlier) && earlier <= now
    ensures Summarizes(last[name := now], log + [Accepted(name, now)], now)
  {
    var longer := log + [Accepted(name, now)];
    assert longer[|log|] == Accepted(name, now);
    forall other | other in last && other != name
      ensures AcceptedSince(longer, other, last[other])
    {
      var i :| 0 <= i < |log| && log[i].name == other && log[i].time >= last[other];
      assert longer[i] == log[i];
    }
  }

  lemma {:induction false} LastSummarizesLog(window: int, checks: seq<Probe>, n: nat)
    requires Nondecreasing(checks) && 0 < n <= |checks|
    ensures Summarizes(Run(window, checks, n).last, Run(window, checks, n).log, checks[n - 1].now)
  {
    hide Summarizes, Purge;
    var before, check := Run(window, checks, n - 1), checks[n - 1];
    var earlier := if n > 1 then checks[n - 2].now else check.now;
    assert Summarizes(before.last, before.log, earlier) by {
      if n > 1 {
        LastSummarizesLog(window, checks, n - 1);
      } else {
        SummarizesNothing(earlier);
      }
    }
    SummarizesLater(before.last, before.log, earlier, check.now);
    if check.id.Populated? {
      SummarizesAppend(before.last, before.log, earlier, check.id.name, check.now);
    }
  }

  lemma SummarizesNothing(now: int)
    ensures Summarizes(map[], [], now)
  {
  }

  lemma SummarizesLater(last: map<string, int>, log: seq<Accepted>, earlier: int, now: int)
    requires Summarizes(last, log, earlier) && earlier <= now
    ensures Summarizes(last, log, now)
  {
  }

  lemma LiveExactly(last: map<string, int>, log: seq<Accepted>, name: string, now: int, cutoff: int)
    requires Summarizes(last, log, now)
    ensures name in Purge(last, cutoff) <==> AcceptedSince(log, name, cutoff)
  {
  }

  /** An id is flagged exactly when it was accepted within the last `window`. */
  lemma FlaggedExactly(window: int, checks: seq<Probe>, n: nat)
    requires Nondecreasing(checks) && n < |checks|
    ensures FlaggedAt(window, checks, n)
       <==> checks[n].id.Populated? &&
            AcceptedSince(Run(window, checks, n).log, checks[n].id.name, checks[n].now - window)
  {
    hide Summarizes, Purge;
    if checks[n].id.Populated? && n > 0 {
      var t, cutoff, name := Run(window, checks, n), checks[n].now - window, checks[n].id.name;
      SeenRefinesLast(window, checks, n, cutoff);
      LastSummarizesLog(window, checks, n);
      LiveExactly(t.last, t.log, name, checks[n - 1].now, cutoff);
    } else {
      assert Purge(map[], checks[n].now - window) == map[] by { PurgeNothing(checks[n].now - window); }
    }
  }

  lemma PurgeNothing(cutoff: int)
    ensures Purge(map[], cutoff) == map[]
  {
  }

  /** Two acceptances of the same id are always more than the window apart. */
  lemma {:induction false} AcceptedFarApart(window: int, checks: seq<Probe>, n: nat, i: nat, j: nat)
    requires Nondecreasing(checks) && n <= |checks|
    requires i < j < |Run(window, checks, n).log|
    requires Run(window, checks, n).log[i].name == Run(window, checks, n).log[j].name
    ensures Run(window, checks, n).log[j].time - Run(window, checks, n).log[i].time > window
  {
    var before := Run(window, checks, n - 1);
    if j < |before.log| {
      AcceptedFarApart(window, checks, n - 1, i, j);
    } else {
      FlaggedExactly(window, checks, n - 1);
      assert before.log[i] == Run(window, checks, n).log[i];
    }
  }

  /** After a check of a populated id the map holds exactly the ids accepted within the window. */
  lemma SeenIsTheWindow(window: int, checks: seq<Probe>, n: nat, name: string)
    requires window >= 0 && Nondecreasing(checks) && n < |checks| && checks[n].id.Populated?
    ensures name in Run(window, checks, n + 1).seen
       <==> AcceptedSince(Run(window, checks, n + 1).log, name, checks[n].now - window)
  {
    hide Summarizes;
    var t, cutoff := Run(window, checks, n + 1), checks[n].now - window;
    SeenRefinesLast(window, checks, n + 1, cutoff);
    LastSummarizesLog(window, checks, n + 1);
    LiveExactly(t.last, t.log, name, checks[n].now, cutoff);
    SeenIsPurged(window, Run(window, checks, n).seen, checks[n]);
  }

  lemma SeenIsPurged(window: int, seen: map<string, int>, check: Probe)
    requires window >= 0 && check.id.Populated?
    ensures Purge(Validate(window, seen, check).0, check.now - window) == Validate(window, seen, check).0
  {
  }

  /** On any clock at all, a flagged id really was accepted within the window. */
  lemma {:induction false} NeverFlagsFalsely(window: int, checks: seq<Probe>, n: nat)
    requires n <= |checks|
    ensures forall name :: name in Run(window, checks, n).seen ==>
              AcceptedSince(Run(window, checks, n).log, name, Run(window, checks, n).seen[name])
    ensures n < |checks| && FlaggedAt(window, checks, n) ==>
              AcceptedSince(Run(window, checks, n).log, checks[n].id.name, checks[n].now - window)
  {
    if n > 0 {
      NeverFlagsFalsely(window, checks, n - 1);
      var before, after := Run(window, checks, n - 1), Run(window, checks, n);
      forall name | name in after.seen
        ensures AcceptedSince(after.log, name, after.seen[name])
      {
        if name in before.seen && after.seen[name] == before.seen[name] {
          var i :| 0 <= i < |before.log| && before.log[i].name == name && before.log[i].time >= before.seen[name];
          assert after.log[i] == before.log[i];
        } else {
          assert after.log[|before.log|] == Accepted(name, checks[n - 1].now);
        }
      }
    }
  }

  // ----- Any clock --------------------------------------------------------------------------------

  /** Check `a` accepted this name, and no populated check between it and check `n` came more than the
      window later than it. */
  ghost predicate Remembered(window: int, checks: seq<Probe>, a: nat, n: nat, name: string)
    requires n <= |checks|
  {
    && a < n && checks[a].id == Populated(name) && !FlaggedAt(window, checks, a)
    && forall k :: a < k < n && checks[k].id.Populated? ==> checks[k].now - checks[a].now <= window
  }

  lemma ValidateExactly(window: int, seen: map<string, int>, check: Probe, name: string)
    requires check.id.Populated?
    ensures var (after, flagged) := Validate(window, seen, check);
            && (flagged <==> check.id.name in seen && check.now - seen[check.id.name] <= window)
            && (name in after <==>
               (name == check.id.name && !flagged) || (name in seen && check.now - seen[name] <= window))
            && (name in after ==> after[name] == if name == check.id.name && !flagged then check.now else seen[name])
  {
  }

  lemma RememberedStep(window: int, checks: seq<Probe>, a: nat, n: nat, name: string)
    requires a < n <= |checks|
    ensures Remembered(window, checks, a, n, name) <==>
              if a == n - 1 then checks[a].id == Populated(name) && !FlaggedAt(window, checks, a)
              else Remembered(window, checks, a, n - 1, name) &&
                   (checks[n - 1].id.Populated? ==> checks[n - 1].now - checks[a].now <= window)
  {
    hide FlaggedAt;
  }

  /** On any clock the map holds exactly the remembered acceptances, each name's only one. */
  lemma {:induction false} SeenOnAnyClock(window: int, checks: seq<Probe>, n: nat, name: string)
    requires n <= |checks|
    ensures name in Run(window, checks, n).seen <==> exists a: nat :: Remembered(window, checks, a, n, name)
    ensures forall a: nat :: Remembered(window, checks, a, n, name) ==>
              name in Run(window, checks, n).seen && Run(window, checks, n).seen[name] == checks[a].now
  {
    hide Remembered, Validate;
    if n == 0 {
      NothingRemembered(window, checks, name);
    } else {
      SeenOnAnyClock(window, checks, n - 1, name);
      forall a: nat | a < n
        ensures Remembered(window, checks, a, n, name) <==>
                  if a == n - 1 then checks[a].id == Populated(name) && !FlaggedAt(window, checks, a)
                  else Remembered(window, checks, a, n - 1, name) &&
                       (checks[n - 1].id.Populated? ==> checks[n - 1].now - checks[a].now <= window)
      {
        RememberedStep(window, checks, a, n, name);
      }
      RememberedIsEarlier(window, checks, n, name);
      RememberedIsEarlier(window, checks, n - 1, name);
      var (before, check) := (Run(window, checks, n - 1), checks[n - 1]);
      if check.id.Populated? {
        ValidateExactly(window, before.seen, check, name);
      } else {
        UnpopulatedSkipped(window, before.seen, check);
      }
    }
  }

  lemma RememberedIsEarlier(window: int, checks: seq<Probe>, n: nat, name: string)
    requires n <= |checks|
    ensures forall a: nat :: Remembered(window, checks, a, n, name) ==> a < n
  {
  }

  lemma NothingRemembered(window: int, checks: seq<Probe>, name: string)
    ensures forall a: nat :: !Remembered(window, checks, a, 0, name)
  {
  }

  lemma UnpopulatedSkipped(window: int, seen: map<string, int>, check: Probe)
    requires check.id.Unpopulated?
    ensures Validate(window, seen, check) == (seen, false)
  {
  }

  /** On any clock, an id is flagged exactly when an earlier check accepted it at most the window before,
      and no populated check in between came more than the window after that acceptance. */
  lemma FlaggedOnAnyClock(window: int, checks: seq<Probe>, n: nat)
    requires n < |checks|
    ensures FlaggedAt(window, checks, n) <==>
              && checks[n].id.Populated?
              && exists a: nat :: a < n && Remembered(window, checks, a, n, checks[n].id.name) &&
                                  checks[n].now - checks[a].now <= window
  {
    hide Remembered, Validate;
    var seen := Run(window, checks, n).seen;
    if checks[n].id.Populated? {
      SeenOnAnyClock(window, checks, n, checks[n].id.name);
      RememberedIsEarlier(window, checks, n, checks[n].id.name);
      ValidateExactly(window, seen, checks[n], checks[n].id.name);
    } else {
      UnpopulatedSkipped(window, seen, checks[n]);
    }
  }

  /** For instance, a clock that jumps ahead and back makes the rule forget, and the
      same id is accepted twice ten seconds apart under a 300-second window. */
  lemma BackwardClockForgets()
    ensures var checks := [Probe(Populated("e"), 0), Probe(Populated("f"), 400), Probe(Populated("e"), 10)];
            !FlaggedAt(300, checks, 2) && AcceptedSince(Run(300, checks, 2).log, "e", 10 - 300)
  {
    var checks := [Probe(Populated("e"), 0), Probe(Populated("f"), 400), Probe(Populated("e"), 10)];
    assert Run(300, checks, 0) == Track(map[], map[], []);
    assert Run(300, checks, 1).seen == map["e" := 0];
    assert Run(300, checks, 2).seen == map["f" := 400];
    assert Run(300, checks, 2).log[0] == Accepted("e", 0);
  }
}
