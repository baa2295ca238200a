/** The pipeline state manager: a transition table, forced transitions and an audit trail. */
module PipelineState {

  datatype Phase =
    | Running | Paused | Degraded | Quarantining | CircuitOpen | Remediating | Refetching
    | Reprocessing | Validating | ReIngesting | Resuming | RecoveryFailed | Recovered

  datatype Entry = Entry(from: Phase, to: Phase, forced: bool)

  function Allowed(from: Phase): set<Phase>
  {
    match from
    case Running => {Paused, Degraded, Quarantining, CircuitOpen}
    case Paused => {Running, Resuming}
    case Degraded => {Running, Paused, Quarantining, CircuitOpen}
    case Quarantining => {Running, Paused, Degraded, CircuitOpen}
    case CircuitOpen => {Remediating, Refetching, Resuming, Running, Paused}
    case Remediating => {Refetching, RecoveryFailed, CircuitOpen}
    case Refetching => {Reprocessing, RecoveryFailed, CircuitOpen}
    case Reprocessing => {Validating, RecoveryFailed, CircuitOpen}
    case Validating => {ReIngesting, Resuming, RecoveryFailed, CircuitOpen}
    case ReIngesting => {Resuming, RecoveryFailed, CircuitOpen}
    case Resuming => {Running, RecoveryFailed, CircuitOpen}
    case RecoveryFailed => {CircuitOpen, Remediating, Paused, Running}
    case Recovered => {Running}
  }

  // ----- The table, read by destination -------------------------------------------------------------

  /** From where each state can be entered. A recovery runs forward through its stages; any of them, and any state of
      normal operation but PAUSED, may give way to CIRCUIT_OPEN, and any stage may fail. */
  function Origins(to: Phase): set<Phase>
  {
    match to
    case Running => {Paused, Degraded, Quarantining, CircuitOpen, Resuming, RecoveryFailed, Recovered}
    case Paused => {Running, Degraded, Quarantining, CircuitOpen, RecoveryFailed}
    case Degraded => {Running, Quarantining}
    case Quarantining => {Running, Degraded}
    case CircuitOpen =>
      {Running, Degraded, Quarantining, Remediating, Refetching, Reprocessing, Validating, ReIngesting, Resuming,
       RecoveryFailed}
    case Remediating => {CircuitOpen, RecoveryFailed}
    case Refetching => {CircuitOpen, Remediating}
    case Reprocessing => {Refetching}
    case Validating => {Reprocessing}
    case ReIngesting => {Validating}
    case Resuming => {Paused, CircuitOpen, Validating, ReIngesting}
    case RecoveryFailed => {Remediating, Refetching, Reprocessing, Validating, ReIngesting, Resuming}
    case Recovered => {}
  }

  lemma EnteredExactly(from: Phase, to: Phase)
    ensures to in Allowed(from) <==> from in Origins(to)
  {
  }

  // ----- The manager ------------------------------------------------------------------------------

  /** Storing the state the pipeline is already in is always accepted. */
  predicate Accepts(from: Phase, to: Phase, force: bool)
  {
    force || to == from || to in Allowed(from)
  }

  /** The audit trail of a manager that started in `first` and is now in `current`. */
  ghost predicate Chained(first: Phase, trail: seq<Entry>, current: Phase)
  {
    && (trail == [] ==> current == first)
    && (trail != [] ==> trail[0].from == first && trail[|trail| - 1].to == current)
    && (forall i :: 0 < i < |trail| ==> trail[i - 1].to == trail[i].from)
    && (forall i :: 0 <= i < |trail| ==> Accepts(trail[i].from, trail[i].to, trail[i].forced))
  }

  class Manager {
    ghost const first: Phase
    var current: Phase
    var trail: seq<Entry>

    ghost predicate Valid()
      reads this
    {
      Chained(first, trail, current)
    }

    constructor (initial: Phase)
      ensures Valid() && first == current == initial && trail == []
    {
      first, current, trail := initial, initial, [];
    }

    predicate CanTransitionTo(target: Phase)
      reads this
    {
      target in Allowed(current)
    }

    /** Moves and records the move, or raises ValueError and changes nothing. */
    method TransitionTo(to: Phase, force: bool) returns (raised: bool)
      requires Valid()
      modifies this
      ensures Valid()
      ensures raised <==> !Accepts(old(current), to, force)
      ensures raised <==> !force && to != old(current) && old(current) !in Origins(to)
      ensures raised ==> current == old(current) && trail == old(trail)
      ensures !raised ==> current == to && trail == old(trail) + [Entry(old(current), to, force)]
    {
      EnteredExactly(current, to);
      if !force && to != current && !CanTransitionTo(to) {
        return true;
      }
      ghost var before := trail;
      trail := trail + [Entry(current, to, force)];
      current := to;
      assert trail[..|before|] == before;
      return false;
    }

    method RecordFailure()
      requires Valid()
      modifies this
      ensures Valid() && current == RecoveryFailed
      ensures trail == old(trail) + [Entry(old(current), RecoveryFailed, true)]
    {
      var raised := TransitionTo(RecoveryFailed, true);
    }
  }

  // ----- Paths ----------------------------------------------------------------------------------

  /** Forcing is used only to start a remediation or to record that one failed. */
  ghost predicate ForcedOnlyByRemediation(trail: seq<Entry>)
  {
    forall i :: 0 <= i < |trail| && trail[i].forced ==> trail[i].to in {Remediating, RecoveryFailed}
  }

  /** No run ever enters RECOVERED: no table row lists it. */
  lemma {:induction false} NeverRecovered(first: Phase, trail: seq<Entry>, current: Phase)
    requires Chained(first, trail, current) && ForcedOnlyByRemediation(trail) && first != Recovered
    ensures current != Recovered
  {
    if trail != [] {
      var n := |trail| - 1;
      assert forall i :: 0 <= i < n ==> trail[..n][i] == trail[i];
      NeverRecovered(first, trail[..n], trail[n].from);
    }
  }

  /** The stretch of the trail after the last entry to REMEDIATING enters none of these states. */
  ghost predicate AttemptAvoids(trail: seq<Entry>, start: nat, away: set<Phase>)
    requires start < |trail|
  {
    && trail[start].to == Remediating
    && (forall i :: start < i < |trail| ==> trail[i].to != Remediating && trail[i].to !in away)
  }

  /** The attempt avoids the two states that abandon it. */
  ghost predicate UnbrokenAttempt(trail: seq<Entry>, start: nat)
    requires start < |trail|
  {
    AttemptAvoids(trail, start, {CircuitOpen, RecoveryFailed})
  }

  ghost predicate Visits(trail: seq<Entry>, i: nat, phase: Phase) { i < |trail| && trail[i].to == phase }

  /** The four stages, in order, after `start`. */
  ghost predicate VisitsStages(trail: seq<Entry>, start: nat)
  {
    exists a, b, c, d :: start < a < b < c < d < |trail| &&
      Visits(trail, a, Refetching) && Visits(trail, b, Reprocessing) &&
      Visits(trail, c, Validating) && Visits(trail, d, Resuming)
  }

  /** One step back from each stage of an unbroken attempt leads to the stage it must come from. */
  lemma StageBefore(first: Phase, trail: seq<Entry>, current: Phase, start: nat, i: nat)
    requires Chained(first, trail, current) && ForcedOnlyByRemediation(trail)
    requires start < i < |trail| && UnbrokenAttempt(trail, start)
    ensures trail[i - 1].to == trail[i].to || trail[i].to in Allowed(trail[i - 1].to)
  {
    assert trail[i - 1].to == trail[i].from;
  }

  /** Every state the pipeline can be in, `i` entries into an unbroken attempt, and the stages it has
      passed to get there. */
  lemma {:induction false} Progress(first: Phase, trail: seq<Entry>, current: Phase, start: nat, i: nat)
      returns (refetch: nat, reprocess: nat, validate: nat, resume: nat)
    requires Chained(first, trail, current) && ForcedOnlyByRemediation(trail)
    requires start <= i < |trail| && UnbrokenAttempt(trail, start)
    ensures trail[i].to != Remediating ==> start < refetch <= i && Visits(trail, refetch, Refetching)
    ensures trail[i].to !in {Remediating, Refetching} ==>
              refetch < reprocess <= i && Visits(trail, reprocess, Reprocessing)
    ensures trail[i].to !in {Remediating, Refetching, Reprocessing} ==>
              reprocess < validate <= i && Visits(trail, validate, Validating)
    ensures trail[i].to !in {Remediating, Refetching, Reprocessing, Validating, ReIngesting} ==>
              validate < resume <= i && Visits(trail, resume, Resuming)
  {
    refetch, reprocess, validate, resume := 0, 0, 0, 0;
    if i > start {
      refetch, reprocess, validate, resume := Progress(first, trail, current, start, i - 1);
      StageBefore(first, trail, current, start, i);
      if trail[i].to != trail[i - 1].to {
        match trail[i].to
        case Refetching => refetch := i;
        case Reprocessing => reprocess := i;
        case Validating => validate := i;
        case Resuming =>
          if trail[i - 1].to in {Validating, ReIngesting} {
            resume := i;
          }
        case _ =>
      }
    }
  }

  /** From the last REMEDIATING, RUNNING is reached only through REFETCHING, REPROCESSING, VALIDATING
      and RESUMING, in that order, unless the attempt was abandoned on the way. */
  lemma RecoveryVisitsEveryStage(first: Phase, trail: seq<Entry>, current: Phase, start: nat)
    requires Chained(first, trail, current) && ForcedOnlyByRemediation(trail)
    requires start < |trail| && UnbrokenAttempt(trail, start) && current == Running
    ensures VisitsStages(trail, start)
  {
    var a, b, c, d := Progress(first, trail, current, start, |trail| - 1);
  }

  /** Every attempt that avoids these states and ends in RUNNING visits the four stages. */
  ghost predicate AlwaysVisitsStages(away: set<Phase>)
  {
    forall first, trail: seq<Entry>, start: nat ::
      Chained(first, trail, Running) && ForcedOnlyByRemediation(trail) && start < |trail| &&
      AttemptAvoids(trail, start, away)
      ==> VisitsStages(trail, start)
  }

  /** Straight back to RUNNING through a state that abandons the attempt. */
  lemma AbandonedAttemptSkipsStages(via: Phase, away: set<Phase>)
    requires via in {CircuitOpen, RecoveryFailed} && via !in away && Running !in away
    ensures !AlwaysVisitsStages(away)
  {
    var trail := [Entry(CircuitOpen, Remediating, true), Entry(Remediating, via, false), Entry(via, Running, false)];
    assert Chained(CircuitOpen, trail, Running) && ForcedOnlyByRemediation(trail);
    assert AttemptAvoids(trail, 0, away) && !VisitsStages(trail, 0);
  }

  /** Avoiding a set of states makes sure that every recovery visits the four stages exactly when the set
      holds both CIRCUIT_OPEN and RECOVERY_FAILED. */
  lemma StagesExactly(away: set<Phase>)
    requires Running !in away
    ensures AlwaysVisitsStages(away) <==> CircuitOpen in away && RecoveryFailed in away
  {
    if CircuitOpen !in away {
      AbandonedAttemptSkipsStages(CircuitOpen, away);
    } else if RecoveryFailed !in away {
      AbandonedAttemptSkipsStages(RecoveryFailed, away);
    } else {
      hide Chained, ForcedOnlyByRemediation, VisitsStages;
      forall first, trail: seq<Entry>, start: nat |
        Chained(first, trail, Running) && ForcedOnlyByRemediation(trail) &&
        start < |trail| && AttemptAvoids(trail, start, away)
        ensures VisitsStages(trail, start)
      {
        assert UnbrokenAttempt(trail, start);
        RecoveryVisitsEveryStage(first, trail, Running, start);
      }
    }
  }
}
