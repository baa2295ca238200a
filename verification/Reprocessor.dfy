/** Re-validation of re-fetched events: the valid ones are tagged with their provenance, the others set aside. */
module Reprocessor {

  datatype Value = Null | Text(s: string) | Int(i: int) | Opaque(tag: int)
  type Event = map<string, Value>

  datatype ReprocessResult = ReprocessResult(total: nat, validCount: nat, invalidCount: nat, valid: seq<Event>,
                                             invalid: seq<Event>, rate: real)

  const INCIDENT_KEY := "_remediation_incident_id"
  const ATTEMPT_KEY := "_remediation_attempt"

  predicate FullyValid(r: ReprocessResult) { r.total > 0 && r.invalidCount == 0 }

  /** The copy of an event that is passed on; an empty incident id adds nothing. */
  function Tagged(e: Event, incident: string, attempt: int): Event
  {
    if incident == "" then e else e[INCIDENT_KEY := Text(incident)][ATTEMPT_KEY := Int(attempt)]
  }

  /** Of the first `n` events, those with the given verdict. */
  function Selected(events: seq<Event>, verdict: nat -> bool, wanted: bool, n: nat): (r: seq<Event>)
    requires n <= |events|
  {
    if n == 0 then []
    else Selected(events, verdict, wanted, n - 1) + (if verdict(n - 1) == wanted then [events[n - 1]] else [])
  }

  function AllTagged(events: seq<Event>, incident: string, attempt: int): seq<Event>
  {
    seq(|events|, i requires 0 <= i < |events| => Tagged(events[i], incident, attempt))
  }

  /** The outcome for a batch; `verdict(i)` says whether the engine, which keeps state, passes event `i`. */
  function Processed(events: seq<Event>, incident: string, attempt: int, verdict: nat -> bool): ReprocessResult
  {
    var valid, invalid := Selected(events, verdict, true, |events|), Selected(events, verdict, false, |events|);
    ReprocessResult(|events|, |valid|, |invalid|, AllTagged(valid, incident, attempt), invalid,
           if events == [] then 0.0 else |invalid| as real / |events| as real)
  }

  method Process(events: seq<Event>, incident: string, attempt: int, verdict: nat -> bool) returns (r: ReprocessResult)
    ensures r == Processed(events, incident, attempt, verdict)
  {
    if events == [] {
      return ReprocessResult(0, 0, 0, [], [], 0.0);
    }
    var valid: seq<Event>, invalid: seq<Event> := [], [];
    var validCount, invalidCount := 0, 0;
    for i := 0 to |events|
      invariant valid == AllTagged(Selected(events, verdict, true, i), incident, attempt)
      invariant invalid == Selected(events, verdict, false, i)
      invariant validCount == |valid| && invalidCount == |invalid| && validCount + invalidCount == i
    {
      if verdict(i) {
        validCount := validCount + 1;
        valid := valid + [Tagged(events[i], incident, attempt)];
      } else {
        invalidCount := invalidCount + 1;
        invalid := invalid + [events[i]];
      }
    }
    return ReprocessResult(|events|, validCount, invalidCount, valid, invalid, invalidCount as real / |events| as real);
  }

  lemma RateInRange(part: nat, whole: nat)
    requires part <= whole && whole > 0
    ensures 0.0 <= part as real / whole as real <= 1.0
    ensures part as real / whole as real == 0.0 <==> part == 0
    ensures part as real / whole as real * whole as real == part as real
  {
    assert part as real / whole as real * whole as real == part as real;
  }

  /** Event `i` is found on its own side at the position given by how many of its kind came before. */
  lemma {:induction false} Rank(events: seq<Event>, verdict: nat -> bool, i: nat, n: nat)
    requires i < n <= |events|
    ensures var rank := |Selected(events, verdict, verdict(i), i)|;
            && rank < |Selected(events, verdict, verdict(i), n)|
            && Selected(events, verdict, verdict(i), n)[rank] == events[i]
  {
    if i < n - 1 {
      Rank(events, verdict, i, n - 1);
    }
  }

  lemma AppendToEither<T>(yes: seq<T>, no: seq<T>, all: seq<T>, x: T)
    requires multiset(yes) + multiset(no) == multiset(all)
    ensures multiset(yes + [x]) + multiset(no) == multiset(all + [x]) == multiset(yes) + multiset(no + [x])
  {
  }

  lemma SelectedStep(events: seq<Event>, verdict: nat -> bool, wanted: bool, n: nat)
    requires n <= |events|
    ensures Selected(events, verdict, wanted, n)
         == if n == 0 then []
            else if verdict(n - 1) == wanted then Selected(events, verdict, wanted, n - 1) + [events[n - 1]]
            else Selected(events, verdict, wanted, n - 1)
  {
  }

  /** No event is lost, duplicated or moved past another of its kind. */
  lemma {:induction false} SelectedPartition(events: seq<Event>, verdict: nat -> bool, n: nat)
    requires n <= |events|
    ensures multiset(Selected(events, verdict, true, n)) + multiset(Selected(events, verdict, false, n)) ==
              multiset(events[..n])
  {
    hide Selected;
    SelectedStep(events, verdict, true, n);
    SelectedStep(events, verdict, false, n);
    if n > 0 {
      SelectedPartition(events, verdict, n - 1);
      AppendToEither(Selected(events, verdict, true, n - 1), Selected(events, verdict, false, n - 1), events[..n - 1],
          events[n - 1]);
      assert events[..n] == events[..n - 1] + [events[n - 1]];
    }
  }

  lemma {:induction false} AllSelected(events: seq<Event>, verdict: nat -> bool, n: nat)
    requires n <= |events| && forall i :: 0 <= i < n ==> verdict(i)
    ensures Selected(events, verdict, true, n) == events[..n]
  {
    if n > 0 {
      AllSelected(events, verdict, n - 1);
    }
  }

  lemma {:induction false} SelectedCounts(events: seq<Event>, verdict: nat -> bool, n: nat)
    requires n <= |events|
    ensures |Selected(events, verdict, true, n)| + |Selected(events, verdict, false, n)| == n
    ensures Selected(events, verdict, false, n) == [] <==> forall k :: 0 <= k < n ==> verdict(k)
  {
    if n > 0 {
      SelectedCounts(events, verdict, n - 1);
    }
  }

  /** The counts add up, the rate is the invalid share, and a batch is fully valid exactly when it is
      not empty and every event passed; then all of it is passed on, in order. */
  lemma ProcessedAddsUp(events: seq<Event>, incident: string, attempt: int, verdict: nat -> bool)
    ensures var r := Processed(events, incident, attempt, verdict);
            && r.total == |events| == r.validCount + r.invalidCount
            && 0.0 <= r.rate <= 1.0 && (r.rate == 0.0 <==> r.invalidCount == 0)
            && r.rate * r.total as real == r.invalidCount as real
            && r.validCount == |r.valid| && r.invalidCount == |r.invalid|
            && (FullyValid(r) <==> events != [] && forall k :: 0 <= k < |events| ==> verdict(k))
            && (FullyValid(r) ==> r.valid == AllTagged(events, incident, attempt))
  {
    hide Selected;
    SelectedCounts(events, verdict, |events|);
    if events != [] {
      RateInRange(|Selected(events, verdict, false, |events|)|, |events|);
    }
    if forall k :: 0 <= k < |events| ==> verdict(k) {
      AllSelected(events, verdict, |events|);
      assert events[..|events|] == events;
    }
  }

  /** The copy is the event with its provenance: the incident and the attempt under their own keys, if there is an
      incident, and every other field as it was. */
  ghost predicate Provenance(e: Event, incident: string, attempt: int, copy: Event)
  {
    && (forall key :: key !in {"_remediation_incident_id", "_remediation_attempt"} || incident == "" ==>
          (key in copy <==> key in e) && (key in e ==> copy[key] == e[key]))
    && (incident != "" ==>
          && "_remediation_incident_id" in copy && copy["_remediation_incident_id"] == Text(incident)
          && "_remediation_attempt" in copy && copy["_remediation_attempt"] == Int(attempt))
  }

  lemma TaggedHasProvenance(e: Event, incident: string, attempt: int)
    ensures Provenance(e, incident, attempt, Tagged(e, incident, attempt))
  {
    assert "_remediation_incident_id"[13] != "_remediation_attempt"[13];
  }

  /** An event that passed is passed on with its provenance, one that did not is set aside unchanged, each at the
      position given by how many of its kind came before. */
  lemma EveryEventIsPlaced(events: seq<Event>, incident: string, attempt: int, verdict: nat -> bool, i: nat)
    requires i < |events|
    ensures var r := Processed(events, incident, attempt, verdict);
            var rank := |Selected(events, verdict, verdict(i), i)|;
            if verdict(i) then rank < |r.valid| && Provenance(events[i], incident, attempt, r.valid[rank])
            else rank < |r.invalid| && r.invalid[rank] == events[i]
  {
    hide Selected, Provenance, Tagged;
    Rank(events, verdict, i, |events|);
    TaggedHasProvenance(events[i], incident, attempt);
  }
}
