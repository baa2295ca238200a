/** Primary error selection: failures ordered by severity weight, then by rule name. */
module ErrorCodes {
  import opened Wrappers
  import Lexicographic

  datatype Severity = Critical | High | Warning | Medium | Low | Info
  datatype Outcome = Outcome(rule: string, passed: bool, severity: Option<Severity>, message: string)
  datatype Key = Key(weight: int, rule: string)
  datatype Primary = Primary(code: string, message: string, rules: seq<string>)

  const FALLBACK_CODE := "DATA_QUALITY_FAILURE"

  const RULE_CODES: map<string, string> := map[
    "amount_not_null" := "NULL_AMOUNT", "order_id_not_null" := "NULL_ORDER_ID",
    "customer_id_not_null" := "NULL_CUSTOMER_ID", "product_id_not_null" := "NULL_PRODUCT_ID",
    "session_id_not_null" := "NULL_SESSION_ID", "payment_status_not_null" := "NULL_PAYMENT_STATUS",
    "currency_not_null" := "NULL_CURRENCY", "device_not_null" := "NULL_DEVICE",
    "country_not_null" := "NULL_COUNTRY", "event_id_not_null" := "NULL_EVENT_ID",
    "event_time_not_null" := "NULL_EVENT_TIME", "amount_positive" := "INVALID_AMOUNT",
    "currency_valid" := "INVALID_CURRENCY", "currency_allowed_values" := "INVALID_CURRENCY",
    "payment_status_valid" := "INVALID_PAYMENT_STATUS", "payment_status_allowed_values" := "INVALID_PAYMENT_STATUS",
    "event_time_valid" := "INVALID_TIMESTAMP", "ingestion_time_not_null" := "MISSING_INGESTION_TIME",
    "ingestion_time_valid" := "INVALID_INGESTION_TIME", "duplicate_event" := "DUPLICATE_EVENT",
    "duplicate_order" := "DUPLICATE_ORDER", "impossible_amount" := "IMPOSSIBLE_AMOUNT",
    "future_timestamp" := "FUTURE_TIMESTAMP", "late_event" := "LATE_EVENT", "schema_drift" := "SCHEMA_DRIFT",
    "malformed_json" := "MALFORMED_JSON", "syntax_error" := "MALFORMED_JSON"]

  function CodeFor(rule: string): string
  {
    if rule in RULE_CODES then RULE_CODES[rule] else FALLBACK_CODE
  }

  function Weight(severity: Option<Severity>): int
  {
    match severity
    case None => 0
    case Some(Critical) => 400
    case Some(High) => 300
    case Some(Warning) => 200
    case Some(Medium) => 200
    case Some(Low) => 100
    case Some(Info) => 100
  }

  function KeyOf(o: Outcome): Key { Key(Weight(o.severity), o.rule) }

  function Keys(os: seq<Outcome>): seq<Key> { seq(|os|, i requires 0 <= i < |os| => KeyOf(os[i])) }

  function Names(os: seq<Outcome>): seq<string> { seq(|os|, i requires 0 <= i < |os| => os[i].rule) }

  /** Heavier first; equal weights alphabetically. */
  predicate Before(a: Key, b: Key)
  {
    a.weight > b.weight || (a.weight == b.weight && Lexicographic.AtMost(a.rule, b.rule))
  }

  ghost predicate Ordered(ks: seq<Key>) { forall i, j :: 0 <= i < j < |ks| ==> Before(ks[i], ks[j]) }

  /** Places one outcome after everything that does not have to come later, so equals keep their order. */
  function Insert(sorted: seq<Outcome>, o: Outcome): (r: seq<Outcome>)
    ensures |r| == |sorted| + 1
  {
    if sorted == [] || Before(KeyOf(sorted[|sorted| - 1]), KeyOf(o)) then sorted + [o]
    else Insert(sorted[..|sorted| - 1], o) + [sorted[|sorted| - 1]]
  }

  function SortFailed(failed: seq<Outcome>): (r: seq<Outcome>)
    ensures |r| == |failed|
  {
    if failed == [] then [] else Insert(SortFailed(failed[..|failed| - 1]), failed[|failed| - 1])
  }

  function Join(parts: seq<string>, separator: string): string
  {
    if parts == [] then "" else if |parts| == 1 then parts[0] else parts[0] + separator + Join(parts[1..], separator)
  }

  function Messages(os: seq<Outcome>): seq<string>
  {
    seq(|os|, i requires 0 <= i < |os| => os[i].rule + ": " + os[i].message)
  }

  function DeterminePrimary(failed: seq<Outcome>): Primary
  {
    if failed == [] then Primary("NONE", "No failures", [])
    else
      var sorted := SortFailed(failed);
      Primary(CodeFor(sorted[0].rule),
              if |sorted| == 1 then sorted[0].message else Join(Messages(sorted), " | "),
              Names(sorted))
  }

  // ----- Sorting --------------------------------------------------------------------------------

  lemma BeforeTotal(a: Key, b: Key)
    ensures Before(a, b) || Before(b, a)
  {
    Lexicographic.Total(a.rule, b.rule);
  }

  lemma BeforeTransitive(a: Key, b: Key, c: Key)
    requires Before(a, b) && Before(b, c)
    ensures Before(a, c)
  {
    if a.weight == b.weight == c.weight {
      Lexicographic.Transitive(a.rule, b.rule, c.rule);
    }
  }

  lemma BeforeAntisymmetric(a: Key, b: Key)
    requires Before(a, b) && Before(b, a)
    ensures a == b
  {
    Lexicographic.Antisymmetric(a.rule, b.rule);
  }

  lemma OrderedAppend(ks: seq<Key>, k: Key)
    requires Ordered(ks) && (ks != [] ==> Before(ks[|ks| - 1], k))
    ensures Ordered(ks + [k])
  {
    forall i | 0 <= i < |ks| ensures Before(ks[i], k) {
      if i < |ks| - 1 {
        BeforeTransitive(ks[i], ks[|ks| - 1], k);
      }
    }
  }

  lemma {:induction false} InsertSorts(sorted: seq<Outcome>, o: Outcome)
    requires Ordered(Keys(sorted))
    ensures Ordered(Keys(Insert(sorted, o)))
    ensures multiset(Insert(sorted, o)) == multiset(sorted) + multiset{o}
  {
    hide Before;
    if sorted == [] || Before(KeyOf(sorted[|sorted| - 1]), KeyOf(o)) {
      OrderedAppend(Keys(sorted), KeyOf(o));
      assert Keys(sorted + [o]) == Keys(sorted) + [KeyOf(o)];
    } else {
      var front, last := sorted[..|sorted| - 1], sorted[|sorted| - 1];
      assert sorted == front + [last];
      assert Keys(front) == Keys(sorted)[..|front|];
      InsertSorts(front, o);
      BeforeTotal(KeyOf(o), KeyOf(last));
      var inserted := Insert(front, o);
      var e := inserted[|inserted| - 1];
      assert e in multiset(inserted);
      if e != o {
        var i :| 0 <= i < |front| && front[i] == e;
        assert Before(Keys(sorted)[i], Keys(sorted)[|front|]);
      }
      OrderedAppend(Keys(inserted), KeyOf(last));
      assert Keys(inserted + [last]) == Keys(inserted) + [KeyOf(last)];
    }
  }

  /** Sorting orders the failures and loses none. */
  lemma {:induction false} SortFailedSorts(failed: seq<Outcome>)
    ensures Ordered(Keys(SortFailed(failed)))
    ensures multiset(SortFailed(failed)) == multiset(failed)
  {
    if failed != [] {
      var front, last := failed[..|failed| - 1], failed[|failed| - 1];
      assert failed == front + [last];
      SortFailedSorts(front);
      InsertSorts(SortFailed(front), last);
    }
  }

  lemma SameHead(a: seq<Key>, b: seq<Key>)
    requires a != [] && b != [] && Ordered(a) && Ordered(b) && multiset(a) == multiset(b)
    ensures a[0] == b[0]
  {
    hide Before;
    assert a[0] in multiset(b) && b[0] in multiset(a);
    var i :| 0 <= i < |b| && b[i] == a[0];
    var j :| 0 <= j < |a| && a[j] == b[0];
    if i > 0 && j > 0 {
      BeforeAntisymmetric(a[0], b[0]);
    }
  }

  lemma TailOf<T>(a: seq<T>)
    requires a != []
    ensures multiset(a[1..]) == multiset(a) - multiset{a[0]}
  {
    assert a == [a[0]] + a[1..];
  }

  /** Only one ordered sequence has a given multiset of keys. */
  lemma {:induction false} OrderedIsUnique(a: seq<Key>, b: seq<Key>)
    requires Ordered(a) && Ordered(b) && multiset(a) == multiset(b)
    ensures a == b
  {
    hide Before;
    assert |a| == |multiset(a)| == |multiset(b)| == |b|;
    if a != [] {
      SameHead(a, b);
      TailOf(a);
      TailOf(b);
      OrderedIsUnique(a[1..], b[1..]);
      assert a == [a[0]] + a[1..] && b == [b[0]] + b[1..];
    }
  }

  function Without(ys: seq<Outcome>, i: nat): seq<Outcome>
    requires i < |ys|
  {
    ys[..i] + ys[i + 1..]
  }

  /** Deleting one element takes it out of the multiset of elements, and its key out of that of keys. */
  lemma DeleteAt(ys: seq<Outcome>, i: nat)
    requires i < |ys|
    ensures multiset(ys) == multiset(Without(ys, i)) + multiset{ys[i]}
    ensures multiset(Keys(ys)) == multiset(Keys(Without(ys, i))) + multiset{KeyOf(ys[i])}
  {
    assert ys == ys[..i] + [ys[i]] + ys[i + 1..];
    assert Keys(ys) == Keys(ys)[..i] + [KeyOf(ys[i])] + Keys(ys)[i + 1..];
    assert Keys(Without(ys, i)) == Keys(ys)[..i] + Keys(ys)[i + 1..];
  }

  lemma {:induction false} KeysPermute(xs: seq<Outcome>, ys: seq<Outcome>)
    requires multiset(xs) == multiset(ys)
    ensures multiset(Keys(xs)) == multiset(Keys(ys))
    decreases |xs|
  {
    assert |xs| == |multiset(xs)| == |multiset(ys)| == |ys|;
    if xs == [] {
      assert ys == [];
    } else {
      assert xs[0] in multiset(ys);
      var i :| 0 <= i < |ys| && ys[i] == xs[0];
      assert |Without(xs, 0)| < |xs|;
      hide Keys, KeyOf, Without;
      DeleteAt(xs, 0);
      DeleteAt(ys, i);
      assert multiset(Without(xs, 0)) == multiset(xs) - multiset{xs[0]} == multiset(Without(ys, i));
      KeysPermute(Without(xs, 0), Without(ys, i));
    }
  }

  lemma NamesFromKeys(xs: seq<Outcome>, ys: seq<Outcome>)
    requires Keys(xs) == Keys(ys)
    ensures Names(xs) == Names(ys)
  {
    assert |Keys(xs)| == |xs| && |Keys(ys)| == |ys|;
    forall i | 0 <= i < |xs| ensures xs[i].rule == ys[i].rule {
      assert Keys(xs)[i].rule == Keys(ys)[i].rule;
    }
  }

  /** Whatever order the rules were evaluated in, the primary code and the ordered rule list are the same. */
  lemma PrimaryIsCanonical(xs: seq<Outcome>, ys: seq<Outcome>)
    requires multiset(xs) == multiset(ys)
    ensures DeterminePrimary(xs).code == DeterminePrimary(ys).code
    ensures DeterminePrimary(xs).rules == DeterminePrimary(ys).rules
  {
    assert |xs| == |multiset(xs)| == |multiset(ys)| == |ys|;
    var (a, b) := (SortFailed(xs), SortFailed(ys));
    SortFailedSorts(xs);
    SortFailedSorts(ys);
    KeysPermute(a, b);
    OrderedIsUnique(Keys(a), Keys(b));
    NamesFromKeys(a, b);
    if xs != [] {
      assert Names(a)[0] == Names(b)[0];
    }
  }

  /** CRITICAL, then HIGH, then WARNING and MEDIUM alike, then LOW and INFO alike, then no severity. */
  predicate AtLeastAsSevere(a: Option<Severity>, b: Option<Severity>)
  {
    match b
    case None => true
    case Some(Low) => a.Some?
    case Some(Info) => a.Some?
    case Some(Warning) => a in {Some(Warning), Some(Medium), Some(High), Some(Critical)}
    case Some(Medium) => a in {Some(Warning), Some(Medium), Some(High), Some(Critical)}
    case Some(High) => a in {Some(High), Some(Critical)}
    case Some(Critical) => a == Some(Critical)
  }

  lemma WeightExactly(a: Option<Severity>, b: Option<Severity>)
    ensures Weight(a) >= Weight(b) <==> AtLeastAsSevere(a, b)
  {
  }

  /** `o` may stand before `p`: it is more severe, or as severe and alphabetically not later. */
  ghost predicate Precedes(o: Outcome, p: Outcome)
  {
    AtLeastAsSevere(o.severity, p.severity) &&
    (AtLeastAsSevere(p.severity, o.severity) ==> Lexicographic.AtMost(o.rule, p.rule))
  }

  lemma PrecedesExactly(o: Outcome, p: Outcome)
    ensures Precedes(o, p) <==> Before(KeyOf(o), KeyOf(p))
  {
    hide AtLeastAsSevere, Weight, Lexicographic.AtMost;
    WeightExactly(o.severity, p.severity);
    WeightExactly(p.severity, o.severity);
  }

  /** The primary failure is as severe as any, and alphabetically first among the most severe. */
  lemma PrimaryIsWorst(failed: seq<Outcome>)
    requires failed != []
    ensures exists p :: p in failed && DeterminePrimary(failed).code == CodeFor(p.rule)
                        && DeterminePrimary(failed).rules[..1] == [p.rule]
                        && forall o :: o in failed ==> Precedes(p, o)
  {
    hide Precedes, Before, CodeFor;
    var sorted := SortFailed(failed);
    SortFailedSorts(failed);
    assert sorted[0] in multiset(failed);
    forall o | o in failed ensures Precedes(sorted[0], o) {
      assert o in multiset(sorted);
      var i :| 0 <= i < |sorted| && sorted[i] == o;
      BeforeTotal(KeyOf(o), KeyOf(o));
      assert i > 0 ==> Before(Keys(sorted)[0], Keys(sorted)[i]);
      PrecedesExactly(sorted[0], o);
    }
    assert sorted[0] in failed && Names(sorted)[..1] == [sorted[0].rule];
    assert DeterminePrimary(failed).code == CodeFor(sorted[0].rule);
  }

  /** A rule without a code of its own gets the general one, and no listed rule does. */
  lemma CodeExactly(rule: string)
    ensures CodeFor(rule) == "DATA_QUALITY_FAILURE" <==> rule !in RULE_CODES
    ensures rule in RULE_CODES ==> CodeFor(rule) == RULE_CODES[rule]
  {
    assert forall code :: code in RULE_CODES.Values ==> |code| != |FALLBACK_CODE| || code[0] != FALLBACK_CODE[0];
  }

  lemma {:induction false} NamesInserted(sorted: seq<Outcome>, o: Outcome)
    ensures multiset(Names(Insert(sorted, o))) == multiset(Names(sorted)) + multiset{o.rule}
  {
    hide Before;
    if sorted == [] || Before(KeyOf(sorted[|sorted| - 1]), KeyOf(o)) {
      assert Names(sorted + [o]) == Names(sorted) + [o.rule];
    } else {
      var front, last := sorted[..|sorted| - 1], sorted[|sorted| - 1];
      NamesInserted(front, o);
      assert Names(sorted) == Names(front) + [last.rule];
      assert Names(Insert(front, o) + [last]) == Names(Insert(front, o)) + [last.rule];
    }
  }

  /** The listed rules are the rules that failed, each as often as it failed. */
  lemma {:induction false} RulesAreTheFailed(failed: seq<Outcome>)
    ensures multiset(DeterminePrimary(failed).rules) == multiset(Names(failed))
  {
    hide Insert;
    if failed != [] {
      NamesSorted(failed);
    }
  }

  lemma {:induction false} NamesSorted(failed: seq<Outcome>)
    ensures multiset(Names(SortFailed(failed))) == multiset(Names(failed))
  {
    hide Insert;
    if failed != [] {
      var front, last := failed[..|failed| - 1], failed[|failed| - 1];
      NamesSorted(front);
      NamesInserted(SortFailed(front), last);
      assert Names(failed) == Names(front) + [last.rule];
    }
  }

  /** When no rule failed twice at one weight, the whole result, message included, is canonical. */
  lemma ResultIsCanonical(xs: seq<Outcome>, ys: seq<Outcome>)
    requires multiset(xs) == multiset(ys)
    requires forall o, p :: o in xs && p in xs && KeyOf(o) == KeyOf(p) ==> o == p
    ensures DeterminePrimary(xs) == DeterminePrimary(ys)
  {
    assert |xs| == |multiset(xs)| == |multiset(ys)| == |ys|;
    var (a, b) := (SortFailed(xs), SortFailed(ys));
    SortFailedSorts(xs);
    SortFailedSorts(ys);
    KeysPermute(a, b);
    OrderedIsUnique(Keys(a), Keys(b));
    forall i | 0 <= i < |a| ensures a[i] == b[i] {
      assert a[i] in multiset(xs) && b[i] in multiset(xs);
      assert KeyOf(a[i]) == Keys(a)[i] == Keys(b)[i] == KeyOf(b[i]);
    }
    assert a == b;
  }
}
