/** What a schema verdict means for events. */
module SchemaMeaning {
  import opened Wrappers
  import opened SchemaCompatibility
  import opened SchemaVerdicts

  datatype Value =
    | Str(s: string) | Int(i: int) | Real(r: real) | Bool(b: bool) | Time(t: int) | Obj | Arr | Custom(kind: string)

  /** A null value counts as an absent field. */
  type Event = map<string, Value>

  /** Numbers widen: an integer is also a long, a float and a double. */
  predicate HasType(v: Value, t: Type)
  {
    match t
    case Text => v.Str?
    case Integer => v.Int?
    case Long => v.Int?
    case Float => v.Int? || v.Real?
    case Double => v.Int? || v.Real?
    case Boolean => v.Bool?
    case Timestamp => v.Time?
    case Object => v.Obj?
    case Array => v.Arr?
    case Other(name) => v == Custom(name)
  }

  predicate Constrained(f: Field) { f.values.Some? && f.values.value != [] }

  /** The field takes this value, or its absence. */
  predicate Takes(f: Field, v: Option<Value>)
  {
    match v
    case None => !f.required
    case Some(x) => HasType(x, f.typ) && (Constrained(f) ==> x.Str? && x.s in f.values.value)
  }

  function Get(e: Event, name: string): Option<Value> { if name in e then Some(e[name]) else None }

  /** Fields the schema does not mention are ignored. */
  ghost predicate Accepts(s: Schema, e: Event)
  {
    forall name :: name in s.fields ==> Takes(s.fields[name], Get(e, name))
  }

  ghost predicate OnlyFieldsOf(s: Schema, e: Event) { forall name :: name in e ==> name in s.fields }

  // ----- Renamed events -----------------------------------------------------------------------------

  /** The name under which the actual schema finds an expected field. */
  function KeyOf(renames: map<string, string>, actual: Schema, name: string): string
  {
    match RenameTarget(renames, actual, name) case Some(target) => target case None => name
  }

  /** No two expected fields end up under one name. */
  ghost predicate Injective(renames: map<string, string>, expected: Schema, actual: Schema)
  {
    forall a, b ::
      a in expected.fields && b in expected.fields && KeyOf(renames, actual, a) == KeyOf(renames, actual, b)
      ==> a == b
  }

  /** The event with its fields renamed. */
  function Renamed(renames: map<string, string>, expected: Schema, actual: Schema, e: Event): Event
    requires Injective(renames, expected, actual) && OnlyFieldsOf(expected, e)
  {
    map name | name in e :: KeyOf(renames, actual, name) := e[name]
  }

  /** Every event the old schema accepts, carrying only its fields, is accepted by the new one once renamed. */
  ghost predicate AllAccepted(renames: map<string, string>, expected: Schema, actual: Schema)
    requires Injective(renames, expected, actual)
  {
    forall e: Event :: Accepts(expected, e) && OnlyFieldsOf(expected, e)
                       ==> Accepts(actual, Renamed(renames, expected, actual, e))
  }

  lemma GetRenamed(renames: map<string, string>, expected: Schema, actual: Schema, e: Event, name: string)
    requires Injective(renames, expected, actual) && OnlyFieldsOf(expected, e) && name in expected.fields
    ensures Get(Renamed(renames, expected, actual, e), KeyOf(renames, actual, name)) == Get(e, name)
  {
    hide KeyOf;
    var (r, key) := (Renamed(renames, expected, actual, e), KeyOf(renames, actual, name));
    if key in r {
      var other :| other in e && KeyOf(renames, actual, other) == key;
      assert other == name;
    }
  }

  lemma TakenExactly(renames: map<string, string>, expected: Schema, actual: Schema, key: string)
    requires key in actual.fields
    ensures Taken(renames, expected, actual, key)
       <==> exists name :: name in expected.fields && KeyOf(renames, actual, name) == key
  {
    forall name ensures key in MatchedBy(renames, actual, name) <==> KeyOf(renames, actual, name) == key {
    }
  }

  lemma UntakenIsAbsent(renames: map<string, string>, expected: Schema, actual: Schema, e: Event, key: string)
    requires Injective(renames, expected, actual) && OnlyFieldsOf(expected, e)
    requires key in actual.fields && !Taken(renames, expected, actual, key)
    ensures Get(Renamed(renames, expected, actual, e), key) == None
  {
    hide KeyOf;
    TakenExactly(renames, expected, actual, key);
  }

  // ----- One field --------------------------------------------------------------------------------

  predicate EnumFits(from: Field, to: Field)
  {
    Constrained(to) ==> Constrained(from) && EnumSet(from) <= EnumSet(to)
  }

  /** Whatever the old field takes, the new one takes. */
  predicate Widens(from: Field, to: Field)
  {
    TypeFits(from.typ, to.typ) && (to.required ==> from.required) && EnumFits(from, to)
  }

  lemma WideningKeepsType(v: Value, from: Type, to: Type)
    requires HasType(v, from) && TypeFits(from, to)
    ensures HasType(v, to)
  {
  }

  lemma WidensTakes(from: Field, to: Field, v: Option<Value>)
    requires Widens(from, to) && Takes(from, v)
    ensures Takes(to, v)
  {
    if v.Some? {
      hide HasType;
      WideningKeepsType(v.value, from.typ, to.typ);
      if Constrained(to) {
        assert v.value.s in EnumSet(from);
      }
    }
  }

  /** Supported types only, and enums only on text. */
  predicate PlainField(f: Field) { Supported(f.typ) && (Constrained(f) ==> f.typ == Text) }

  ghost predicate Plain(s: Schema) { forall name :: name in s.fields ==> PlainField(s.fields[name]) }

  function Sample(f: Field): Value
  {
    if Constrained(f) then Str(f.values.value[0])
    else
      match f.typ
      case Text => Str("")
      case Integer => Int(0)
      case Float => Real(0.5)
      case Boolean => Bool(true)
      case Timestamp => Time(0)
      case Object => Obj
      case Array => Arr
      case Long => Int(0)
      case Double => Real(0.5)
      case Other(name) => Custom(name)
  }

  /** A string longer than all of the values. */
  function Longer(values: seq<string>): (s: string)
    ensures forall i :: 0 <= i < |values| ==> |values[i]| < |s|
  {
    if values == [] then "x"
    else
      var rest := Longer(values[1..]);
      assert forall i :: 0 < i < |values| ==> values[i] == values[1..][i - 1];
      if |values[0]| < |rest| then rest else values[0] + "x"
  }

  lemma SampleTaken(f: Field)
    requires PlainField(f)
    ensures Takes(f, Some(Sample(f)))
  {
  }

  lemma SampleUnfit(from: Field, to: Field)
    requires PlainField(from) && PlainField(to) && !TypeFits(from.typ, to.typ)
    ensures !Takes(to, Some(Sample(from)))
  {
  }

  /** A field that does not widen has a value, or an absence, to show for it. */
  lemma NotWidensShows(from: Field, to: Field) returns (v: Option<Value>)
    requires PlainField(from) && PlainField(to) && !Widens(from, to)
    ensures Takes(from, v) && !Takes(to, v)
  {
    if !TypeFits(from.typ, to.typ) {
      SampleTaken(from);
      SampleUnfit(from, to);
      v := Some(Sample(from));
    } else if to.required && !from.required {
      v := None;
    } else if !Constrained(from) {
      assert Longer(to.values.value) !in to.values.value;
      v := Some(Str(Longer(to.values.value)));
    } else {
      DifferenceEmpty(EnumSet(from), EnumSet(to));
      var s :| s in EnumSet(from) - EnumSet(to);
      v := Some(Str(s));
    }
  }

  // ----- All events -------------------------------------------------------------------------------

  /** Field by field: what is matched widens, and what is matched with nothing is optional. */
  ghost predicate EventSafe(renames: map<string, string>, expected: Schema, actual: Schema)
  {
    && (forall name :: name in expected.fields && KeyOf(renames, actual, name) in actual.fields ==>
          Widens(expected.fields[name], actual.fields[KeyOf(renames, actual, name)]))
    && (forall key :: key in actual.fields && !Taken(renames, expected, actual, key) ==> !actual.fields[key].required)
  }

  lemma SafeAccepts(renames: map<string, string>, expected: Schema, actual: Schema, e: Event)
    requires Injective(renames, expected, actual) && EventSafe(renames, expected, actual)
    requires Accepts(expected, e) && OnlyFieldsOf(expected, e)
    ensures Accepts(actual, Renamed(renames, expected, actual, e))
  {
    hide Widens, Takes, KeyOf, Taken, Injective;
    var r := Renamed(renames, expected, actual, e);
    forall key | key in actual.fields ensures Takes(actual.fields[key], Get(r, key)) {
      if Taken(renames, expected, actual, key) {
        TakenExactly(renames, expected, actual, key);
        var name :| name in expected.fields && KeyOf(renames, actual, name) == key;
        GetRenamed(renames, expected, actual, e, name);
        WidensTakes(expected.fields[name], actual.fields[key], Get(e, name));
      } else {
        UntakenIsAbsent(renames, expected, actual, e, key);
        TakesNothing(actual.fields[key]);
      }
    }
  }

  lemma TakesNothing(f: Field)
    ensures Takes(f, None) <==> !f.required
  {
  }

  /** An event of the old schema with every field present. */
  function SampleEvent(s: Schema): Event { map name | name in s.fields :: Sample(s.fields[name]) }

  /** The sample with one field set to a value, or removed. */
  function SampleWith(s: Schema, name: string, v: Option<Value>): Event
  {
    if v.Some? then SampleEvent(s)[name := v.value] else SampleEvent(s) - {name}
  }

  lemma SampleAccepted(s: Schema, name: string, v: Option<Value>)
    requires Plain(s) && name in s.fields && Takes(s.fields[name], v)
    ensures Accepts(s, SampleWith(s, name, v)) && OnlyFieldsOf(s, SampleWith(s, name, v))
    ensures Get(SampleWith(s, name, v), name) == v
  {
    hide Takes, Sample, PlainField;
    forall other | other in s.fields ensures Takes(s.fields[other], Get(SampleWith(s, name, v), other)) {
      SampleTaken(s.fields[other]);
    }
  }

  lemma SampleEventAccepted(s: Schema)
    requires Plain(s)
    ensures Accepts(s, SampleEvent(s)) && OnlyFieldsOf(s, SampleEvent(s))
  {
    hide Takes, Sample, PlainField;
    forall other | other in s.fields ensures Takes(s.fields[other], Get(SampleEvent(s), other)) {
      SampleTaken(s.fields[other]);
    }
  }

  lemma UnsafeRejects(renames: map<string, string>, expected: Schema, actual: Schema) returns (e: Event)
    requires Plain(expected) && Plain(actual) && Injective(renames, expected, actual)
    requires !EventSafe(renames, expected, actual)
    ensures Accepts(expected, e) && OnlyFieldsOf(expected, e) && !Accepts(actual, Renamed(renames, expected, actual, e))
  {
    hide Widens, Takes, KeyOf, Taken, Injective, PlainField;
    if name :| name in expected.fields && KeyOf(renames, actual, name) in actual.fields
               && !Widens(expected.fields[name], actual.fields[KeyOf(renames, actual, name)]) {
      var v := NotWidensShows(expected.fields[name], actual.fields[KeyOf(renames, actual, name)]);
      SampleAccepted(expected, name, v);
      e := SampleWith(expected, name, v);
      GetRenamed(renames, expected, actual, e, name);
      assert !Takes(actual.fields[KeyOf(renames, actual, name)],
                    Get(Renamed(renames, expected, actual, e), KeyOf(renames, actual, name)));
    } else {
      var key :| key in actual.fields && !Taken(renames, expected, actual, key) && actual.fields[key].required;
      SampleEventAccepted(expected);
      e := SampleEvent(expected);
      UntakenIsAbsent(renames, expected, actual, e, key);
      TakesNothing(actual.fields[key]);
      assert !Takes(actual.fields[key], Get(Renamed(renames, expected, actual, e), key));
    }
  }

  /** For every pair of plain schemas and every injective renaming: all old events are accepted if and only
      if every matched field widens and every other new field is optional. */
  lemma AcceptedExactly(renames: map<string, string>, expected: Schema, actual: Schema)
    requires Plain(expected) && Plain(actual) && Injective(renames, expected, actual)
    ensures AllAccepted(renames, expected, actual) <==> EventSafe(renames, expected, actual)
  {
    hide EventSafe, Accepts, OnlyFieldsOf, Plain, Injective;
    if EventSafe(renames, expected, actual) {
      forall e: Event | Accepts(expected, e) && OnlyFieldsOf(expected, e)
        ensures Accepts(actual, Renamed(renames, expected, actual, e))
      {
        SafeAccepts(renames, expected, actual, e);
      }
    } else {
      var e := UnsafeRejects(renames, expected, actual);
    }
  }

  // ----- The verdict against the events -------------------------------------------------------------

  /** A field present under its own name in both schemas. */
  predicate Common(renames: map<string, string>, expected: Schema, actual: Schema, name: string)
  {
    name in expected.fields && name in actual.fields && RenameTarget(renames, actual, name).None?
  }

  /** A field that took any value of its type is now limited to an enum. */
  ghost predicate GainsEnum(renames: map<string, string>, expected: Schema, actual: Schema)
  {
    exists name :: Common(renames, expected, actual, name) &&
                   !Constrained(expected.fields[name]) && Constrained(actual.fields[name])
  }

  ghost predicate LiftsEnum(renames: map<string, string>, expected: Schema, actual: Schema)
  {
    exists name :: Common(renames, expected, actual, name) &&
                   Constrained(expected.fields[name]) && !Constrained(actual.fields[name])
  }

  ghost predicate RemovesRequired(renames: map<string, string>, expected: Schema, actual: Schema)
  {
    exists name :: name in expected.fields && name !in actual.fields && RenameTarget(renames, actual, name).None? &&
                   expected.fields[name].required
  }

  /** No renamed column became required, gained an enum or lost values of one. */
  ghost predicate PairsFit(renames: map<string, string>, expected: Schema, actual: Schema)
  {
    forall name :: name in expected.fields && RenameTarget(renames, actual, name).Some? ==>
      var to := actual.fields[KeyOf(renames, actual, name)];
      (to.required ==> expected.fields[name].required) && EnumFits(expected.fields[name], to)
  }

  /** The actual schema still requires a column under an old name that has been renamed away. */
  ghost predicate StaleRequired(renames: map<string, string>, expected: Schema, actual: Schema)
  {
    exists key :: key in actual.fields && key in expected.fields && !Taken(renames, expected, actual, key) &&
                  actual.fields[key].required
  }

  lemma FieldAgainstEvents(from: Field, to: Field)
    ensures FieldSafe(from, to) && (Constrained(to) ==> Constrained(from))
       <==> Widens(from, to) && (Constrained(from) ==> Constrained(to))
  {
    EnumSetEmpty(from);
    EnumSetEmpty(to);
  }

  lemma EnumSetEmpty(f: Field)
    ensures EnumSet(f) == {} <==> !Constrained(f)
  {
    if Constrained(f) {
      assert f.values.value[0] in EnumSet(f);
    }
  }

  lemma TargetKept(renames: map<string, string>, expected: Schema, actual: Schema, name: string)
    requires name in expected.fields
    ensures RenameTarget(renames, actual, name).Some? ==>
              KeyOf(renames, actual, name) == RenameTarget(renames, actual, name).value &&
              KeyOf(renames, actual, name) in actual.fields
    ensures RenameTarget(renames, actual, name).None? ==> KeyOf(renames, actual, name) == name
  {
  }

  /** What `compatible` checks, plus what it overlooks, is what events need, plus what it asks for in vain. */
  lemma PassesExactly(renames: map<string, string>, expected: Schema, actual: Schema)
    ensures && Passes(renames, expected, actual) && !GainsEnum(renames, expected, actual)
            && PairsFit(renames, expected, actual) && !StaleRequired(renames, expected, actual)
       <==> && EventSafe(renames, expected, actual) && !LiftsEnum(renames, expected, actual)
            && !RemovesRequired(renames, expected, actual)
  {
    hide FieldSafe, Widens, TypeFits, EnumFits, Constrained, RenameTarget, KeyOf, Taken;
    forall name | name in expected.fields
      ensures FieldAgrees(renames, expected, actual, name)
    {
      AgreesField(renames, expected, actual, name);
    }
  }

  /** The equivalence for one expected field. */
  ghost predicate FieldAgrees(renames: map<string, string>, expected: Schema, actual: Schema, name: string)
    requires name in expected.fields
  {
    var (from, key) := (expected.fields[name], KeyOf(renames, actual, name));
    if RenameTarget(renames, actual, name).Some? then
      key in actual.fields &&
      (FieldPasses(renames, expected, actual, name) && (actual.fields[key].required ==> from.required)
         && EnumFits(from, actual.fields[key])
       <==> Widens(from, actual.fields[key]))
    else if name in actual.fields then
      key == name &&
      (FieldPasses(renames, expected, actual, name) && (Constrained(actual.fields[name]) ==> Constrained(from))
       <==> Widens(from, actual.fields[name]) && (Constrained(from) ==> Constrained(actual.fields[name])))
    else
      key == name && (FieldPasses(renames, expected, actual, name) <==> !from.required)
  }

  lemma AgreesField(renames: map<string, string>, expected: Schema, actual: Schema, name: string)
    requires name in expected.fields
    ensures FieldAgrees(renames, expected, actual, name)
  {
    hide FieldSafe, TypeFits, EnumFits, Constrained, RenameTarget, KeyOf;
    TargetKept(renames, expected, actual, name);
    if RenameTarget(renames, actual, name).None? && name in actual.fields {
      hide Widens;
      FieldAgainstEvents(expected.fields[name], actual.fields[name]);
    }
  }

  /** For plain schemas and an injective renaming, a compatible verdict means that every renamed event is
      accepted if and only if no renamed column became required or stricter in its enum, no other column
      gained an enum, and no old name is still required. */
  lemma RenamesExactly(renames: map<string, string>, expected: Schema, actual: Schema)
    requires WellFormed(expected) && WellFormed(actual) && Plain(expected) && Plain(actual)
    requires Injective(renames, expected, actual) && Judge(renames, expected, actual).compatible
    ensures AllAccepted(renames, expected, actual)
       <==> && PairsFit(renames, expected, actual) && !GainsEnum(renames, expected, actual)
            && !StaleRequired(renames, expected, actual)
  {
    VerdictAgainstEvents(renames, expected, actual);
    VerdictWithRenames(renames, expected, actual);
    PassesNoFalseAlarm(renames, expected, actual);
  }

  lemma PassesNoFalseAlarm(renames: map<string, string>, expected: Schema, actual: Schema)
    requires Passes(renames, expected, actual)
    ensures !LiftsEnum(renames, expected, actual) && !RemovesRequired(renames, expected, actual)
  {
    hide RenameTarget, Taken;
    forall name | Common(renames, expected, actual, name)
      ensures !(Constrained(expected.fields[name]) && !Constrained(actual.fields[name]))
    {
      assert FieldPasses(renames, expected, actual, name);
      EnumSetEmpty(expected.fields[name]);
      EnumSetEmpty(actual.fields[name]);
    }
    forall name | name in expected.fields && name !in actual.fields && RenameTarget(renames, actual, name).None?
      ensures !expected.fields[name].required
    {
      assert FieldPasses(renames, expected, actual, name);
    }
  }

  /** The verdict and the events differ exactly by what each side overlooks. */
  lemma VerdictAgainstEvents(renames: map<string, string>, expected: Schema, actual: Schema)
    requires WellFormed(expected) && WellFormed(actual) && Plain(expected) && Plain(actual)
    requires Injective(renames, expected, actual)
    ensures && Judge(renames, expected, actual).compatible && !GainsEnum(renames, expected, actual)
            && PairsFit(renames, expected, actual) && !StaleRequired(renames, expected, actual)
       <==> && AllAccepted(renames, expected, actual) && !LiftsEnum(renames, expected, actual)
            && !RemovesRequired(renames, expected, actual)
  {
    hide Judge, Passes, EventSafe, AllAccepted, GainsEnum, LiftsEnum, PairsFit, StaleRequired, RemovesRequired;
    VerdictWithRenames(renames, expected, actual);
    AcceptedExactly(renames, expected, actual);
    PassesExactly(renames, expected, actual);
  }

  // ----- Without renames ----------------------------------------------------------------------------

  /** Every event the old schema accepts, carrying only its fields, is accepted by the new one. */
  ghost predicate EventsKept(expected: Schema, actual: Schema)
  {
    forall e: Event :: Accepts(expected, e) && OnlyFieldsOf(expected, e) ==> Accepts(actual, e)
  }

  lemma NoRenames(expected: Schema, actual: Schema)
    ensures Injective(map[], expected, actual)
    ensures AllAccepted(map[], expected, actual) <==> EventsKept(expected, actual)
    ensures PairsFit(map[], expected, actual) && !StaleRequired(map[], expected, actual)
  {
    hide Accepts;
    assert forall name :: RenameTarget(map[], actual, name).None? && KeyOf(map[], actual, name) == name;
    forall e: Event | OnlyFieldsOf(expected, e) ensures Renamed(map[], expected, actual, e) == e {
    }
    forall key | key in actual.fields && key in expected.fields ensures Taken(map[], expected, actual, key) {
      assert key in MatchedBy(map[], actual, key);
    }
  }

  /** `compatible` means what it says as long as no field gains an enum, and, for plain schemas, only then. */
  lemma CompatibleIsSound(expected: Schema, actual: Schema)
    requires WellFormed(expected) && WellFormed(actual) && Judge(map[], expected, actual).compatible
    ensures !GainsEnum(map[], expected, actual) ==> EventsKept(expected, actual)
    ensures Plain(expected) && Plain(actual) ==> (EventsKept(expected, actual) <==> !GainsEnum(map[], expected, actual))
  {
    hide Judge, Passes, EventSafe, EventsKept, GainsEnum, PairsFit, StaleRequired, Accepts, OnlyFieldsOf;
    NoRenames(expected, actual);
    VerdictWithRenames(map[], expected, actual);
    PassesExactly(map[], expected, actual);
    if !GainsEnum(map[], expected, actual) {
      forall e: Event | Accepts(expected, e) && OnlyFieldsOf(expected, e)
        ensures Accepts(actual, Renamed(map[], expected, actual, e))
      {
        SafeAccepts(map[], expected, actual, e);
      }
    }
    if Plain(expected) && Plain(actual) {
      RenamesExactly(map[], expected, actual);
    }
  }

  /** For all plain schemas the verdict and the events part exactly at enums gained, which it overlooks, and
      at enums lifted and required columns removed, which it refuses in vain. */
  lemma CompatibleExactly(expected: Schema, actual: Schema)
    requires WellFormed(expected) && WellFormed(actual) && Plain(expected) && Plain(actual)
    ensures Judge(map[], expected, actual).compatible && !GainsEnum(map[], expected, actual)
       <==> EventsKept(expected, actual) && !LiftsEnum(map[], expected, actual) &&
            !RemovesRequired(map[], expected, actual)
    ensures Judge(map[], expected, actual).compatible && !EventsKept(expected, actual)
       <==> Judge(map[], expected, actual).compatible && GainsEnum(map[], expected, actual)
    ensures !Judge(map[], expected, actual).compatible && EventsKept(expected, actual)
       <==> EventsKept(expected, actual) &&
            (LiftsEnum(map[], expected, actual) || RemovesRequired(map[], expected, actual))
  {
    hide Judge, EventsKept, AllAccepted, GainsEnum, LiftsEnum, RemovesRequired, Plain, Passes;
    NoRenames(expected, actual);
    VerdictAgainstEvents(map[], expected, actual);
    VerdictWithRenames(map[], expected, actual);
    if Judge(map[], expected, actual).compatible {
      CompatibleIsSound(expected, actual);
      PassesNoFalseAlarm(map[], expected, actual);
    }
    if EventsKept(expected, actual) {
      KeptGainsNothing(expected, actual);
    }
  }

  lemma KeptGainsNothing(expected: Schema, actual: Schema)
    requires Plain(expected) && Plain(actual) && EventsKept(expected, actual)
    ensures !GainsEnum(map[], expected, actual)
  {
    hide EventsKept, Accepts;
    NoRenames(expected, actual);
    AcceptedExactly(map[], expected, actual);
    assert forall name :: KeyOf(map[], actual, name) == name;
  }

  // ----- What the verdict overlooks -----------------------------------------------------------------

  function WithField(s: Schema, name: string, f: Field): Schema { s.(fields := s.fields[name := f]) }

  /** Putting an enum on any free text field of any schema passes as compatible, and rejects an event that
      was accepted. */
  lemma EnumIntroduced(s: Schema, name: string, values: seq<string>)
    requires WellFormed(s) && Plain(s) && name in s.fields && s.fields[name].typ == Text
    requires !Constrained(s.fields[name]) && values != []
    ensures var limited := WithField(s, name, s.fields[name].(values := Some(values)));
            WellFormed(limited) && Judge(map[], s, limited).compatible && !EventsKept(s, limited)
  {
    hide Judge, EventsKept;
    var limited := WithField(s, name, s.fields[name].(values := Some(values)));
    EnumSetEmpty(s.fields[name]);
    VerdictMeaning(s, limited);
    assert Common(map[], s, limited, name);
    CompatibleIsSound(s, limited);
  }

  /** Events may carry keys the old schema does not know. */
  ghost predicate AllEventsKept(expected: Schema, actual: Schema)
  {
    forall e: Event :: Accepts(expected, e) ==> Accepts(actual, e)
  }

  ghost predicate AddsNothing(expected: Schema, actual: Schema)
  {
    forall name :: name in actual.fields ==> name in expected.fields
  }

  /** The event without the keys the schema does not know. */
  function Trimmed(s: Schema, e: Event): Event { map name | name in e && name in s.fields :: e[name] }

  lemma TrimmedKept(expected: Schema, actual: Schema, e: Event)
    requires EventsKept(expected, actual) && AddsNothing(expected, actual) && Accepts(expected, e)
    ensures Accepts(actual, e)
  {
    hide Takes;
    var t := Trimmed(expected, e);
    assert forall name :: name in expected.fields ==> Get(t, name) == Get(e, name);
    assert Accepts(expected, t) && OnlyFieldsOf(expected, t);
    assert Accepts(actual, t);
  }

  /** An added column meets events that carried anything at all under its name. */
  lemma AddedColumnClashes(expected: Schema, actual: Schema, name: string) returns (e: Event)
    requires Plain(expected) && Plain(actual) && name in actual.fields && name !in expected.fields
    ensures Accepts(expected, e) && !Accepts(actual, e)
  {
    hide Sample;
    var odd := Custom("");
    SampleEventAccepted(expected);
    e := SampleEvent(expected)[name := odd];
    assert forall other :: other in expected.fields ==> Get(e, other) == Get(SampleEvent(expected), other);
    assert !Takes(actual.fields[name], Get(e, name));
  }

  /** For all plain schemas: events with extra keys are kept too exactly when events without are, and no column
      is added. After a compatible verdict that means: no enum gained and no column added. */
  lemma ExtraKeysExactly(expected: Schema, actual: Schema)
    requires WellFormed(expected) && WellFormed(actual) && Plain(expected) && Plain(actual)
    ensures AllEventsKept(expected, actual) <==> EventsKept(expected, actual) && AddsNothing(expected, actual)
    ensures Judge(map[], expected, actual).compatible ==>
              (AllEventsKept(expected, actual) <==>
               !GainsEnum(map[], expected, actual) && AddsNothing(expected, actual))
  {
    hide Judge, Accepts, OnlyFieldsOf, GainsEnum, Plain;
    if EventsKept(expected, actual) && AddsNothing(expected, actual) {
      forall e: Event | Accepts(expected, e) ensures Accepts(actual, e) {
        TrimmedKept(expected, actual, e);
      }
    }
    if name :| name in actual.fields && name !in expected.fields {
      var e := AddedColumnClashes(expected, actual, name);
    }
    if Judge(map[], expected, actual).compatible {
      CompatibleIsSound(expected, actual);
    }
  }

  /** A renamed column is checked for its type only, whatever becomes of its required flag and enum; its
      events are accepted exactly when the field widens. */
  lemma RenameUnchecked(f: string, g: string, from: Field, to: Field)
    requires g != "" && f != g && PlainField(from) && PlainField(to)
    ensures var (a, b) := (One(f, from), One(g, to));
            && Injective(map[f := g], a, b)
            && (Judge(map[f := g], a, b).compatible <==> TypeFits(from.typ, to.typ))
            && (AllAccepted(map[f := g], a, b) <==> Widens(from, to))
  {
    hide Judge, Widens, TypeFits, PlainField, AllAccepted;
    var (a, b, renames) := (One(f, from), One(g, to), map[f := g]);
    assert a.fields[f] == from && b.fields[g] == to;
    assert RenameTarget(renames, b, f) == Some(g) && KeyOf(renames, b, f) == g;
    assert Taken(renames, a, b, g) by {
      assert g in MatchedBy(renames, b, f);
    }
    VerdictWithRenames(renames, a, b);
    AcceptedExactly(renames, a, b);
  }

  /** What the verdict refuses without need: removing a required column, or lifting an enum altogether. */
  lemma FalseAlarms(e: Event)
    ensures var (a, b) := (One("f", Field(Text, true, None)), Schema([], map[]));
            !Judge(map[], a, b).compatible && (Accepts(a, e) ==> Accepts(b, e))
    ensures var (a, b) := (One("f", Field(Text, true, Some(["x"]))), One("f", Field(Text, true, None)));
            !Judge(map[], a, b).compatible && (Accepts(a, e) ==> Accepts(b, e))
  {
    hide Judge, FieldSafe;
    VerdictMeaning(One("f", Field(Text, true, None)), Schema([], map[]));
    var (from, to) := (Field(Text, true, Some(["x"])), Field(Text, true, None));
    OneColumn("f", from, to);
    EnumLifted(from, to);
    if Accepts(One("f", from), e) {
      assert Takes(One("f", from).fields["f"], Get(e, "f"));
      WidensTakes(from, to, Get(e, "f"));
    }
  }

  lemma EnumLifted(from: Field, to: Field)
    requires Constrained(from) && !Constrained(to)
    ensures !FieldSafe(from, to)
  {
    EnumSetEmpty(from);
    EnumSetEmpty(to);
  }
}
