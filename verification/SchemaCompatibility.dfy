/** Comparing an expected event schema with an actual one, field by field. */
module SchemaCompatibility {
  import opened Wrappers

  datatype Type = Text | Integer | Float | Boolean | Timestamp | Object | Array | Long | Double | Other(name: string)
  datatype Field = Field(typ: Type, required: bool, values: Option<seq<string>>)

  /** `names` lists the fields in declaration order. */
  datatype Schema = Schema(names: seq<string>, fields: map<string, Field>)

  datatype Kind =
    | MissingColumn | NewColumn | TypeChange | RenamedColumn | RemovedColumn
    | RequiredChanged | EnumValueAdded | EnumValueRemoved
  datatype Severity = Info | Warning | Critical
  datatype Change = Change(kind: Kind, field: string, severity: Severity)
  datatype Class = Compatible | WarningClass | Breaking
  datatype Verdict = Verdict(compatible: bool, classification: Class, severity: Severity, changes: seq<Change>)

  /** Every listed name has a field. */
  ghost predicate Listed(s: Schema) { forall i :: 0 <= i < |s.names| ==> s.names[i] in s.fields }

  /** A dictionary in insertion order: every field is listed, once. */
  ghost predicate WellFormed(s: Schema)
  {
    && Listed(s)
    && (forall name :: name in s.fields ==> name in s.names)
    && (forall i, j :: 0 <= i < j < |s.names| ==> s.names[i] != s.names[j])
  }

  /** The pairs of the compatibility matrix. */
  predicate TypeCompatible(from: Type, to: Type)
  {
    (from, to) in {
      (Text, Text), (Integer, Integer), (Float, Float), (Boolean, Boolean), (Timestamp, Timestamp),
      (Object, Object), (Array, Array), (Integer, Long), (Integer, Float), (Float, Double)}
  }

  function EnumSet(f: Field): set<string>
  {
    if f.values.Some? then set v | v in f.values.value else {}
  }

  function TypeChanges(name: string, from: Field, to: Field): seq<Change>
  {
    if from.typ == to.typ then []
    else [Change(TypeChange, name, if TypeCompatible(from.typ, to.typ) then Info else Critical)]
  }

  function RequiredChanges(name: string, from: Field, to: Field): seq<Change>
  {
    if from.required == to.required then []
    else [Change(RequiredChanged, name, if to.required then Critical else Info)]
  }

  function EnumChanges(name: string, from: Field, to: Field): seq<Change>
  {
    if from.values.None? && to.values.None? then []
    else
      (if EnumSet(to) - EnumSet(from) != {} then [Change(EnumValueAdded, name, Info)] else []) +
      (if EnumSet(from) - EnumSet(to) != {} then [Change(EnumValueRemoved, name, Critical)] else [])
  }

  /** The renaming in force for a field: its target must be non-empty and present in the actual schema. */
  function RenameTarget(renames: map<string, string>, actual: Schema, name: string): Option<string>
  {
    if name in renames && renames[name] != "" && renames[name] in actual.fields then Some(renames[name]) else None
  }

  /** What the comparison reports for one expected field. */
  function ExpectedField(renames: map<string, string>, expected: Schema, actual: Schema, name: string): seq<Change>
    requires name in expected.fields
  {
    var from := expected.fields[name];
    match RenameTarget(renames, actual, name)
    case Some(target) =>
      [Change(RenamedColumn, name, Warning)] + TypeChanges(target, from, actual.fields[target])
    case None =>
      if name in actual.fields then
        var to := actual.fields[name];
        TypeChanges(name, from, to) + RequiredChanges(name, from, to) + EnumChanges(name, from, to)
      else if from.required then [Change(MissingColumn, name, Critical)]
      else [Change(RemovedColumn, name, Warning)]
  }

  /** The actual fields that some expected field was matched with. */
  function MatchedBy(renames: map<string, string>, actual: Schema, name: string): set<string>
  {
    match RenameTarget(renames, actual, name)
    case Some(target) => {target}
    case None => if name in actual.fields then {name} else {}
  }

  function ActualField(matched: set<string>, expected: Schema, actual: Schema, name: string): seq<Change>
    requires name in actual.fields
  {
    if name in matched || name in expected.fields then []
    else [Change(NewColumn, name, if actual.fields[name].required then Critical else Info)]
  }

  function FromExpected(renames: map<string, string>, expected: Schema, actual: Schema, n: nat): seq<Change>
    requires n <= |expected.names| && Listed(expected)
  {
    if n == 0 then []
    else FromExpected(renames, expected, actual, n - 1) +
         ExpectedField(renames, expected, actual, expected.names[n - 1])
  }

  function Matched(renames: map<string, string>, expected: Schema, actual: Schema, n: nat): set<string>
    requires n <= |expected.names|
  {
    if n == 0 then {}
    else Matched(renames, expected, actual, n - 1) + MatchedBy(renames, actual, expected.names[n - 1])
  }

  function FromActual(matched: set<string>, expected: Schema, actual: Schema, n: nat): seq<Change>
    requires n <= |actual.names| && Listed(actual)
  {
    if n == 0 then []
    else FromActual(matched, expected, actual, n - 1) + ActualField(matched, expected, actual, actual.names[n - 1])
  }

  function Changes(renames: map<string, string>, expected: Schema, actual: Schema): seq<Change>
    requires Listed(expected) && Listed(actual)
  {
    FromExpected(renames, expected, actual, |expected.names|) +
    FromActual(Matched(renames, expected, actual, |expected.names|), expected, actual, |actual.names|)
  }

  predicate AnySeverity(changes: seq<Change>, severity: Severity)
  {
    exists i :: 0 <= i < |changes| && changes[i].severity == severity
  }

  function Conclude(changes: seq<Change>): Verdict
  {
    if AnySeverity(changes, Critical) then Verdict(false, Breaking, Critical, changes)
    else if AnySeverity(changes, Warning) then Verdict(true, WarningClass, Warning, changes)
    else Verdict(true, Compatible, Info, changes)
  }

  function Judge(renames: map<string, string>, expected: Schema, actual: Schema): Verdict
    requires Listed(expected) && Listed(actual)
  {
    Conclude(Changes(renames, expected, actual))
  }

  /** The pass over the expected schema, appending changes and remembering matched actual fields. */
  method InspectExpected(renames: map<string, string>, expected: Schema, actual: Schema)
      returns (changes: seq<Change>, matched: set<string>)
    requires Listed(expected)
    ensures changes == FromExpected(renames, expected, actual, |expected.names|)
    ensures matched == Matched(renames, expected, actual, |expected.names|)
  {
    hide TypeChanges, RequiredChanges, EnumChanges;
    changes, matched := [], {};
    for i := 0 to |expected.names|
      invariant changes == FromExpected(renames, expected, actual, i)
      invariant matched == Matched(renames, expected, actual, i)
    {
      var name := expected.names[i];
      var from := expected.fields[name];
      var found: seq<Change>, target: set<string> := [], {};
      if name in renames && renames[name] != "" && renames[name] in actual.fields {
        target := {renames[name]};
        found := [Change(RenamedColumn, name, Warning)] +
            TypeChanges(renames[name], from, actual.fields[renames[name]]);
      } else if name in actual.fields {
        target := {name};
        var to := actual.fields[name];
        found := TypeChanges(name, from, to) + RequiredChanges(name, from, to) + EnumChanges(name, from, to);
      } else if from.required {
        found := [Change(MissingColumn, name, Critical)];
      } else {
        found := [Change(RemovedColumn, name, Warning)];
      }
      changes, matched := changes + found, matched + target;
    }
  }

  /** The comparison: a second pass reports the columns that are new, then the severities decide. */
  method Compare(renames: map<string, string>, expected: Schema, actual: Schema) returns (verdict: Verdict)
    requires Listed(expected) && Listed(actual)
    ensures verdict == Judge(renames, expected, actual)
  {
    hide Conclude, FromExpected;
    var changes, matched := InspectExpected(renames, expected, actual);
    ghost var first := changes;
    for i := 0 to |actual.names|
      invariant changes == first + FromActual(matched, expected, actual, i)
    {
      var name := actual.names[i];
      if name !in matched && name !in expected.fields {
        changes := changes + [Change(NewColumn, name, if actual.fields[name].required then Critical else Info)];
      }
    }
    return Conclude(changes);
  }
}
