/** What a schema verdict says, field by field, and how verdicts compose. */
module SchemaVerdicts {
  import opened Wrappers
  import opened SchemaCompatibility

  /** No critical change between two versions of one field. */
  predicate FieldSafe(from: Field, to: Field)
  {
    && (from.typ == to.typ || TypeCompatible(from.typ, to.typ))
    && (to.required ==> from.required)
    && EnumSet(from) <= EnumSet(to)
  }

  /** No critical change at all, when nothing is renamed. */
  ghost predicate Safe(expected: Schema, actual: Schema)
  {
    && (forall name :: name in expected.fields ==>
         if name in actual.fields then FieldSafe(expected.fields[name], actual.fields[name])
         else !expected.fields[name].required)
    && (forall name :: name in actual.fields && name !in expected.fields ==> !actual.fields[name].required)
  }

  ghost predicate KeepsColumns(expected: Schema, actual: Schema)
  {
    forall name :: name in expected.fields ==> name in actual.fields
  }

  predicate TypeFits(from: Type, to: Type) { from == to || TypeCompatible(from, to) }

  /** No critical change is reported for an expected field; a renamed one is checked for its type only. */
  predicate FieldPasses(renames: map<string, string>, expected: Schema, actual: Schema, name: string)
    requires name in expected.fields
  {
    match RenameTarget(renames, actual, name)
    case Some(target) => TypeFits(expected.fields[name].typ, actual.fields[target].typ)
    case None =>
      if name in actual.fields then FieldSafe(expected.fields[name], actual.fields[name])
      else !expected.fields[name].required
  }

  /** Some expected field is matched with this actual one. */
  ghost predicate Taken(renames: map<string, string>, expected: Schema, actual: Schema, key: string)
  {
    exists name :: name in expected.fields && key in MatchedBy(renames, actual, name)
  }

  /** No critical change at all. */
  ghost predicate Passes(renames: map<string, string>, expected: Schema, actual: Schema)
  {
    && (forall name :: name in expected.fields ==> FieldPasses(renames, expected, actual, name))
    && (forall key :: key in actual.fields && key !in expected.fields && !Taken(renames, expected, actual, key)
          ==> !actual.fields[key].required)
  }

  // ----- Severities -------------------------------------------------------------------------------

  lemma AnyAppend(a: seq<Change>, b: seq<Change>, severity: Severity)
    ensures AnySeverity(a + b, severity) <==> AnySeverity(a, severity) || AnySeverity(b, severity)
  {
    if AnySeverity(b, severity) {
      var i :| 0 <= i < |b| && b[i].severity == severity;
      assert (a + b)[|a| + i] == b[i];
    }
    if AnySeverity(a, severity) {
      var i :| 0 <= i < |a| && a[i].severity == severity;
      assert (a + b)[i] == a[i];
    }
  }

  lemma {:induction false} AnyFromExpected(renames: map<string, string>, expected: Schema, actual: Schema, n: nat,
                                           severity: Severity)
    requires WellFormed(expected) && n <= |expected.names|
    ensures AnySeverity(FromExpected(renames, expected, actual, n), severity)
       <==> exists i :: 0 <= i < n && AnySeverity(ExpectedField(renames, expected, actual, expected.names[i]), severity)
  {
    hide AnySeverity, ExpectedField;
    if n == 0 {
      NothingHasSeverity(severity);
    } else {
      AnyFromExpected(renames, expected, actual, n - 1, severity);
      AnyAppend(FromExpected(renames, expected, actual, n - 1),
                ExpectedField(renames, expected, actual, expected.names[n - 1]), severity);
    }
  }

  lemma NothingHasSeverity(severity: Severity)
    ensures !AnySeverity([], severity)
  {
  }

  lemma {:induction false} AnyFromActual(matched: set<string>, expected: Schema, actual: Schema, n: nat,
                                         severity: Severity)
    requires WellFormed(actual) && n <= |actual.names|
    ensures AnySeverity(FromActual(matched, expected, actual, n), severity)
       <==> exists i :: 0 <= i < n && AnySeverity(ActualField(matched, expected, actual, actual.names[i]), severity)
  {
    hide AnySeverity, ActualField;
    if n == 0 {
      NothingHasSeverity(severity);
    } else {
      AnyFromActual(matched, expected, actual, n - 1, severity);
      AnyAppend(FromActual(matched, expected, actual, n - 1),
          ActualField(matched, expected, actual, actual.names[n - 1]), severity);
    }
  }

  lemma {:induction false} MatchedExactly(renames: map<string, string>, expected: Schema, actual: Schema, n: nat,
                                          key: string)
    requires WellFormed(expected) && n <= |expected.names|
    ensures key in Matched(renames, expected, actual, n)
       <==> exists i :: 0 <= i < n && key in MatchedBy(renames, actual, expected.names[i])
  {
    hide MatchedBy;
    if n > 0 {
      MatchedExactly(renames, expected, actual, n - 1, key);
    }
  }

  lemma AnyInOne(c: Change, severity: Severity)
    ensures AnySeverity([c], severity) <==> c.severity == severity
    ensures !AnySeverity([], severity)
  {
    assert [c][0] == c;
  }

  lemma DifferenceEmpty<T>(a: set<T>, b: set<T>)
    ensures a - b == {} <==> a <= b
  {
    if a - b == {} {
      forall x | x in a ensures x in b {
        assert x in b || x in a - b;
      }
    }
  }

  lemma CommonFieldSeverity(name: string, from: Field, to: Field, severity: Severity)
    ensures var all := TypeChanges(name, from, to) + RequiredChanges(name, from, to) + EnumChanges(name, from, to);
            && (severity == Critical ==> (AnySeverity(all, severity) <==> !FieldSafe(from, to)))
            && (severity == Warning ==> !AnySeverity(all, severity))
  {
    hide AnySeverity;
    AnyAppend(TypeChanges(name, from, to) + RequiredChanges(name, from, to), EnumChanges(name, from, to), severity);
    AnyAppend(TypeChanges(name, from, to), RequiredChanges(name, from, to), severity);
    AnyInOne(Change(TypeChange, name, if TypeCompatible(from.typ, to.typ) then Info else Critical), severity);
    AnyInOne(Change(RequiredChanged, name, if to.required then Critical else Info), severity);
    AnyAppend(if EnumSet(to) - EnumSet(from) != {} then [Change(EnumValueAdded, name, Info)] else [],
              if EnumSet(from) - EnumSet(to) != {} then [Change(EnumValueRemoved, name, Critical)] else [], severity);
    AnyInOne(Change(EnumValueAdded, name, Info), severity);
    AnyInOne(Change(EnumValueRemoved, name, Critical), severity);
    DifferenceEmpty(EnumSet(from), EnumSet(to));
  }

  lemma RenamedFieldSeverity(name: string, target: string, from: Field, to: Field, severity: Severity)
    ensures var all := [Change(RenamedColumn, name, Warning)] + TypeChanges(target, from, to);
            && (severity == Critical ==> (AnySeverity(all, severity) <==> !TypeFits(from.typ, to.typ)))
            && (severity == Warning ==> AnySeverity(all, severity))
  {
    hide AnySeverity;
    AnyAppend([Change(RenamedColumn, name, Warning)], TypeChanges(target, from, to), severity);
    AnyInOne(Change(RenamedColumn, name, Warning), severity);
    AnyInOne(Change(TypeChange, target, if TypeCompatible(from.typ, to.typ) then Info else Critical), severity);
  }

  lemma ExpectedFieldSeverity(renames: map<string, string>, expected: Schema, actual: Schema, name: string,
                              severity: Severity)
    requires name in expected.fields
    ensures severity == Critical ==>
              (AnySeverity(ExpectedField(renames, expected, actual, name), severity) <==>
               !FieldPasses(renames, expected, actual, name))
    ensures severity == Warning ==>
              (AnySeverity(ExpectedField(renames, expected, actual, name), severity) <==>
               RenameTarget(renames, actual, name).Some? || (name !in actual.fields && !expected.fields[name].required))
  {
    hide AnySeverity, FieldSafe, TypeFits, TypeChanges, RequiredChanges, EnumChanges, RenameTarget;
    var target := RenameTarget(renames, actual, name);
    if target.Some? {
      TargetInActual(renames, actual, name);
      RenamedFieldSeverity(name, target.value, expected.fields[name], actual.fields[target.value], severity);
    } else if name in actual.fields {
      CommonFieldSeverity(name, expected.fields[name], actual.fields[name], severity);
    }
    AnyInOne(Change(MissingColumn, name, Critical), severity);
    AnyInOne(Change(RemovedColumn, name, Warning), severity);
  }

  lemma TargetInActual(renames: map<string, string>, actual: Schema, name: string)
    requires RenameTarget(renames, actual, name).Some?
    ensures RenameTarget(renames, actual, name).value in actual.fields
  {
  }

  lemma AnyInChanges(renames: map<string, string>, expected: Schema, actual: Schema, severity: Severity)
    requires WellFormed(expected) && WellFormed(actual)
    ensures AnySeverity(Changes(renames, expected, actual), severity)
       <==> (exists name ::
              name in expected.fields && AnySeverity(ExpectedField(renames, expected, actual, name), severity))
            || (exists key ::
                 key in actual.fields && key !in expected.fields && !Taken(renames, expected, actual, key) &&
                 severity == (if actual.fields[key].required then Critical else Info))
  {
    hide AnySeverity, ExpectedField, FromExpected, FromActual, MatchedBy;
    var n := |expected.names|;
    var matched := Matched(renames, expected, actual, n);
    AnyAppend(FromExpected(renames, expected, actual, n), FromActual(matched, expected, actual, |actual.names|),
        severity);
    AnyFromExpected(renames, expected, actual, n, severity);
    AnyFromActual(matched, expected, actual, |actual.names|, severity);
    forall key | key in actual.fields
      ensures AnySeverity(ActualField(matched, expected, actual, key), severity)
         <==> key !in expected.fields && !Taken(renames, expected, actual, key) &&
              severity == (if actual.fields[key].required then Critical else Info)
    {
      MatchedExactly(renames, expected, actual, n, key);
      AnyInOne(Change(NewColumn, key, if actual.fields[key].required then Critical else Info), severity);
    }
  }

  /** `compatible` holds exactly when no expected field fails its check and no new column is required; the
      strict class COMPATIBLE exactly when, besides, no column was renamed or dropped. */
  lemma VerdictWithRenames(renames: map<string, string>, expected: Schema, actual: Schema)
    requires WellFormed(expected) && WellFormed(actual)
    ensures Judge(renames, expected, actual).compatible <==> Passes(renames, expected, actual)
    ensures Judge(renames, expected, actual).classification == Compatible
       <==> Passes(renames, expected, actual) &&
            forall name :: name in expected.fields ==>
                RenameTarget(renames, actual, name).None? && name in actual.fields
    ensures var v := Judge(renames, expected, actual);
            && (v.classification == Breaking <==> !v.compatible)
            && (v.severity == Critical <==> v.classification == Breaking)
            && (v.severity == Warning <==> v.classification == WarningClass)
  {
    hide AnySeverity, ExpectedField, Changes, FieldPasses, Taken, RenameTarget;
    AnyInChanges(renames, expected, actual, Critical);
    AnyInChanges(renames, expected, actual, Warning);
    forall name | name in expected.fields
      ensures AnySeverity(ExpectedField(renames, expected, actual, name), Critical) <==>
              !FieldPasses(renames, expected, actual, name)
      ensures AnySeverity(ExpectedField(renames, expected, actual, name), Warning) <==>
              RenameTarget(renames, actual, name).Some? || (name !in actual.fields && !expected.fields[name].required)
    {
      ExpectedFieldSeverity(renames, expected, actual, name, Critical);
      ExpectedFieldSeverity(renames, expected, actual, name, Warning);
    }
    if Passes(renames, expected, actual) {
      forall name | name in expected.fields && name !in actual.fields && RenameTarget(renames, actual, name).None?
        ensures !expected.fields[name].required
      {
        PassesMissing(renames, expected, actual, name);
      }
    }
  }

  lemma PassesMissing(renames: map<string, string>, expected: Schema, actual: Schema, name: string)
    requires name in expected.fields && name !in actual.fields && RenameTarget(renames, actual, name).None?
    requires FieldPasses(renames, expected, actual, name)
    ensures !expected.fields[name].required
  {
  }

  // ----- The change list --------------------------------------------------------------------------

  /** What is reported about an expected field: a renaming and a change of type for a renamed one; changes of type, of
      the required flag and of the enum for one kept; that it is missing or removed for one dropped. */
  ghost predicate ReportedFor(renames: map<string, string>, expected: Schema, actual: Schema, name: string, c: Change)
    requires name in expected.fields
  {
    var from := expected.fields[name];
    if name in renames && renames[name] != "" && renames[name] in actual.fields then
      || c == Change(RenamedColumn, name, Warning)
      || Retyped(renames[name], from, actual.fields[renames[name]], c)
    else if name in actual.fields then
      var to := actual.fields[name];
      || Retyped(name, from, to, c)
      || (from.required && !to.required && c == Change(RequiredChanged, name, Info))
      || (!from.required && to.required && c == Change(RequiredChanged, name, Critical))
      || ((exists v :: v in EnumSet(to) && v !in EnumSet(from)) && c == Change(EnumValueAdded, name, Info))
      || ((exists v :: v in EnumSet(from) && v !in EnumSet(to)) && c == Change(EnumValueRemoved, name, Critical))
    else if from.required then c == Change(MissingColumn, name, Critical)
    else c == Change(RemovedColumn, name, Warning)
  }

  predicate Retyped(name: string, from: Field, to: Field, c: Change)
  {
    from.typ != to.typ && c == Change(TypeChange, name, if TypeCompatible(from.typ, to.typ) then Info else Critical)
  }

  lemma EnumReported(name: string, from: Field, to: Field, c: Change)
    ensures c in EnumChanges(name, from, to)
       <==> || ((exists v :: v in EnumSet(to) && v !in EnumSet(from)) && c == Change(EnumValueAdded, name, Info))
            || ((exists v :: v in EnumSet(from) && v !in EnumSet(to)) && c == Change(EnumValueRemoved, name, Critical))
  {
    DifferenceEmpty(EnumSet(from), EnumSet(to));
    DifferenceEmpty(EnumSet(to), EnumSet(from));
  }

  lemma FieldReported(renames: map<string, string>, expected: Schema, actual: Schema, name: string, c: Change)
    requires name in expected.fields
    ensures c in ExpectedField(renames, expected, actual, name) <==> ReportedFor(renames, expected, actual, name, c)
  {
    hide EnumSet, EnumChanges, TypeCompatible;
    if RenameTarget(renames, actual, name).None? && name in actual.fields {
      EnumReported(name, expected.fields[name], actual.fields[name], c);
    }
  }

  lemma {:induction false} ReportedFromExpected(renames: map<string, string>, expected: Schema, actual: Schema, n: nat,
                                                c: Change)
    requires Listed(expected) && n <= |expected.names|
    ensures c in FromExpected(renames, expected, actual, n)
       <==> exists i :: 0 <= i < n && ReportedFor(renames, expected, actual, expected.names[i], c)
  {
    hide ExpectedField, ReportedFor;
    if n > 0 {
      ReportedFromExpected(renames, expected, actual, n - 1, c);
      FieldReported(renames, expected, actual, expected.names[n - 1], c);
    }
  }

  lemma {:induction false} ReportedFromActual(matched: set<string>, expected: Schema, actual: Schema, n: nat, c: Change)
    requires Listed(actual) && n <= |actual.names|
    ensures c in FromActual(matched, expected, actual, n)
       <==> exists i :: 0 <= i < n && c in ActualField(matched, expected, actual, actual.names[i])
  {
    hide ActualField;
    if n > 0 {
      ReportedFromActual(matched, expected, actual, n - 1, c);
    }
  }

  /** A column no expected field is renamed to and no expected field is named after. */
  ghost predicate NewlyReported(renames: map<string, string>, expected: Schema, actual: Schema, key: string, c: Change)
    requires key in actual.fields
  {
    && key !in expected.fields
    && (key != "" ==> !exists name :: name in expected.fields && name in renames && renames[name] == key)
    && c == Change(NewColumn, key, if actual.fields[key].required then Critical else Info)
  }

  lemma TakenByRenaming(renames: map<string, string>, expected: Schema, actual: Schema, key: string)
    requires key in actual.fields && key !in expected.fields
    ensures Taken(renames, expected, actual, key)
       <==> key != "" && exists name :: name in expected.fields && name in renames && renames[name] == key
  {
    if name :| name in expected.fields && name in renames && renames[name] == key {
      assert key != "" ==> key in MatchedBy(renames, actual, name);
    }
  }

  /** The change list holds exactly what there is to report about every expected field and every new column. */
  lemma ChangesExactly(renames: map<string, string>, expected: Schema, actual: Schema, c: Change)
    requires WellFormed(expected) && WellFormed(actual)
    ensures c in Judge(renames, expected, actual).changes
       <==> || (exists name :: name in expected.fields && ReportedFor(renames, expected, actual, name, c))
            || (exists key :: key in actual.fields && NewlyReported(renames, expected, actual, key, c))
  {
    hide AnySeverity, FromExpected, FromActual, ReportedFor, MatchedBy;
    var n := |expected.names|;
    var matched := Matched(renames, expected, actual, n);
    ReportedFromExpected(renames, expected, actual, n, c);
    ReportedFromActual(matched, expected, actual, |actual.names|, c);
    forall key | key in actual.fields
      ensures c in ActualField(matched, expected, actual, key) <==> NewlyReported(renames, expected, actual, key, c)
    {
      MatchedExactly(renames, expected, actual, n, key);
      if key !in expected.fields {
        TakenByRenaming(renames, expected, actual, key);
      }
    }
    assert Judge(renames, expected, actual).changes ==
           FromExpected(renames, expected, actual, n) + FromActual(matched, expected, actual, |actual.names|);
  }

  /** With no rename map, `compatible` holds exactly when every field is safe, and the strict class
      COMPATIBLE exactly when, besides, no column was dropped. */
  lemma VerdictMeaning(expected: Schema, actual: Schema)
    requires WellFormed(expected) && WellFormed(actual)
    ensures Judge(map[], expected, actual).compatible <==> Safe(expected, actual)
    ensures Judge(map[], expected, actual).classification == Compatible
       <==> Safe(expected, actual) && KeepsColumns(expected, actual)
  {
    hide Judge, FieldSafe;
    VerdictWithRenames(map[], expected, actual);
    forall name | name in expected.fields
      ensures RenameTarget(map[], actual, name).None?
      ensures FieldPasses(map[], expected, actual, name) <==>
              if name in actual.fields then FieldSafe(expected.fields[name], actual.fields[name])
              else !expected.fields[name].required
    {
    }
    forall key | key in actual.fields ensures Taken(map[], expected, actual, key) <==> key in expected.fields {
      assert key in expected.fields ==> key in MatchedBy(map[], actual, key);
    }
  }

  // ----- Order ----------------------------------------------------------------------------------

  function One(name: string, f: Field): Schema { Schema([name], map[name := f]) }

  predicate Supported(t: Type) { t in {Text, Integer, Float, Boolean, Timestamp, Object, Array} }

  ghost predicate Strict(a: Schema, b: Schema)
    requires WellFormed(a) && WellFormed(b)
  {
    Judge(map[], a, b).classification == Compatible
  }

  ghost predicate SupportedSchema(s: Schema) { forall name :: name in s.fields ==> Supported(s.fields[name].typ) }

  lemma FieldSafeTransitive(a: Field, b: Field, c: Field)
    requires Supported(a.typ) && Supported(b.typ) && Supported(c.typ) && FieldSafe(a, b) && FieldSafe(b, c)
    ensures FieldSafe(a, c)
  {
  }

  /** Over the supported types the strict class COMPATIBLE is a preorder. */
  lemma StrictIsPreorder(a: Schema, b: Schema, c: Schema)
    requires WellFormed(a) && WellFormed(b) && WellFormed(c)
    requires SupportedSchema(a) && SupportedSchema(b) && SupportedSchema(c)
    ensures Strict(a, a)
    ensures Strict(a, b) && Strict(b, c) ==> Strict(a, c)
  {
    hide Judge, FieldSafe, WellFormed;
    VerdictMeaning(a, a);
    VerdictMeaning(a, b);
    VerdictMeaning(b, c);
    VerdictMeaning(a, c);
    forall name | name in a.fields ensures FieldSafe(a.fields[name], a.fields[name]) {
      FieldSafeReflexive(a.fields[name]);
    }
    if Strict(a, b) && Strict(b, c) {
      forall name | name in a.fields ensures FieldSafe(a.fields[name], c.fields[name]) {
        FieldSafeTransitive(a.fields[name], b.fields[name], c.fields[name]);
      }
      forall name | name in c.fields && name !in a.fields ensures !c.fields[name].required {
        if name in b.fields {
          NotMadeRequired(b.fields[name], c.fields[name]);
        }
      }
    }
  }

  lemma FieldSafeReflexive(f: Field)
    ensures FieldSafe(f, f)
  {
  }

  lemma NotMadeRequired(from: Field, to: Field)
    requires FieldSafe(from, to) && !from.required
    ensures !to.required
  {
  }

  /** Same name, type, required flag and enum set, field by field. */
  ghost predicate SameFields(a: Schema, b: Schema)
  {
    && (forall name :: name in a.fields <==> name in b.fields)
    && (forall name :: name in a.fields ==>
         && a.fields[name].typ == b.fields[name].typ
         && a.fields[name].required == b.fields[name].required
         && EnumSet(a.fields[name]) == EnumSet(b.fields[name]))
  }

  ghost predicate Silent(changes: seq<Change>)
  {
    !AnySeverity(changes, Info) && !AnySeverity(changes, Warning) && !AnySeverity(changes, Critical)
  }

  lemma SilentMeansEmpty(changes: seq<Change>)
    ensures Silent(changes) <==> changes == []
  {
    if changes != [] {
      assert AnySeverity(changes, changes[0].severity);
    }
  }

  lemma FieldUnchanged(name: string, from: Field, to: Field)
    ensures TypeChanges(name, from, to) + RequiredChanges(name, from, to) + EnumChanges(name, from, to) == []
       <==> from.typ == to.typ && from.required == to.required && EnumSet(from) == EnumSet(to)
  {
    DifferenceEmpty(EnumSet(from), EnumSet(to));
    DifferenceEmpty(EnumSet(to), EnumSet(from));
  }

  lemma ExpectedFieldUnchanged(a: Schema, b: Schema, name: string)
    requires name in a.fields
    ensures ExpectedField(map[], a, b, name) == []
       <==> name in b.fields && a.fields[name].typ == b.fields[name].typ
            && a.fields[name].required == b.fields[name].required
            && EnumSet(a.fields[name]) == EnumSet(b.fields[name])
  {
    if name in b.fields {
      FieldUnchanged(name, a.fields[name], b.fields[name]);
    }
  }

  lemma SilentChanges(a: Schema, b: Schema)
    requires WellFormed(a) && WellFormed(b)
    ensures Silent(Changes(map[], a, b))
       <==> (forall name :: name in a.fields ==> Silent(ExpectedField(map[], a, b, name)))
            && (forall name :: name in b.fields ==> name in a.fields)
  {
    hide AnySeverity, ExpectedField, Changes;
    AnyInChanges(map[], a, b, Info);
    AnyInChanges(map[], a, b, Warning);
    AnyInChanges(map[], a, b, Critical);
    forall key | key in b.fields && key !in a.fields ensures !Taken(map[], a, b, key) {
    }
  }

  /** The change list is empty exactly when the schemas agree. */
  lemma NoChangesExactly(a: Schema, b: Schema)
    requires WellFormed(a) && WellFormed(b)
    ensures Judge(map[], a, b).changes == [] <==> SameFields(a, b)
  {
    hide ExpectedField, Changes, EnumSet, Silent;
    SilentMeansEmpty(Changes(map[], a, b));
    SilentChanges(a, b);
    forall name | name in a.fields
      ensures Silent(ExpectedField(map[], a, b, name))
         <==> name in b.fields && a.fields[name].typ == b.fields[name].typ
              && a.fields[name].required == b.fields[name].required &&
                 EnumSet(a.fields[name]) == EnumSet(b.fields[name])
    {
      ExpectedFieldUnchanged(a, b, name);
      SilentMeansEmpty(ExpectedField(map[], a, b, name));
    }
  }

  /** Two versions of one column are judged by that column alone. */
  lemma OneColumn(name: string, from: Field, to: Field)
    ensures WellFormed(One(name, from)) && WellFormed(One(name, to))
    ensures Judge(map[], One(name, from), One(name, to)).compatible <==> FieldSafe(from, to)
    ensures Strict(One(name, from), One(name, to)) <==> FieldSafe(from, to)
  {
    hide Judge, FieldSafe;
    VerdictMeaning(One(name, from), One(name, to));
    assert One(name, from).fields[name] == from && One(name, to).fields[name] == to;
  }

  // ----- How verdicts compose ---------------------------------------------------------------------

  /** Integer to float to double: the one pair of steps the matrix takes but does not take at once. */
  predicate WidensTwice(x: Type, y: Type, z: Type) { x == Integer && y == Float && z == Double }

  /** The type matrix is transitive but for that one triple. */
  lemma MatrixComposesExactly(x: Type, y: Type, z: Type)
    requires TypeFits(x, y) && TypeFits(y, z)
    ensures TypeFits(x, z) <==> !WidensTwice(x, y, z)
  {
  }

  lemma FieldComposesExactly(a: Field, b: Field, c: Field)
    requires FieldSafe(a, b) && FieldSafe(b, c)
    ensures FieldSafe(a, c) <==> !WidensTwice(a.typ, b.typ, c.typ)
  {
    MatrixComposesExactly(a.typ, b.typ, c.typ);
  }

  ghost predicate Compat(a: Schema, b: Schema)
    requires WellFormed(a) && WellFormed(b)
  {
    Judge(map[], a, b).compatible
  }

  /** No column widens twice on its way from `a` over `b` to `c`. */
  ghost predicate NoneWidensTwice(a: Schema, b: Schema, c: Schema)
  {
    forall name :: name in a.fields && name in b.fields && name in c.fields ==>
      !WidensTwice(a.fields[name].typ, b.fields[name].typ, c.fields[name].typ)
  }

  /** Two compatible steps make a compatible whole exactly when every column dropped and added back is safe
      from first to last, no required column is relaxed and then dropped, and none widens twice. */
  lemma CompatibleComposesExactly(a: Schema, b: Schema, c: Schema)
    requires WellFormed(a) && WellFormed(b) && WellFormed(c)
    requires Compat(a, b) && Compat(b, c)
    ensures Compat(a, c)
       <==> && (forall name :: name in a.fields && name in c.fields && name !in b.fields ==>
                 FieldSafe(a.fields[name], c.fields[name]))
            && (forall name :: name in a.fields && name in b.fields && name !in c.fields ==> !a.fields[name].required)
            && NoneWidensTwice(a, b, c)
    ensures SupportedSchema(c) ==> NoneWidensTwice(a, b, c)
  {
    hide Judge, FieldSafe, WellFormed, WidensTwice;
    VerdictMeaning(a, b);
    VerdictMeaning(b, c);
    VerdictMeaning(a, c);
    forall name | name in a.fields && name in b.fields && name in c.fields
      ensures FieldSafe(a.fields[name], c.fields[name]) <==>
              !WidensTwice(a.fields[name].typ, b.fields[name].typ, c.fields[name].typ)
      ensures Supported(c.fields[name].typ) ==> !WidensTwice(a.fields[name].typ, b.fields[name].typ, c.fields[name].typ)
    {
      FieldComposesExactly(a.fields[name], b.fields[name], c.fields[name]);
      DoubleIsUnsupported(a.fields[name].typ, b.fields[name].typ, c.fields[name].typ);
    }
    forall name | name in b.fields && name in c.fields && name !in a.fields ensures !c.fields[name].required {
      NotMadeRequired(b.fields[name], c.fields[name]);
    }
  }

  lemma DoubleIsUnsupported(x: Type, y: Type, z: Type)
    ensures Supported(z) ==> !WidensTwice(x, y, z)
  {
  }

  /** Two steps of the strict class make a third exactly when no column widens twice. */
  lemma StrictComposesExactly(a: Schema, b: Schema, c: Schema)
    requires WellFormed(a) && WellFormed(b) && WellFormed(c)
    requires Strict(a, b) && Strict(b, c)
    ensures Strict(a, c) <==> NoneWidensTwice(a, b, c)
  {
    hide Judge, FieldSafe, WellFormed;
    VerdictMeaning(a, b);
    VerdictMeaning(b, c);
    VerdictMeaning(a, c);
    CompatibleComposesExactly(a, b, c);
  }

  /** Any column, dropped while optional and added back optional: each step is compatible, both together
      only if the new version is safe. */
  lemma DroppedThenReadded(name: string, f: Field, g: Field)
    requires !f.required && !g.required
    ensures var none := Schema([], map[]);
            && Compat(One(name, f), none) && Compat(none, One(name, g))
            && (Compat(One(name, f), One(name, g)) <==> FieldSafe(f, g))
  {
    hide Judge, FieldSafe;
    var none := Schema([], map[]);
    VerdictMeaning(One(name, f), none);
    VerdictMeaning(none, One(name, g));
    OneColumn(name, f, g);
  }

  /** Any required column can be removed compatibly in two steps, and never in one. */
  lemma RelaxedThenDropped(name: string, f: Field)
    requires f.required
    ensures var (none, relaxed) := (Schema([], map[]), One(name, f.(required := false)));
            Compat(One(name, f), relaxed) && Compat(relaxed, none) && !Compat(One(name, f), none)
  {
    hide Judge, FieldSafe;
    var (none, relaxed) := (Schema([], map[]), f.(required := false));
    Relaxing(f);
    OneColumn(name, f, relaxed);
    VerdictMeaning(One(name, relaxed), none);
    VerdictMeaning(One(name, f), none);
    assert One(name, f).fields[name] == f;
  }

  /** Any integer column widens to float and on to double, and never to double at once. */
  lemma WidenedTwice(name: string, f: Field)
    requires f.typ == Integer
    ensures var (b, c) := (One(name, f.(typ := Float)), One(name, f.(typ := Double)));
            Strict(One(name, f), b) && Strict(b, c) && !Strict(One(name, f), c)
  {
    hide Judge, FieldSafe;
    Widening(f);
    OneColumn(name, f, f.(typ := Float));
    OneColumn(name, f.(typ := Float), f.(typ := Double));
    OneColumn(name, f, f.(typ := Double));
  }

  lemma Relaxing(f: Field)
    ensures FieldSafe(f, f.(required := false))
  {
  }

  lemma Widening(f: Field)
    requires f.typ == Integer
    ensures FieldSafe(f, f.(typ := Float)) && FieldSafe(f.(typ := Float), f.(typ := Double))
    ensures !FieldSafe(f, f.(typ := Double))
  {
  }
}
