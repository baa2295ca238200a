/** Incident ids: a date prefix and a counter zero-padded to four digits. The next counter is read off
    the alphabetically largest id of the day. */
module IncidentIds {
  import opened Wrappers
  import opened Lexicographic

  function Digit(d: nat): char
    requires d < 10
  {
    ('0' as int + d) as char
  }

  function Digits(n: nat): string
  {
    if n < 10 then [Digit(n)] else Digits(n / 10) + [Digit(n % 10)]
  }

  function Zeros(n: nat): string { if n == 0 then "" else "0" + Zeros(n - 1) }

  /** At least four digits. */
  function Pad4(n: nat): string { Zeros(if |Digits(n)| < 4 then 4 - |Digits(n)| else 0) + Digits(n) }

  predicate IsDigit(c: char) { '0' <= c <= '9' }

  function Parse(s: string): Option<nat>
  {
    if s == "" || !IsDigit(s[|s| - 1]) then None
    else
      var d := s[|s| - 1] as int - '0' as int;
      if |s| == 1 then Some(d)
      else match Parse(s[..|s| - 1]) case Some(front) => Some(10 * front + d) case None => None
  }

  predicate IsSpace(c: char) { c in {' ', '\t', '\n', '\r', '\U{b}', '\U{c}', '\U{1c}', '\U{1d}', '\U{1e}', '\U{1f}'} }

  function StripLeft(s: string): string { if s != "" && IsSpace(s[0]) then StripLeft(s[1..]) else s }

  function StripRight(s: string): string
  {
    if s != "" && IsSpace(s[|s| - 1]) then StripRight(s[..|s| - 1]) else s
  }

  /** Digits, with single underscores allowed between them. */
  function ParseGroups(s: string): Option<nat>
  {
    if s == "" || !IsDigit(s[|s| - 1]) then None
    else
      var d := s[|s| - 1] as int - '0' as int;
      var front := s[..|s| - 1];
      if front == "" then Some(d)
      else
        var rest := if front[|front| - 1] == '_' then front[..|front| - 1] else front;
        match ParseGroups(rest) case Some(n) => Some(10 * n + d) case None => None
  }

  /** The numbers the reader accepts: spaces around them, a plus sign, grouped digits. There is no minus
      sign to consider after the last hyphen. */
  function ReadInt(s: string): Option<nat>
  {
    var t := StripLeft(StripRight(s));
    ParseGroups(if t != "" && t[0] == '+' then t[1..] else t)
  }

  /** What follows the last hyphen. */
  function LastPart(s: string): string
  {
    if s == "" || s[|s| - 1] == '-' then "" else LastPart(s[..|s| - 1]) + [s[|s| - 1]]
  }

  function Prefix(date: string): string { "INC-" + date + "-" }

  /** A top that does not parse restarts the counter. */
  function NumberAfter(top: string): nat
  {
    match ReadInt(LastPart(top)) case Some(n) => n + 1 case None => 1
  }

  /** `top` is the first row of the descending query over the ids with this prefix. */
  ghost predicate Top(ids: set<string>, prefix: string, top: string)
  {
    top in ids && prefix <= top && forall o :: o in ids && prefix <= o ==> AtMost(o, top)
  }

  ghost predicate NoneWith(ids: set<string>, prefix: string) { forall o :: o in ids ==> !(prefix <= o) }

  ghost predicate IsNextId(ids: set<string>, prefix: string, id: string)
  {
    if NoneWith(ids, prefix) then id == prefix + Pad4(1)
    else exists top :: Top(ids, prefix, top) && id == prefix + Pad4(NumberAfter(top))
  }

  method GenerateIncidentId(ids: set<string>, date: string) returns (id: string)
    ensures IsNextId(ids, Prefix(date), id) && "INC-" + date + "-" <= id
  {
    hide Pad4, AtMost, NumberAfter;
    var prefix := Prefix(date);
    var number := 1;
    var matching := set o | o in ids && prefix <= o;
    if matching != {} {
      TopExists(matching);
      var top :| top in matching && AllAtMost(matching, top);
      assert Top(ids, prefix, top);
      number := NumberAfter(top);
    } else {
      forall o | o in ids ensures !(prefix <= o) {
        assert o !in matching;
      }
    }
    return prefix + Pad4(number);
  }

  predicate AllAtMost(some: set<string>, top: string) { forall o :: o in some ==> AtMost(o, top) }

  lemma AllBelowBoth(some: set<string>, x: string, top: string)
    requires AllAtMost(some - {x}, top)
    ensures AllAtMost(some, top) || AllAtMost(some, x)
  {
    hide AtMost;
    Total(x, x);
    Total(x, top);
    forall o | o in some - {x} && AtMost(top, x) ensures AtMost(o, x) {
      Transitive(o, top, x);
    }
  }

  lemma {:induction false} TopExists(some: set<string>)
    requires some != {}
    ensures exists top :: top in some && AllAtMost(some, top)
    decreases some
  {
    hide AllAtMost;
    var x :| x in some;
    var top := x;
    if some == {x} {
      AllBelowBoth(some, x, x) by { assert AllAtMost({}, x) by { NoneBelow(x); } assert some - {x} == {}; }
    } else {
      TopExists(some - {x});
      top :| top in some - {x} && AllAtMost(some - {x}, top);
      AllBelowBoth(some, x, top);
    }
  }

  lemma NoneBelow(top: string)
    ensures AllAtMost({}, top)
  {
  }

  lemma TopUnique(ids: set<string>, prefix: string, a: string, b: string)
    requires Top(ids, prefix, a) && Top(ids, prefix, b)
    ensures a == b
  {
    Antisymmetric(a, b);
  }

  /** The generated id is the only one the query allows. */
  lemma NextIdIsUnique(ids: set<string>, prefix: string, a: string, b: string)
    requires IsNextId(ids, prefix, a) && IsNextId(ids, prefix, b)
    ensures a == b
  {
    hide Pad4, NumberAfter, Top;
    if !NoneWith(ids, prefix) {
      var x :| Top(ids, prefix, x) && a == prefix + Pad4(NumberAfter(x));
      var y :| Top(ids, prefix, y) && b == prefix + Pad4(NumberAfter(y));
      TopUnique(ids, prefix, x, y);
    }
  }

  // ----- Printing and parsing ---------------------------------------------------------------------

  lemma {:induction false} ParseDigits(n: nat)
    ensures Parse(Digits(n)) == Some(n)
  {
    if n >= 10 {
      ParseDigits(n / 10);
      assert Digits(n)[..|Digits(n)| - 1] == Digits(n / 10);
    }
  }

  lemma {:induction false} ParseLeadingZero(s: string)
    requires Parse(s).Some?
    ensures Parse("0" + s) == Parse(s)
  {
    if |s| > 1 {
      ParseLeadingZero(s[..|s| - 1]);
      assert ("0" + s)[..|s|] == "0" + s[..|s| - 1];
    } else {
      assert ("0" + s)[..1] == "0";
      assert Parse("0") == Some(0);
    }
  }

  lemma {:induction false} ParseZeros(n: nat, s: string)
    requires Parse(s).Some?
    ensures Parse(Zeros(n) + s) == Parse(s)
  {
    hide Parse;
    if n == 0 {
      assert Zeros(n) + s == s;
    } else {
      ParseZeros(n - 1, s);
      ParseLeadingZero(Zeros(n - 1) + s);
      assert Zeros(n) + s == "0" + (Zeros(n - 1) + s);
    }
  }

  /** Parsing undoes zero-padded printing, for every number. */
  lemma ParsePadded(n: nat)
    ensures Parse(Pad4(n)) == Some(n)
  {
    ParseDigits(n);
    ParseZeros(if |Digits(n)| < 4 then 4 - |Digits(n)| else 0, Digits(n));
  }

  lemma {:induction false} ParsedAreDigits(s: string)
    requires Parse(s).Some?
    ensures forall i :: 0 <= i < |s| ==> IsDigit(s[i])
  {
    if |s| > 1 {
      ParsedAreDigits(s[..|s| - 1]);
    }
  }

  lemma {:induction false} LastPartOf(prefix: string, s: string)
    requires prefix != "" && prefix[|prefix| - 1] == '-' && forall i :: 0 <= i < |s| ==> s[i] != '-'
    ensures LastPart(prefix + s) == s
  {
    if s == "" {
      assert prefix + s == prefix;
    } else {
      LastPartOf(prefix, s[..|s| - 1]);
      assert (prefix + s)[..|prefix + s| - 1] == prefix + s[..|s| - 1];
      assert s == s[..|s| - 1] + [s[|s| - 1]];
    }
  }

  lemma {:induction false} GroupsOfDigits(s: string)
    requires forall i :: 0 <= i < |s| ==> IsDigit(s[i])
    ensures ParseGroups(s) == Parse(s)
  {
    if |s| > 1 {
      GroupsOfDigits(s[..|s| - 1]);
    }
  }

  lemma DigitStays(c: char)
    requires IsDigit(c)
    ensures !IsSpace(c) && c != '+'
  {
  }

  /** On a string of digits the lenient reader agrees with plain parsing. */
  lemma ReadDigits(s: string)
    requires forall i :: 0 <= i < |s| ==> IsDigit(s[i])
    ensures ReadInt(s) == Parse(s)
  {
    hide IsSpace, IsDigit, Parse, ParseGroups;
    GroupsOfDigits(s);
    if s != "" {
      DigitStays(s[0]);
      DigitStays(s[|s| - 1]);
    }
  }

  /** The counter is recovered from the whole id. */
  lemma NumberAfterId(date: string, n: nat)
    ensures NumberAfter(Prefix(date) + Pad4(n)) == n + 1
  {
    hide Pad4, ReadInt, Parse, LastPart;
    ParsePadded(n);
    ParsedAreDigits(Pad4(n));
    LastPartOf(Prefix(date), Pad4(n));
    ReadDigits(Pad4(n));
  }

  // ----- Order ------------------------------------------------------------------------------------

  lemma {:induction false} SnocOrder(a: string, x: char, b: string, y: char)
    requires |a| == |b|
    ensures AtMost(a + [x], b + [y]) <==> (a != b && AtMost(a, b)) || (a == b && x <= y)
  {
    if a == "" {
      assert a + [x] == [x] && b + [y] == [y];
      assert [x][1..] == "" && [y][1..] == "";
    } else {
      assert (a + [x])[1..] == a[1..] + [x] && (b + [y])[1..] == b[1..] + [y];
      SnocOrder(a[1..], x, b[1..], y);
      assert a == [a[0]] + a[1..] && b == [b[0]] + b[1..];
    }
  }

  lemma ParseSnoc(s: string)
    requires Parse(s).Some?
    ensures s != "" && IsDigit(s[|s| - 1])
    ensures |s| == 1 ==> Parse(s).value == s[0] as int - '0' as int
    ensures |s| > 1 ==> Parse(s[..|s| - 1]).Some?
    ensures |s| > 1 ==> Parse(s).value == 10 * Parse(s[..|s| - 1]).value + (s[|s| - 1] as int - '0' as int)
  {
  }

  lemma {:induction false} EmptyOrder()
    ensures AtMost("", "")
  {
  }

  /** Digit strings of one length compare as the numbers they spell. */
  lemma {:induction false} OrderIsNumeric(a: string, b: string)
    requires |a| == |b| && Parse(a).Some? && Parse(b).Some?
    ensures AtMost(a, b) <==> Parse(a).value <= Parse(b).value
    decreases |a|
  {
    hide AtMost, Parse;
    ParseSnoc(a);
    ParseSnoc(b);
    var (p, q) := (a[..|a| - 1], b[..|b| - 1]);
    assert a == p + [a[|a| - 1]] && b == q + [b[|b| - 1]];
    SnocOrder(p, a[|a| - 1], q, b[|b| - 1]);
    if |a| == 1 {
      EmptyOrder();
    } else {
      OrderIsNumeric(p, q);
      OrderIsNumeric(q, p);
      if AtMost(p, q) && AtMost(q, p) {
        Antisymmetric(p, q);
      }
    }
  }

  lemma ZerosLength(n: nat)
    ensures |Zeros(n)| == n
  {
  }

  lemma {:induction false} DigitsLength(n: nat, width: nat)
    requires width >= 1
    ensures |Digits(n)| <= width <==> n < Pow10(width)
  {
    if n >= 10 {
      if width > 1 {
        DigitsLength(n / 10, width - 1);
      } else {
        assert Digits(n / 10) != "";
      }
    } else {
      Pow10Grows(width);
    }
  }

  function Pow10(n: nat): nat { if n == 0 then 1 else 10 * Pow10(n - 1) }

  lemma {:induction false} Pow10Grows(n: nat)
    requires n >= 1
    ensures Pow10(n) >= 10
  {
    if n > 1 {
      Pow10Grows(n - 1);
    }
  }

  /** Up to 9999 the padded counter is four digits wide; from 10000 on it is wider. */
  lemma PaddedWidth(n: nat)
    ensures |Pad4(n)| == 4 <==> n <= 9999
  {
    DigitsLength(n, 4);
    assert Pow10(4) == 10 * (10 * (10 * (10 * Pow10(0))));
    ZerosLength(if |Digits(n)| < 4 then 4 - |Digits(n)| else 0);
  }

  lemma IdsInOrder(prefix: string, a: nat, b: nat)
    requires a <= 9999 && b <= 9999
    ensures AtMost(prefix + Pad4(a), prefix + Pad4(b)) <==> a <= b
  {
    PaddedWidth(a);
    PaddedWidth(b);
    ParsePadded(a);
    ParsePadded(b);
    OrderIsNumeric(Pad4(a), Pad4(b));
    SamePrefix(prefix, Pad4(a), Pad4(b));
  }

  lemma IdsDiffer(prefix: string, a: nat, b: nat)
    requires prefix + Pad4(a) == prefix + Pad4(b)
    ensures a == b
  {
    assert (prefix + Pad4(a))[|prefix|..] == Pad4(a) && (prefix + Pad4(b))[|prefix|..] == Pad4(b);
    ParsePadded(a);
    ParsePadded(b);
  }

  /** The five digits of 10000 sort before 9999. */
  lemma TenThousandSortsLow(prefix: string)
    ensures AtMost(prefix + Pad4(10000), prefix + Pad4(9999))
    ensures !AtMost(prefix + Pad4(9999), prefix + Pad4(10000))
  {
    assert Digits(10000) == "10000" by { assert Digits(1000) == "1000" by { assert Digits(100) == "100"; } }
    assert Digits(9999) == "9999" by { assert Digits(999) == "999" by { assert Digits(99) == "99"; } }
    assert Pad4(10000) == "10000" && Pad4(9999) == "9999";
    SamePrefix(prefix, "10000", "9999");
    SamePrefix(prefix, "9999", "10000");
  }

  // ----- Freshness --------------------------------------------------------------------------------

  /** Every id of the day carries a counter of at most 9999. */
  ghost predicate Numbered(ids: set<string>, prefix: string)
  {
    forall o :: o in ids && prefix <= o ==> exists k: nat :: k <= 9999 && o == prefix + Pad4(k)
  }

  /** `m` is the largest counter of the day, 0 if there is none. */
  ghost predicate Largest(ids: set<string>, prefix: string, m: nat)
  {
    && (m > 0 ==> prefix + Pad4(m) in ids)
    && (forall k: nat :: k <= 9999 && prefix + Pad4(k) in ids ==> k <= m)
  }

  /** While no counter has passed 9999 the next id is the largest plus one, and nobody has it. */
  lemma NextIdIsFresh(ids: set<string>, date: string, id: string) returns (m: nat)
    requires Numbered(ids, Prefix(date)) && IsNextId(ids, Prefix(date), id)
    ensures m <= 9999 && Largest(ids, Prefix(date), m) && id == Prefix(date) + Pad4(m + 1)
    ensures id !in ids
  {
    hide Pad4, Prefix, AtMost, NumberAfter;
    var prefix := Prefix(date);
    m := 0;
    if !NoneWith(ids, prefix) {
      var top :| Top(ids, prefix, top) && id == prefix + Pad4(NumberAfter(top));
      var k: nat :| k <= 9999 && top == prefix + Pad4(k);
      m := k;
      NumberAfterId(date, m);
    }
    TopIsLargest(ids, prefix, m);
    if id in ids {
      assert prefix <= id;
      var k: nat :| k <= 9999 && id == prefix + Pad4(k);
      IdsDiffer(prefix, k, m + 1);
    }
  }

  lemma TopIsLargest(ids: set<string>, prefix: string, m: nat)
    requires m <= 9999 && if NoneWith(ids, prefix) then m == 0 else Top(ids, prefix, prefix + Pad4(m))
    ensures Largest(ids, prefix, m)
  {
    hide Pad4, AtMost;
    forall k: nat | k <= 9999 && prefix + Pad4(k) in ids ensures k <= m {
      assert prefix <= prefix + Pad4(k);
      IdsInOrder(prefix, k, m);
    }
  }

  function IdsUpTo(prefix: string, m: nat): set<string> { set k | 1 <= k <= m :: prefix + Pad4(k) }

  /** A day of generated ids only: the set of ids after `n` creations. */
  ghost predicate Created(date: string, states: seq<set<string>>)
  {
    && states != [] && states[0] == {}
    && forall i :: 0 < i < |states| ==>
         exists id :: IsNextId(states[i - 1], Prefix(date), id) && states[i] == states[i - 1] + {id}
  }

  lemma TopOfRange(prefix: string, m: nat, top: string)
    requires 1 <= m <= 10000 && Top(IdsUpTo(prefix, m), prefix, top)
    ensures top == prefix + Pad4(if m <= 9999 then m else 9999)
  {
    hide Pad4, AtMost;
    var last := if m <= 9999 then m else 9999;
    var ids := IdsUpTo(prefix, m);
    assert prefix + Pad4(last) in ids && prefix <= prefix + Pad4(last);
    var k :| 1 <= k <= m && top == prefix + Pad4(k);
    if k <= 9999 {
      IdsInOrder(prefix, last, k);
      assert k == last;
    } else {
      TenThousandSortsLow(prefix);
      assert false;
    }
  }

  lemma NextInRange(date: string, m: nat, id: string)
    requires m <= 10000 && IsNextId(IdsUpTo(Prefix(date), m), Prefix(date), id)
    ensures id == Prefix(date) + Pad4(if m < 10000 then m + 1 else 10000)
  {
    hide Pad4, Prefix, Top, NumberAfter;
    var prefix := Prefix(date);
    if m == 0 {
      assert IdsUpTo(prefix, 0) == {};
    } else {
      assert prefix + Pad4(1) in IdsUpTo(prefix, m) && prefix <= prefix + Pad4(1);
      var top :| Top(IdsUpTo(prefix, m), prefix, top) && id == prefix + Pad4(NumberAfter(top));
      TopOfRange(prefix, m, top);
      NumberAfterId(date, if m <= 9999 then m else 9999);
    }
  }

  lemma RangeGrows(prefix: string, m: nat)
    ensures IdsUpTo(prefix, m) + {prefix + Pad4(m + 1)} == IdsUpTo(prefix, m + 1)
    ensures prefix + Pad4(m + 1) !in IdsUpTo(prefix, m)
  {
    hide Pad4;
    forall k | 1 <= k <= m ensures prefix + Pad4(k) != prefix + Pad4(m + 1) {
      if prefix + Pad4(k) == prefix + Pad4(m + 1) {
        IdsDiffer(prefix, k, m + 1);
      }
    }
  }

  lemma DayStep(prefix: string, n: nat, before: set<string>, id: string)
    requires n >= 1 && before == IdsUpTo(prefix, if n - 1 <= 10000 then n - 1 else 10000)
    requires id == prefix + Pad4(if n - 1 < 10000 then n else 10000)
    ensures before + {id} == IdsUpTo(prefix, if n <= 10000 then n else 10000)
    ensures id !in before <==> n - 1 < 10000
  {
    hide Pad4, IdsUpTo;
    if n <= 10000 {
      RangeGrows(prefix, n - 1);
    } else {
      RangeGrows(prefix, 9999);
    }
  }

  /** The first 10000 ids of a day are 1 to 10000, each new; every later one is 10000 again. */
  lemma {:induction false} DayOfIds(date: string, states: seq<set<string>>, n: nat, id: string)
    requires Created(date, states) && n < |states| && IsNextId(states[n], Prefix(date), id)
    ensures states[n] == IdsUpTo(Prefix(date), if n <= 10000 then n else 10000)
    ensures id == Prefix(date) + Pad4(if n < 10000 then n + 1 else 10000)
    ensures id !in states[n] <==> n < 10000
  {
    hide Pad4, Prefix, IsNextId, IdsUpTo;
    var prefix := Prefix(date);
    if n == 0 {
      NoIds(prefix);
    } else {
      var previous :| IsNextId(states[n - 1], prefix, previous) && states[n] == states[n - 1] + {previous};
      DayOfIds(date, states, n - 1, previous);
      DayStep(prefix, n, states[n - 1], previous);
    }
    NextInRange(date, if n <= 10000 then n else 10000, id);
    DayStep(prefix, n + 1, states[n], id);
  }

  lemma NoIds(prefix: string)
    ensures IdsUpTo(prefix, 0) == {}
  {
  }

  /** Whatever else the day's ids are: no table with this top can hold its next id. */
  ghost predicate AlwaysFresh(prefix: string, top: string)
  {
    forall ids: set<string>, id :: Top(ids, prefix, top) && IsNextId(ids, prefix, id) ==> id !in ids
  }

  lemma NextAfterTop(ids: set<string>, prefix: string, top: string, id: string)
    requires Top(ids, prefix, top)
    ensures IsNextId(ids, prefix, id) <==> id == prefix + Pad4(NumberAfter(top))
  {
    hide Pad4, NumberAfter, AtMost;
    assert !NoneWith(ids, prefix);
    if IsNextId(ids, prefix, id) {
      var other :| Top(ids, prefix, other) && id == prefix + Pad4(NumberAfter(other));
      TopUnique(ids, prefix, top, other);
    }
  }

  /** For every date, with ids created by hand or not: the next id is sure to be new exactly when it sorts
      after the top it is read off. */
  lemma FreshExactly(date: string, top: string)
    requires Prefix(date) <= top
    ensures AlwaysFresh(Prefix(date), top) <==> !AtMost(Prefix(date) + Pad4(NumberAfter(top)), top)
  {
    hide Pad4, NumberAfter, AtMost, Prefix, IsNextId;
    var prefix := Prefix(date);
    var next := prefix + Pad4(NumberAfter(top));
    if AtMost(next, top) {
      Total(top, top);
      assert Top({next, top}, prefix, top);
      NextAfterTop({next, top}, prefix, top, next);
    } else {
      forall ids: set<string>, id | Top(ids, prefix, top) && IsNextId(ids, prefix, id) ensures id !in ids {
        NextAfterTop(ids, prefix, top, id);
        assert prefix <= next;
      }
    }
  }

  /** After a generated id the next one is sure to be new exactly up to counter 9998. */
  lemma FreshAfterCounter(date: string, n: nat)
    requires n <= 9999
    ensures AlwaysFresh(Prefix(date), Prefix(date) + Pad4(n)) <==> n <= 9998
  {
    hide Pad4, NumberAfter, AtMost, Prefix, AlwaysFresh;
    FreshExactly(date, Prefix(date) + Pad4(n));
    NumberAfterId(date, n);
    if n <= 9998 {
      IdsInOrder(Prefix(date), n + 1, n);
    } else {
      TenThousandSortsLow(Prefix(date));
    }
  }

  /** For example, one id with a suffix that is not a number restarts the counter, and the next id is taken. */
  lemma CustomSuffixRepeatsAnId(date: string)
    ensures var prefix := Prefix(date);
            var ids := {prefix + Pad4(1), prefix + "manual"};
            exists id :: IsNextId(ids, prefix, id) && id in ids
  {
    var prefix := Prefix(date);
    var (first, custom) := (prefix + Pad4(1), prefix + "manual");
    assert Digits(1) == "1" && Zeros(3) == "000" && Pad4(1) == "0001" by {
      assert Zeros(1) == "0" && Zeros(2) == "00";
    }
    SamePrefix(prefix, "0001", "manual");
    Total(custom, custom);
    LastPartOf(prefix, "manual");
    assert ReadInt("manual").None?;
    assert Top({first, custom}, prefix, custom);
  }
}
