/** When the rendered message of an event's failures depends on the order the rules were evaluated in. */
module ErrorMessages {
  import opened Wrappers
  import opened ErrorCodes

  const SEPARATOR := " | "

  function Line(o: Outcome): string { o.rule + ": " + o.message }

  function Render(os: seq<Outcome>): string { Join(Messages(os), SEPARATOR) }

  /** Rendered side by side, the two read the same in either order. */
  predicate Swappable(o: Outcome, p: Outcome)
  {
    Line(o) + SEPARATOR + Line(p) == Line(p) + SEPARATOR + Line(o)
  }

  lemma RenderCons(os: seq<Outcome>)
    requires os != []
    ensures Render(os) == if |os| == 1 then Line(os[0]) else Line(os[0]) + SEPARATOR + Render(os[1..])
  {
    assert Messages(os)[1..] == Messages(os[1..]);
  }

  lemma RenderPair(o: Outcome, p: Outcome, rest: seq<Outcome>)
    ensures Render([o, p] + rest)
         == Line(o) + SEPARATOR + Line(p) + if rest == [] then "" else SEPARATOR + Render(rest)
  {
    hide Line, Render;
    RenderCons([o, p] + rest);
    assert ([o, p] + rest)[1..] == [p] + rest;
    RenderCons([p] + rest);
    if rest != [] {
      assert ([p] + rest)[1..] == rest;
      var (a, b, c, d) := (Line(o), SEPARATOR, Line(p), Render(rest));
      assert a + b + (c + b + d) == a + b + c + (b + d);
    } else {
      assert Line(o) + SEPARATOR + Line(p) + "" == Line(o) + SEPARATOR + Line(p);
    }
  }

  /** Two neighbours may change places without changing the rendering exactly when they are swappable. */
  lemma {:induction false} SwapNeighbours(before: seq<Outcome>, o: Outcome, p: Outcome, after: seq<Outcome>)
    ensures Render(before + [o, p] + after) == Render(before + [p, o] + after) <==> Swappable(o, p)
  {
    hide Line, Render;
    if before == [] {
      RenderPair(o, p, after);
      RenderPair(p, o, after);
      assert before + [o, p] + after == [o, p] + after && before + [p, o] + after == [p, o] + after;
      CancelSuffix(Line(o) + SEPARATOR + Line(p), Line(p) + SEPARATOR + Line(o),
                   if after == [] then "" else SEPARATOR + Render(after));
    } else {
      var (x, y) := (before + [o, p] + after, before + [p, o] + after);
      assert x[1..] == before[1..] + [o, p] + after && y[1..] == before[1..] + [p, o] + after;
      SwapNeighbours(before[1..], o, p, after);
      RenderCons(x);
      RenderCons(y);
      CancelPrefix(Line(before[0]) + SEPARATOR, Render(x[1..]), Render(y[1..]));
    }
  }

  lemma CancelSuffix(a: string, b: string, suffix: string)
    requires |a| == |b|
    ensures a + suffix == b + suffix <==> a == b
  {
    assert (a + suffix)[..|a|] == a && (b + suffix)[..|a|] == b;
  }

  lemma CancelPrefix(prefix: string, a: string, b: string)
    ensures prefix + a == prefix + b <==> a == b
  {
    assert (prefix + a)[|prefix|..] == a && (prefix + b)[|prefix|..] == b;
  }

  /** Moving an element to the front past elements it is swappable with. */
  lemma {:induction false} MoveToFront(os: seq<Outcome>, i: nat)
    requires i < |os| && forall j :: 0 <= j < i ==> Swappable(os[j], os[i])
    ensures Render([os[i]] + Without(os, i)) == Render(os)
    decreases i
  {
    hide Line, Render, Swappable;
    if i == 0 {
      assert [os[0]] + Without(os, 0) == os;
    } else {
      var (before, after) := (os[..i - 1], os[i + 1..]);
      var swapped := before + [os[i], os[i - 1]] + after;
      assert os == before + [os[i - 1], os[i]] + after;
      SwapNeighbours(before, os[i - 1], os[i], after);
      MoveToFront(swapped, i - 1);
      assert Without(swapped, i - 1) == Without(os, i);
    }
  }

  ghost predicate EqualsSwappable(os: seq<Outcome>)
  {
    forall i, j :: 0 <= i < |os| && 0 <= j < |os| && KeyOf(os[i]) == KeyOf(os[j]) ==> Swappable(os[i], os[j])
  }

  lemma SwappablePermutes(a: seq<Outcome>, b: seq<Outcome>)
    requires multiset(b) <= multiset(a) && EqualsSwappable(a)
    ensures EqualsSwappable(b)
  {
    hide Swappable, KeyOf;
    forall i, j | 0 <= i < |b| && 0 <= j < |b| && KeyOf(b[i]) == KeyOf(b[j])
      ensures Swappable(b[i], b[j])
    {
      assert b[i] in multiset(a) && b[j] in multiset(a);
      var m :| 0 <= m < |a| && a[m] == b[i];
      var n :| 0 <= n < |a| && a[n] == b[j];
    }
  }

  /** In an ordered sequence everything between two equal keys is equal to them. */
  lemma EqualBetween(ks: seq<Key>, i: nat, j: nat, k: nat)
    requires Ordered(ks) && i <= j <= k < |ks| && ks[i] == ks[k]
    ensures ks[j] == ks[i]
  {
    hide Before;
    if i < j < k {
      BeforeAntisymmetric(ks[i], ks[j]);
    }
  }

  lemma KeysWithout(ys: seq<Outcome>, i: nat)
    requires i < |ys| && Ordered(Keys(ys)) && Keys(ys)[0] == Keys(ys)[i]
    ensures Keys(Without(ys, i)) == Keys(ys)[1..]
  {
    hide KeyOf, Before;
    forall j | 0 <= j < |ys| - 1
      ensures Keys(Without(ys, i))[j] == Keys(ys)[1..][j]
    {
      if j < i {
        EqualBetween(Keys(ys), 0, j, i);
        EqualBetween(Keys(ys), 0, j + 1, i);
      }
    }
  }

  /** Two orderings of the same failures read the same if all equal-keyed failures are swappable. */
  lemma {:induction false} SameRender(a: seq<Outcome>, b: seq<Outcome>)
    requires Keys(a) == Keys(b) && Ordered(Keys(a)) && multiset(a) == multiset(b) && EqualsSwappable(b)
    ensures Render(a) == Render(b)
    decreases |a|
  {
    hide Line, Render, Swappable, KeyOf, Ordered;
    assert |a| == |multiset(a)| == |multiset(b)| == |b|;
    if a == [] {
      assert b == [];
    } else {
      assert a[0] in multiset(b);
      var i :| 0 <= i < |b| && b[i] == a[0];
      var rest := Without(b, i);
      assert Keys(b)[0] == Keys(a)[0] == KeyOf(a[0]) == Keys(b)[i];
      forall j | 0 <= j < i ensures Swappable(b[j], b[i]) {
        EqualBetween(Keys(b), 0, j, i);
        assert Keys(b)[j] == KeyOf(b[j]);
      }
      MoveToFront(b, i);
      KeysWithout(b, i);
      assert Keys(a)[1..] == Keys(a[1..]);
      OrderedTail(Keys(a));
      DeleteAt(b, i);
      TailOf(a);
      SwappablePermutes(b, rest);
      SameRender(a[1..], rest);
      RenderCons(a);
      RenderCons([a[0]] + rest);
      assert ([a[0]] + rest)[1..] == rest;
    }
  }

  lemma OrderedTail(ks: seq<Key>)
    requires Ordered(ks) && ks != []
    ensures Ordered(ks[1..])
  {
  }

  /** A sequence already in order is what sorting it returns. */
  lemma {:induction false} SortedIsFixed(os: seq<Outcome>)
    requires Ordered(Keys(os))
    ensures SortFailed(os) == os
  {
    hide Before;
    if os != [] {
      var front, last := os[..|os| - 1], os[|os| - 1];
      assert os == front + [last];
      assert Keys(front) == Keys(os)[..|front|];
      SortedIsFixed(front);
      if front != [] {
        assert Before(Keys(os)[|front| - 1], Keys(os)[|front|]);
      }
    }
  }

  /** Of two failures, the later brought next to the earlier, before or after it. */
  function Adjacent(s: seq<Outcome>, a: nat, b: nat, pair: seq<Outcome>): seq<Outcome>
    requires a < b < |s|
  {
    s[..a] + pair + (s[a + 1..b] + s[b + 1..])
  }

  lemma AdjacentPermutes(s: seq<Outcome>, a: nat, b: nat, pair: seq<Outcome>)
    requires a < b < |s| && multiset(pair) == multiset{s[a], s[b]}
    ensures multiset(Adjacent(s, a, b, pair)) == multiset(s)
  {
    assert s == s[..a] + ([s[a]] + (s[a + 1..b] + ([s[b]] + s[b + 1..])));
  }

  lemma AdjacentKeys(s: seq<Outcome>, a: nat, b: nat, pair: seq<Outcome>)
    requires a < b < |s| && |pair| == 2 && Ordered(Keys(s))
    requires KeyOf(pair[0]) == KeyOf(pair[1]) == KeyOf(s[a]) == KeyOf(s[b])
    ensures Keys(Adjacent(s, a, b, pair)) == Keys(s)
  {
    hide KeyOf, Before, Ordered;
    var m := Adjacent(s, a, b, pair);
    assert Keys(s)[a] == Keys(s)[b];
    forall j | 0 <= j < |s| ensures KeyOf(m[j]) == KeyOf(s[j]) {
      if a < j <= b {
        EqualBetween(Keys(s), a, j, b);
        EqualBetween(Keys(s), a, j - 1, b);
        assert Keys(s)[j] == KeyOf(s[j]) && Keys(s)[j - 1] == KeyOf(s[j - 1]);
      }
    }
  }

  lemma MessageOf(os: seq<Outcome>)
    requires |os| >= 2
    ensures DeterminePrimary(os).message == Render(SortFailed(os))
  {
    hide SortFailed, CodeFor, Join;
  }

  lemma {:induction false} LineAppears(os: seq<Outcome>, i: nat) returns (front: string, back: string)
    requires i < |os|
    ensures Render(os) == front + (os[i].rule + ": " + os[i].message) + back
  {
    hide Render;
    RenderCons(os);
    if i == 0 {
      front, back := "", if |os| == 1 then "" else SEPARATOR + Render(os[1..]);
      assert Line(os[0]) == "" + Line(os[0]) == Line(os[0]) + "";
      assert Render(os) == "" + Line(os[0]) + back;
    } else {
      var f, b := LineAppears(os[1..], i - 1);
      front, back := Line(os[0]) + SEPARATOR + f, b;
      assert Line(os[0]) + SEPARATOR + (f + Line(os[i]) + b) == (Line(os[0]) + SEPARATOR + f) + Line(os[i]) + b;
    }
  }

  /** A single failure's message is its own text; of several, each is found in the message with its rule and text. */
  lemma MessageTellsAll(failed: seq<Outcome>, o: Outcome) returns (front: string, back: string)
    requires o in failed
    ensures var message := DeterminePrimary(failed).message;
            if |failed| == 1 then message == o.message else message == front + (o.rule + ": " + o.message) + back
  {
    hide Render, CodeFor, Names;
    front, back := "", "";
    SortFailedSorts(failed);
    var sorted := SortFailed(failed);
    assert o in multiset(sorted);
    var i :| 0 <= i < |sorted| && sorted[i] == o;
    if |failed| >= 2 {
      MessageOf(failed);
      front, back := LineAppears(sorted, i);
    }
  }

  lemma UnswappableShows(xs: seq<Outcome>)
    requires |xs| >= 2 && !EqualsSwappable(xs)
    ensures exists x: seq<Outcome>, y: seq<Outcome> :: multiset(x) == multiset(y) == multiset(xs) &&
                           DeterminePrimary(x).message != DeterminePrimary(y).message
  {
    hide Line, Render, Swappable, KeyOf, DeterminePrimary, Ordered;
    var s := SortFailed(xs);
    SortFailedSorts(xs);
    if EqualsSwappable(s) {
      SwappablePermutes(s, xs);
    }
    var i, j :| 0 <= i < |s| && 0 <= j < |s| && KeyOf(s[i]) == KeyOf(s[j]) && !Swappable(s[i], s[j]);
    NotSwappable(s[i], s[j]);
    var (a, b) := if i < j then (i, j) else (j, i);
    UnswappableAdjacent(s, a, b);
  }

  lemma UnswappableAdjacent(s: seq<Outcome>, a: nat, b: nat)
    requires Ordered(Keys(s)) && a < b < |s| && KeyOf(s[a]) == KeyOf(s[b]) && !Swappable(s[a], s[b])
    ensures exists x: seq<Outcome>, y: seq<Outcome> :: multiset(x) == multiset(y) == multiset(s) &&
                           DeterminePrimary(x).message != DeterminePrimary(y).message
  {
    hide Line, Render, Swappable, KeyOf, DeterminePrimary, Ordered;
    var (x, y) := (Adjacent(s, a, b, [s[a], s[b]]), Adjacent(s, a, b, [s[b], s[a]]));
    AdjacentPermutes(s, a, b, [s[a], s[b]]);
    AdjacentPermutes(s, a, b, [s[b], s[a]]);
    AdjacentKeys(s, a, b, [s[a], s[b]]);
    AdjacentKeys(s, a, b, [s[b], s[a]]);
    SortedIsFixed(x);
    SortedIsFixed(y);
    MessageOf(x);
    MessageOf(y);
    SwapNeighbours(s[..a], s[a], s[b], s[a + 1..b] + s[b + 1..]);
  }

  lemma NotSwappable(o: Outcome, p: Outcome)
    requires !Swappable(o, p)
    ensures o != p && !Swappable(p, o)
  {
  }

  lemma SwappableReads(xs: seq<Outcome>, ys: seq<Outcome>)
    requires |xs| >= 2 && EqualsSwappable(xs) && multiset(xs) == multiset(ys)
    ensures DeterminePrimary(xs).message == DeterminePrimary(ys).message
  {
    hide Line, Render, Swappable, KeyOf, DeterminePrimary, Ordered, EqualsSwappable;
    assert |xs| == |multiset(xs)| == |multiset(ys)| == |ys|;
    var (a, b) := (SortFailed(xs), SortFailed(ys));
    SortFailedSorts(xs);
    SortFailedSorts(ys);
    KeysPermute(a, b);
    OrderedIsUnique(Keys(a), Keys(b));
    SwappablePermutes(xs, b);
    SameRender(a, b);
    MessageOf(xs);
    MessageOf(ys);
  }

  ghost predicate MessageIsCanonical(xs: seq<Outcome>)
  {
    forall x: seq<Outcome>, y: seq<Outcome> :: multiset(x) == multiset(xs) && multiset(y) == multiset(xs) ==>
      DeterminePrimary(x).message == DeterminePrimary(y).message
  }

  /** The message is the same for every permutation of the failures exactly when any two of them with the
      same weight and rule read the same side by side in either order. */
  lemma MessageCanonicalExactly(xs: seq<Outcome>)
    ensures MessageIsCanonical(xs) <==> EqualsSwappable(xs)
  {
    hide Line, Swappable, KeyOf, DeterminePrimary, Ordered;
    if |xs| < 2 {
      forall x: seq<Outcome>, y: seq<Outcome> | multiset(x) == multiset(xs) && multiset(y) == multiset(xs)
        ensures DeterminePrimary(x).message == DeterminePrimary(y).message
      {
        OnlyOne(xs, x);
        OnlyOne(xs, y);
      }
      if |xs| == 1 {
        SelfSwappable(xs[0]);
      }
    } else if EqualsSwappable(xs) {
      forall x: seq<Outcome>, y: seq<Outcome> | multiset(x) == multiset(xs) && multiset(y) == multiset(xs)
        ensures DeterminePrimary(x).message == DeterminePrimary(y).message
      {
        SwappableReads(xs, x);
        SwappableReads(xs, y);
      }
    } else {
      UnswappableShows(xs);
    }
  }

  lemma OnlyOne(xs: seq<Outcome>, x: seq<Outcome>)
    requires |xs| < 2 && multiset(x) == multiset(xs)
    ensures x == xs
  {
    assert |x| == |multiset(x)| == |multiset(xs)| == |xs|;
    if |xs| == 1 {
      assert x[0] in multiset(xs);
    }
  }

  lemma SelfSwappable(o: Outcome)
    ensures Swappable(o, o)
  {
  }

  /** Failures of one rule are swappable when they say the same, and, if their texts are equally long, only then. */
  lemma SwappableExactly(o: Outcome, p: Outcome)
    requires o.rule == p.rule
    ensures o.message == p.message ==> Swappable(o, p)
    ensures |o.message| == |p.message| && Swappable(o, p) ==> o.message == p.message
  {
    if |o.message| == |p.message| && Swappable(o, p) {
      assert Line(o) + SEPARATOR + Line(p) == Line(o) + (SEPARATOR + Line(p));
      assert Line(p) + SEPARATOR + Line(o) == Line(p) + (SEPARATOR + Line(o));
      CancelBoth(Line(o), SEPARATOR + Line(p), Line(p), SEPARATOR + Line(o));
      CancelPrefix(o.rule + ": ", o.message, p.message);
    }
  }

  lemma CancelBoth(a: string, x: string, b: string, y: string)
    requires a + x == b + y && |a| == |b|
    ensures a == b
  {
    assert (a + x)[..|a|] == a && (b + y)[..|b|] == b;
  }

  /** Texts that contain the separator can differ and still read the same in either order. */
  lemma DifferentTextsMaySwap()
    ensures Swappable(Outcome("r", false, None, "a | r: a"), Outcome("r", false, None, "a"))
  {
  }

  /** Two failures of one rule at one weight whose texts differ but are equally long: the message depends on
      which was evaluated first. */
  lemma MessageFollowsEvaluationOrder(x: Outcome, y: Outcome)
    requires KeyOf(x) == KeyOf(y) && |x.message| == |y.message| && x.message != y.message
    ensures DeterminePrimary([x, y]).message != DeterminePrimary([y, x]).message
  {
    hide Line, Render, DeterminePrimary;
    BeforeTotal(KeyOf(x), KeyOf(x));
    assert Keys([x, y]) == [KeyOf(x), KeyOf(x)] == Keys([y, x]);
    SortedIsFixed([x, y]);
    SortedIsFixed([y, x]);
    MessageOf([x, y]);
    MessageOf([y, x]);
    assert [] + [x, y] + [] == [x, y] && [] + [y, x] + [] == [y, x];
    SwapNeighbours([], x, y, []);
    SwappableExactly(x, y);
  }
}
