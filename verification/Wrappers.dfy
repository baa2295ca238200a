/** Optional values and repeated sequences, shared by the models. */
module Wrappers {
  datatype Option<+T> = None | Some(value: T)

  function Repeat<T>(xs: seq<T>, times: nat): seq<T>
  {
    if times == 0 then [] else xs + Repeat(xs, times - 1)
  }

  lemma {:induction false} RepeatSnoc<T>(xs: seq<T>, times: nat)
    ensures Repeat(xs, times) + xs == Repeat(xs, times + 1)
  {
    if times > 0 {
      RepeatSnoc(xs, times - 1);
      assert Repeat(xs, times) + xs == xs + (Repeat(xs, times - 1) + xs);
    } else {
      assert Repeat(xs, 0) + xs == xs == xs + Repeat(xs, 0);
    }
  }

  lemma RepeatOnce<T>(xs: seq<T>)
    ensures Repeat(xs, 0) == [] && Repeat(xs, 1) == xs
  {
    assert xs + Repeat(xs, 0) == xs;
  }

  /** Twice or more, every element is repeated. */
  lemma {:induction false} RepeatCounts<T>(xs: seq<T>, times: nat, x: T)
    ensures times >= 1 ==> multiset(Repeat(xs, times))[x] >= multiset(xs)[x]
    ensures times >= 2 && x in xs ==> multiset(Repeat(xs, times))[x] >= 2
    ensures multiset(xs)[x] == 0 ==> multiset(Repeat(xs, times))[x] == 0
  {
    if times > 0 {
      RepeatCounts(xs, times - 1, x);
      assert multiset(Repeat(xs, times)) == multiset(xs) + multiset(Repeat(xs, times - 1));
      assert x in xs <==> multiset(xs)[x] > 0;
    }
  }
}
