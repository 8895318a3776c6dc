/** Multiset sums over the items of a sequence, each item weighted together with its index. */
module Sums {

  function Sum<T, R>(f: (nat, T) -> multiset<R>, xs: seq<T>): multiset<R> {
    if xs == [] then multiset{} else Sum(f, xs[..|xs| - 1]) + f(|xs| - 1, xs[|xs| - 1])
  }

  lemma SumSnoc<T, R>(f: (nat, T) -> multiset<R>, xs: seq<T>, x: T)
    ensures Sum(f, xs + [x]) == Sum(f, xs) + f(|xs|, x)
  {
    assert (xs + [x])[..|xs|] == xs;
  }

  lemma {:induction false} SumAgrees<T, U, R>(f: (nat, T) -> multiset<R>, g: (nat, U) -> multiset<R>, xs: seq<T>,
                                              ys: seq<U>)
    requires |xs| == |ys| && forall i :: 0 <= i < |xs| ==> f(i, xs[i]) == g(i, ys[i])
    ensures Sum(f, xs) == Sum(g, ys)
  {
    if xs != [] { SumAgrees(f, g, xs[..|xs| - 1], ys[..|xs| - 1]); }
  }

  lemma {:induction false} SumAdds<T, R>(
    f: (nat, T) -> multiset<R>, g: (nat, T) -> multiset<R>, h: (nat, T) -> multiset<R>, xs: seq<T>, ys: seq<T>)
    requires |xs| == |ys| && forall i :: 0 <= i < |xs| ==> h(i, ys[i]) == f(i, xs[i]) + g(i, xs[i])
    ensures Sum(h, ys) == Sum(f, xs) + Sum(g, xs)
  {
    if xs != [] { SumAdds(f, g, h, xs[..|xs| - 1], ys[..|xs| - 1]); }
  }

  lemma {:induction false} SumEmpty<T, R>(f: (nat, T) -> multiset<R>, xs: seq<T>)
    requires forall i :: 0 <= i < |xs| ==> f(i, xs[i]) == multiset{}
    ensures Sum(f, xs) == multiset{}
  {
    if xs != [] { SumEmpty(f, xs[..|xs| - 1]); }
  }

  lemma {:induction false} SumContains<T, R>(f: (nat, T) -> multiset<R>, xs: seq<T>, i: nat)
    requires i < |xs|
    ensures f(i, xs[i]) <= Sum(f, xs)
  {
    if i < |xs| - 1 { SumContains(f, xs[..|xs| - 1], i); }
  }

  lemma {:induction false} SumMonotone<T, R>(f: (nat, T) -> multiset<R>, g: (nat, T) -> multiset<R>, xs: seq<T>)
    requires forall i :: 0 <= i < |xs| ==> f(i, xs[i]) <= g(i, xs[i])
    ensures Sum(f, xs) <= Sum(g, xs)
  {
    if xs != [] { SumMonotone(f, g, xs[..|xs| - 1]); }
  }

  lemma MovePart<R>(a: multiset<R>, b: multiset<R>, c: multiset<R>)
    ensures a + b + c == a + c + b
  {
  }

  /** Changing the item at one index exchanges its share of the sum. */
  lemma {:induction false} SumUpdate<T, R>(f: (nat, T) -> multiset<R>, xs: seq<T>, i: nat, x: T)
    requires i < |xs|
    ensures Sum(f, xs[i := x]) + f(i, xs[i]) == Sum(f, xs) + f(i, x)
  {
    var n := |xs| - 1;
    var ys := xs[i := x];
    if i < n {
      assert ys[..n] == xs[..n][i := x] && ys[n] == xs[n];
      SumUpdate(f, xs[..n], i, x);
      MovePart(Sum(f, ys[..n]), f(n, xs[n]), f(i, xs[i]));
      MovePart(Sum(f, xs[..n]), f(n, xs[n]), f(i, x));
    } else {
      assert ys[..n] == xs[..n];
    }
  }
}
