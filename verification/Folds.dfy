/** Left folds over sequences and iterated functions, for any state type. */
module Folds {

  function Fold<S, A>(f: (S, A) -> S, s: S, xs: seq<A>): S
    decreases |xs|
  {
    if xs == [] then s else Fold(f, f(s, xs[0]), xs[1..])
  }

  function Iterate<S>(f: S -> S, n: nat, s: S): S
    decreases n, s
  {
    if n == 0 then s else Iterate(f, n - 1, f(s))
  }

  function Expand<A, B>(e: A -> seq<B>, xs: seq<A>): seq<B> {
    if xs == [] then [] else e(xs[0]) + Expand(e, xs[1..])
  }

  lemma {:induction false} FoldConcat<S, A>(f: (S, A) -> S, s: S, xs: seq<A>, ys: seq<A>)
    ensures Fold(f, s, xs + ys) == Fold(f, Fold(f, s, xs), ys)
    decreases |xs|
  {
    if xs == [] {
      assert xs + ys == ys;
    } else {
      assert (xs + ys)[1..] == xs[1..] + ys;
      FoldConcat(f, f(s, xs[0]), xs[1..], ys);
    }
  }

  lemma FoldLast<S, A>(f: (S, A) -> S, s: S, xs: seq<A>, x: A)
    ensures Fold(f, s, xs + [x]) == f(Fold(f, s, xs), x)
  {
    FoldConcat(f, s, xs, [x]);
  }

  lemma {:induction false} IterateLast<S>(f: S -> S, n: nat, s: S)
    ensures Iterate(f, n + 1, s) == f(Iterate(f, n, s))
    decreases n
  {
    if n > 0 { IterateLast(f, n - 1, f(s)); }
  }

  lemma {:induction false} IterateAgrees<S(!new)>(f: S -> S, g: S -> S, n: nat, s: S)
    requires forall x :: f(x) == g(x)
    ensures Iterate(f, n, s) == Iterate(g, n, s)
    decreases n
  {
    if n > 0 { IterateAgrees(f, g, n - 1, f(s)); }
  }

  lemma {:induction false} FoldAgrees<S(!new), A(!new)>(f: (S, A) -> S, g: (S, A) -> S, s: S, xs: seq<A>)
    requires forall x, a :: f(x, a) == g(x, a)
    ensures Fold(f, s, xs) == Fold(g, s, xs)
    decreases |xs|
  {
    if xs != [] { FoldAgrees(f, g, f(s, xs[0]), xs[1..]); }
  }

  /** Folding whole items is folding their parts, when each item is the fold of its parts. */
  lemma {:induction false} FoldExpand<S(!new), A(!new), B>(f: (S, A) -> S, g: (S, B) -> S, e: A -> seq<B>, s: S,
                                        xs: seq<A>)
    requires forall x, a :: f(x, a) == Fold(g, x, e(a))
    ensures Fold(f, s, xs) == Fold(g, s, Expand(e, xs))
    decreases |xs|
  {
    if xs != [] {
      FoldConcat(g, s, e(xs[0]), Expand(e, xs[1..]));
      FoldExpand(f, g, e, f(s, xs[0]), xs[1..]);
    }
  }

  lemma {:induction false} FoldInjective<S(!new), A(!new)>(f: (S, A) -> S, s: S, t: S, xs: seq<A>)
    requires forall x, y, a :: f(x, a) == f(y, a) ==> x == y
    requires s != t
    ensures Fold(f, s, xs) != Fold(f, t, xs)
    decreases |xs|
  {
    if xs != [] { FoldInjective(f, f(s, xs[0]), f(t, xs[0]), xs[1..]); }
  }

  /** A relation indexed by the number of items still to come, kept by every step, survives to the end. */
  lemma {:induction false} FoldRelated<S(!new), A(!new)>(
    f: (S, A) -> S, r: (nat, S, S) -> bool, limit: nat, s: S, t: S, xs: seq<A>, ys: seq<A>)
    requires forall k: nat, x, y, a, b :: k < limit && r(k + 1, x, y) ==> r(k, f(x, a), f(y, b))
    requires |xs| == |ys| <= limit && r(|xs|, s, t)
    ensures r(0, Fold(f, s, xs), Fold(f, t, ys))
    decreases |xs|
  {
    if xs != [] {
      assert r((|xs| - 1) + 1, s, t);
      FoldRelated(f, r, limit, f(s, xs[0]), f(t, ys[0]), xs[1..], ys[1..]);
    }
  }

  /** Two operands that every step treats independently can be iterated independently. */
  lemma {:induction false} IterateSplits<S(!new)>(
    f: S -> S, mix: (S, S) -> S, half: S -> S, ready: (nat, S) -> bool, n: nat, l: S, h: S)
    requires forall k: nat, x, y {:trigger ready(k, y), mix(x, y)} :: 0 < k && ready(k, y) ==>
        f(mix(x, y)) == mix(f(x), half(y))
    requires forall k: nat, y {:trigger ready(k, y)} :: 0 < k && ready(k, y) ==> ready(k - 1, half(y))
    requires ready(n, h)
    ensures Iterate(f, n, mix(l, h)) == mix(Iterate(f, n, l), Iterate(half, n, h))
    decreases n
  {
    if n > 0 {
      assert ready(n, h);
      assert f(mix(l, h)) == mix(f(l), half(h));
      IterateSplits(f, mix, half, ready, n - 1, f(l), half(h));
    }
  }

  /** The first `n` bits read off a word, lowest first. */
  function LowBits<S>(low: S -> bool, half: S -> S, word: S, n: nat): (bits: seq<bool>)
    ensures |bits| == n
    decreases n, word
  {
    if n == 0 then [] else [low(word)] + LowBits(low, half, half(word), n - 1)
  }

  lemma {:induction false} LowBitsInjective<S(!new)>(low: S -> bool, half: S -> S, v: S, w: S, n: nat)
    requires forall x, y :: low(x) == low(y) && half(x) == half(y) ==> x == y
    requires LowBits(low, half, v, n) == LowBits(low, half, w, n)
    requires Iterate(half, n, v) == Iterate(half, n, w)
    ensures v == w
    decreases n
  {
    if n > 0 {
      var a, b := LowBits(low, half, v, n), LowBits(low, half, w, n);
      assert a[0] == b[0] && a[1..] == b[1..];
      LowBitsInjective(low, half, half(v), half(w), n - 1);
    }
  }

  /** Mixing a word in at once and then shifting is mixing its bits in one before each shift. */
  lemma {:induction false} IterateIsFold<S(!new)>(
    f: S -> S, g: (S, bool) -> S, mix: (S, S) -> S, low: S -> bool, half: S -> S, n: nat, t: S, word: S)
    requires forall x, y :: f(mix(x, y)) == mix(g(x, low(y)), half(y))
    ensures Iterate(f, n, mix(t, word)) == mix(Fold(g, t, LowBits(low, half, word, n)), Iterate(half, n, word))
    decreases n
  {
    if n > 0 {
      IterateIsFold(f, g, mix, low, half, n - 1, g(t, low(word)), half(word));
      assert LowBits(low, half, word, n)[1..] == LowBits(low, half, half(word), n - 1);
    }
  }

  /** If folding separates any two strings that differ in their first item, it separates all. */
  lemma {:induction false} FoldSeparates<S(!new), A(!new)>(f: (S, A) -> S, limit: nat, s: S, xs: seq<A>, ys: seq<A>)
    requires forall t, us, vs :: 0 < |us| == |vs| <= limit && us[0] != vs[0] ==> Fold(f, t, us) != Fold(f, t, vs)
    requires |xs| == |ys| <= limit && xs != ys
    ensures Fold(f, s, xs) != Fold(f, s, ys)
    decreases |xs|
  {
    if xs[0] == ys[0] {
      assert xs == [xs[0]] + xs[1..] && ys == [ys[0]] + ys[1..];
      FoldSeparates(f, limit, f(s, xs[0]), xs[1..], ys[1..]);
    }
  }

  lemma ConcatEqual<A>(x: seq<A>, y: seq<A>, a: seq<A>, b: seq<A>)
    requires |x| == |a|
    ensures x + y == a + b <==> x == a && y == b
  {
    if x + y == a + b {
      assert x == (x + y)[..|x|] && a == (a + b)[..|x|];
      assert y == (x + y)[|x|..] && b == (a + b)[|x|..];
    }
  }

  lemma {:induction false} ExpandConcat<A, B>(e: A -> seq<B>, xs: seq<A>, ys: seq<A>)
    ensures Expand(e, xs + ys) == Expand(e, xs) + Expand(e, ys)
  {
    if xs == [] {
      assert xs + ys == ys;
    } else {
      assert (xs + ys)[1..] == xs[1..] + ys;
      ExpandConcat(e, xs[1..], ys);
    }
  }

  lemma SplitInThree<A>(a: seq<A>, lo: nat, hi: nat)
    requires lo <= hi <= |a|
    ensures a == a[..lo] + a[lo..hi] + a[hi..]
    ensures a == a[..lo] + (a[lo..hi] + a[hi..])
  {
  }

  lemma SuffixOfConcat<A>(x: seq<A>, y: seq<A>)
    ensures (x + y)[|x|..] == y && x <= (x + y)[0..]
  {
  }

  lemma ExpandLast<A, B>(e: A -> seq<B>, xs: seq<A>, i: nat)
    requires i < |xs|
    ensures Expand(e, xs[..i + 1]) == Expand(e, xs[..i]) + e(xs[i])
  {
    assert xs[..i + 1] == xs[..i] + [xs[i]];
    ExpandConcat(e, xs[..i], [xs[i]]);
    assert Expand(e, [xs[i]]) == e(xs[i]) + [];
  }
}
