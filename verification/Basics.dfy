/** Values shared by the components. */
module Basics {

  datatype Option<+T> = None | Some(value: T)

  /** A span, reduced to the columns the components look at. */
  datatype Span = Span(
    traceId: string,
    spanId: string,
    parentSpanId: Option<string>,
    name: string,
    startTime: int,
    endTime: int)

  predicate Distinct<T(==)>(xs: seq<T>) {
    forall i, j :: 0 <= i < j < |xs| ==> xs[i] != xs[j]
  }

  function SetOf<T>(xs: seq<T>): set<T> { set x | x in xs }

  lemma {:induction false} DistinctSize<T>(xs: seq<T>)
    requires Distinct(xs)
    ensures |SetOf(xs)| == |xs|
  {
    if xs != [] {
      var n := |xs| - 1;
      DistinctSize(xs[..n]);
      assert xs[n] !in SetOf(xs[..n]);
      assert SetOf(xs) == SetOf(xs[..n]) + {xs[n]};
    }
  }
}
