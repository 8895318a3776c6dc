/** The shape of an OTLP export request: resource spans hold scope spans, which hold spans. */
module Otlp {
  import opened Basics
  import opened Folds
  import opened Streams
  import opened SegmentRows

  type Request = seq<seq<seq<Span>>>

  function Itself(spans: seq<Span>): seq<Span> { spans }

  function ResourceSpans(resource: seq<seq<Span>>): seq<Span> { Expand(Itself, resource) }

  /** All spans of a request, in order. */
  function AllSpans(request: Request): seq<Span> { Expand(ResourceSpans, request) }

  // ----- Counting by indices

  /** The spans in the first `j` scopes of a resource. */
  function SpansInScopes(resource: seq<seq<Span>>, j: nat): nat
    requires j <= |resource|
  {
    if j == 0 then 0 else SpansInScopes(resource, j - 1) + |resource[j - 1]|
  }

  /** The spans in all scopes of the first `i` resources. */
  function SpansInResources(request: Request, i: nat): nat
    requires i <= |request|
  {
    if i == 0 then 0
    else SpansInResources(request, i - 1) + SpansInScopes(request[i - 1], |request[i - 1]|)
  }

  /** Where span `k` of scope `j` of resource `i` stands among all spans. */
  function Position(request: Request, i: nat, j: nat, k: nat): nat
    requires i < |request| && j < |request[i]| && k < |request[i][j]|
  {
    SpansInResources(request, i) + SpansInScopes(request[i], j) + k
  }

  lemma {:induction false} ScopesTaken(resource: seq<seq<Span>>, n: nat, j: nat)
    requires j <= n <= |resource|
    ensures SpansInScopes(resource[..n], j) == SpansInScopes(resource, j)
  {
    if j > 0 { ScopesTaken(resource, n, j - 1); }
  }

  lemma {:induction false} ResourcesTaken(request: Request, n: nat, i: nat)
    requires i <= n <= |request|
    ensures SpansInResources(request[..n], i) == SpansInResources(request, i)
  {
    if i > 0 { ResourcesTaken(request, n, i - 1); }
  }

  lemma {:induction false} ResourceSpansSize(resource: seq<seq<Span>>)
    ensures |ResourceSpans(resource)| == SpansInScopes(resource, |resource|)
  {
    if resource != [] {
      var n := |resource| - 1;
      ResourceSpansSize(resource[..n]);
      ExpandLast(Itself, resource, n);
      ScopesTaken(resource, n, n);
      assert resource[..n + 1] == resource;
    }
  }

  lemma {:induction false} ResourceSpansAt(resource: seq<seq<Span>>, j: nat, k: nat)
    requires j < |resource| && k < |resource[j]|
    ensures SpansInScopes(resource, j) + k < |ResourceSpans(resource)|
    ensures ResourceSpans(resource)[SpansInScopes(resource, j) + k] == resource[j][k]
  {
    var n := |resource| - 1;
    ExpandLast(Itself, resource, n);
    assert resource[..n + 1] == resource;
    ResourceSpansSize(resource[..n]);
    ScopesTaken(resource, n, n);
    ScopesTaken(resource, n, j);
    if j < n { ResourceSpansAt(resource[..n], j, k); }
  }

  lemma {:induction false} AllSpansSize(request: Request)
    ensures |AllSpans(request)| == SpansInResources(request, |request|)
  {
    if request != [] {
      var n := |request| - 1;
      AllSpansSize(request[..n]);
      ExpandLast(ResourceSpans, request, n);
      ResourceSpansSize(request[n]);
      ResourcesTaken(request, n, n);
      assert request[..n + 1] == request;
    }
  }

  lemma {:induction false} SpanStandsAt(request: Request, i: nat, j: nat, k: nat)
    requires i < |request| && j < |request[i]| && k < |request[i][j]|
    ensures Position(request, i, j, k) < |AllSpans(request)|
    ensures AllSpans(request)[Position(request, i, j, k)] == request[i][j][k]
  {
    var n := |request| - 1;
    ExpandLast(ResourceSpans, request, n);
    assert request[..n + 1] == request;
    AllSpansSize(request[..n]);
    ResourcesTaken(request, n, n);
    ResourcesTaken(request, n, i);
    if i < n { SpanStandsAt(request[..n], i, j, k); } else { ResourceSpansAt(request[n], j, k); }
  }

  /** What the spans of a request are: all of them, each at the position given by the lengths before it. */
  lemma AllSpansAt(request: Request)
    ensures |AllSpans(request)| == SpansInResources(request, |request|)
    ensures forall i: nat, j: nat, k: nat :: i < |request| && j < |request[i]| && k < |request[i][j]| ==>
      Position(request, i, j, k) < |AllSpans(request)|
      && AllSpans(request)[Position(request, i, j, k)] == request[i][j][k]
  {
    AllSpansSize(request);
    forall i: nat, j: nat, k: nat | i < |request| && j < |request[i]| && k < |request[i][j]|
      ensures Position(request, i, j, k) < |AllSpans(request)|
      ensures AllSpans(request)[Position(request, i, j, k)] == request[i][j][k]
    {
      SpanStandsAt(request, i, j, k);
    }
  }

  // ----- The nested loops

  /** The gateway's count of the spans it accepts. */
  method CountSpans(request: Request) returns (spans: nat)
    ensures spans == SpansInResources(request, |request|)
    ensures spans == |AllSpans(request)|
  {
    spans := 0;
    for i := 0 to |request|
      invariant spans == |Expand(ResourceSpans, request[..i])|
    {
      var resource := request[i];
      ghost var before := spans;
      for j := 0 to |resource|
        invariant spans == before + |Expand(Itself, resource[..j])|
      {
        spans := spans + |resource[j]|;
        ExpandLast(Itself, resource, j);
      }
      assert resource[..|resource|] == resource;
      ExpandLast(ResourceSpans, request, i);
    }
    assert request[..|request|] == request;
    AllSpansAt(request);
  }

  /** The materializer's rows of one record: one per span, each with the record's provenance. */
  method RowsOfRequest(request: Request, source: nat, offset: nat) returns (rows: seq<Row>)
    ensures |rows| == |AllSpans(request)| == SpansInResources(request, |request|)
    ensures forall i: nat, j: nat, k: nat :: i < |request| && j < |request[i]| && k < |request[i][j]| ==>
      Position(request, i, j, k) < |rows|
      && rows[Position(request, i, j, k)] == Row(source, offset, request[i][j][k])
    ensures forall k :: 0 <= k < |rows| ==> rows[k] == Row(source, offset, AllSpans(request)[k])
  {
    rows := [];
    ghost var seen: seq<Span> := [];
    for i := 0 to |request|
      invariant seen == Expand(ResourceSpans, request[..i])
      invariant |rows| == |seen| && forall k :: 0 <= k < |rows| ==> rows[k] == Row(source, offset, seen[k])
    {
      var resource := request[i];
      ghost var before := seen;
      for j := 0 to |resource|
        invariant seen == before + Expand(Itself, resource[..j])
        invariant |rows| == |seen| && forall k :: 0 <= k < |rows| ==> rows[k] == Row(source, offset, seen[k])
      {
        ExpandLast(Itself, resource, j);
        ghost var prior := seen;
        for k := 0 to |resource[j]|
          invariant seen == prior + resource[j][..k]
          invariant |rows| == |seen| && forall k :: 0 <= k < |rows| ==> rows[k] == Row(source, offset, seen[k])
        {
          rows, seen := rows + [Row(source, offset, resource[j][k])], seen + [resource[j][k]];
        }
        assert resource[j][..|resource[j]|] == resource[j];
      }
      assert resource[..|resource|] == resource;
      ExpandLast(ResourceSpans, request, i);
    }
    assert request[..|request|] == request;
    AllSpansAt(request);
  }
}
