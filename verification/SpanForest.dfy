/** The span tree of the trace viewer: a flat list with parent pointers, possibly dangling or
    cyclic, becomes a forest, and the forest becomes the list of visible rows. */
module SpanForest {
  import opened Basics

  type Index = map<string, Span>

  ghost predicate DistinctIds(spans: seq<Span>) {
    forall i, j :: 0 <= i < j < |spans| ==> spans[i].spanId != spans[j].spanId
  }

  /** No parent, an empty parent id, or a parent that is not in the trace. */
  predicate IsRoot(ids: set<string>, s: Span) {
    s.parentSpanId.None? || s.parentSpanId.value == "" || s.parentSpanId.value !in ids
  }

  // ----- Classification

  /** The slot a span is filed under: the list of roots, or the child list of its parent. */
  function SlotOf(ids: set<string>, s: Span): Option<string> {
    if IsRoot(ids, s) then None else s.parentSpanId
  }

  /** The ids of the spans of one slot, in input order. */
  function Filed(spans: seq<Span>, ids: set<string>, slot: Option<string>): seq<string> {
    if spans == [] then []
    else
      var s := spans[|spans| - 1];
      Filed(spans[..|spans| - 1], ids, slot) + if SlotOf(ids, s) == slot then [s.spanId] else []
  }

  /** Later spans overwrite earlier ones with the same id. */
  function IndexOf(spans: seq<Span>): Index {
    if spans == [] then map[]
    else IndexOf(spans[..|spans| - 1])[spans[|spans| - 1].spanId := spans[|spans| - 1]]
  }

  /** Span `i` carries the id, and none behind it does. */
  ghost predicate LastWithId(spans: seq<Span>, i: nat, id: string) {
    i < |spans| && spans[i].spanId == id && forall j :: i < j < |spans| ==> spans[j].spanId != id
  }

  lemma LastIn(init: seq<Span>, s: Span, i: nat, id: string)
    requires LastWithId(init, i, id) && s.spanId != id
    ensures LastWithId(init + [s], i, id)
  {
  }

  /** The index holds, for every id, the last span that carries it, and no other id. */
  lemma {:induction false} IndexHoldsLast(spans: seq<Span>, id: string)
    ensures if id in IndexOf(spans)
            then exists i: nat :: LastWithId(spans, i, id) && IndexOf(spans)[id] == spans[i]
            else forall i :: 0 <= i < |spans| ==> spans[i].spanId != id
  {
    if spans != [] {
      var n := |spans| - 1;
      var init := spans[..n];
      assert spans == init + [spans[n]];
      IndexHoldsLast(init, id);
      if id == spans[n].spanId {
        assert LastWithId(spans, n, id);
      } else if id in IndexOf(init) {
        var i: nat :| LastWithId(init, i, id) && IndexOf(init)[id] == init[i];
        LastIn(init, spans[n], i, id);
      }
    }
  }

  method BuildIndex(spans: seq<Span>) returns (index: Index)
    ensures index == IndexOf(spans)
  {
    index := map[];
    for i := 0 to |spans|
      invariant index == IndexOf(spans[..i])
    {
      assert spans[..i + 1][..i] == spans[..i];
      index := index[spans[i].spanId := spans[i]];
    }
    assert spans[..|spans|] == spans;
  }

  function ChildrenOf(children: map<string, seq<string>>, p: string): seq<string> {
    if p in children then children[p] else []
  }

  /** The child lists, without empty ones. */
  function ChildLists(spans: seq<Span>, ids: set<string>): map<string, seq<string>> {
    if spans == [] then map[]
    else
      var s := spans[|spans| - 1];
      var before := ChildLists(spans[..|spans| - 1], ids);
      if IsRoot(ids, s) then before
      else before[s.parentSpanId.value := ChildrenOf(before, s.parentSpanId.value) + [s.spanId]]
  }

  /** `filed` holds the ids of the spans at these increasing positions. */
  ghost predicate Picks(spans: seq<Span>, filed: seq<string>, picks: seq<nat>) {
    && |picks| == |filed|
    && (forall k :: 0 <= k < |picks| ==> picks[k] < |spans| && filed[k] == spans[picks[k]].spanId)
    && (forall j, k :: 0 <= j < k < |picks| ==> picks[j] < picks[k])
  }

  /** In input order, the ids of the spans without a parent, with an empty one, or with one that
      has no span. */
  ghost predicate PicksRoots(spans: seq<Span>, index: Index, filed: seq<string>) {
    exists picks :: Picks(spans, filed, picks) && forall i: nat ::
        i in picks <==> i < |spans| && (spans[i].parentSpanId.None? || spans[i].parentSpanId.value == ""
                                        || spans[i].parentSpanId.value !in index)
  }

  /** In input order, the ids of the spans whose parent is `p`. */
  ghost predicate PicksChildren(spans: seq<Span>, index: Index, p: string, filed: seq<string>) {
    exists picks :: Picks(spans, filed, picks) && forall i: nat ::
        i in picks <==> i < |spans| && spans[i].parentSpanId == Some(p) && p != "" && p in index
  }

  lemma ClassifiedPicks(spans: seq<Span>, index: Index)
    ensures PicksRoots(spans, index, Filed(spans, index.Keys, None))
    ensures forall p :: PicksChildren(spans, index, p, ChildrenOf(ChildLists(spans, index.Keys), p))
  {
    FiledPicks(spans, index.Keys, None);
    forall p ensures PicksChildren(spans, index, p, ChildrenOf(ChildLists(spans, index.Keys), p)) {
      ChildListsAreFiled(spans, index.Keys, p);
      FiledPicks(spans, index.Keys, Some(p));
    }
  }

  /** The positions of the spans of one slot. */
  ghost function Positions(spans: seq<Span>, ids: set<string>, slot: Option<string>): seq<nat> {
    if spans == [] then []
    else
      var n := |spans| - 1;
      Positions(spans[..n], ids, slot) + if SlotOf(ids, spans[n]) == slot then [n] else []
  }

  lemma {:induction false} FiledPicks(spans: seq<Span>, ids: set<string>, slot: Option<string>)
    ensures Picks(spans, Filed(spans, ids, slot), Positions(spans, ids, slot))
    ensures forall i: nat :: i in Positions(spans, ids, slot) <==> i < |spans| && SlotOf(ids, spans[i]) == slot
  {
    if spans != [] {
      FiledPicks(spans[..|spans| - 1], ids, slot);
    }
  }

  /** Pushes every span id onto the list of roots or onto the child list of its parent: the spans
      without a parent in the index are the roots, and those with parent `p` the children of `p`,
      each list in input order. */
  method Classify(spans: seq<Span>, index: Index) returns (roots: seq<string>, children: map<string, seq<string>>)
    ensures roots == Filed(spans, index.Keys, None)
    ensures children == ChildLists(spans, index.Keys)
    ensures PicksRoots(spans, index, roots)
    ensures forall p :: PicksChildren(spans, index, p, ChildrenOf(children, p))
  {
    roots, children := [], map[];
    for i := 0 to |spans|
      invariant roots == Filed(spans[..i], index.Keys, None)
      invariant children == ChildLists(spans[..i], index.Keys)
    {
      var s := spans[i];
      assert spans[..i + 1][..i] == spans[..i];
      if IsRoot(index.Keys, s) {
        roots := roots + [s.spanId];
      } else {
        var p := s.parentSpanId.value;
        children := children[p := ChildrenOf(children, p) + [s.spanId]];
      }
    }
    assert spans[..|spans|] == spans;
    ClassifiedPicks(spans, index);
  }

  /** The child list of `p` holds the spans filed under `p`. */
  lemma {:induction false} ChildListsAreFiled(spans: seq<Span>, ids: set<string>, p: string)
    ensures ChildrenOf(ChildLists(spans, ids), p) == Filed(spans, ids, Some(p))
  {
    if spans != [] { ChildListsAreFiled(spans[..|spans| - 1], ids, p); }
  }

  /** No span of the list is the parent of `s`. */
  ghost predicate Parentless(spans: seq<Span>, s: Span) {
    || s.parentSpanId.None?
    || s.parentSpanId.value == ""
    || forall i :: 0 <= i < |spans| ==> spans[i].spanId != s.parentSpanId.value
  }

  lemma {:induction false} IndexedIds(spans: seq<Span>)
    ensures forall id :: id in IndexOf(spans) <==> exists i :: 0 <= i < |spans| && spans[i].spanId == id
  {
    if spans != [] {
      var n := |spans| - 1;
      IndexedIds(spans[..n]);
      forall id ensures id in IndexOf(spans) <==> exists i :: 0 <= i < |spans| && spans[i].spanId == id {
        if i :| 0 <= i < n && spans[i].spanId == id { assert spans[..n][i].spanId == id; }
        if id in IndexOf(spans[..n]) {
          var i :| 0 <= i < n && spans[..n][i].spanId == id;
          assert spans[i].spanId == id;
        }
      }
    }
  }

  /** A span is a root exactly when no span of the list is its parent, and otherwise it is filed
      under the id it names. */
  lemma RootsAreParentless(spans: seq<Span>, s: Span)
    ensures IsRoot(IndexOf(spans).Keys, s) <==> Parentless(spans, s)
    ensures SlotOf(IndexOf(spans).Keys, s) == if Parentless(spans, s) then None else s.parentSpanId
  {
    IndexedIds(spans);
  }

  lemma {:induction false} FiledExactly(spans: seq<Span>, ids: set<string>, slot: Option<string>)
    requires DistinctIds(spans)
    ensures forall id :: id in Filed(spans, ids, slot) <==>
              exists i :: 0 <= i < |spans| && spans[i].spanId == id && SlotOf(ids, spans[i]) == slot
    ensures Distinct(Filed(spans, ids, slot))
  {
    if spans != [] {
      var n := |spans| - 1;
      var init := Filed(spans[..n], ids, slot);
      FiledExactly(spans[..n], ids, slot);
      assert spans[n].spanId !in init;
      forall id ensures id in Filed(spans, ids, slot) <==>
                exists i :: 0 <= i < |spans| && spans[i].spanId == id && SlotOf(ids, spans[i]) == slot
      {
        if id in init {
          var i :| 0 <= i < n && spans[..n][i].spanId == id && SlotOf(ids, spans[..n][i]) == slot;
          assert spans[i].spanId == id;
        }
        if i :| 0 <= i < n && spans[i].spanId == id && SlotOf(ids, spans[i]) == slot {
          assert spans[..n][i].spanId == id;
        }
      }
    }
  }

  lemma {:induction false} IndexHolds(spans: seq<Span>)
    requires DistinctIds(spans)
    ensures forall i :: 0 <= i < |spans| ==>
        spans[i].spanId in IndexOf(spans) && IndexOf(spans)[spans[i].spanId] == spans[i]
    ensures forall id :: id in IndexOf(spans) ==> IndexOf(spans)[id] in spans && IndexOf(spans)[id].spanId == id
  {
    if spans != [] {
      var n := |spans| - 1;
      IndexHolds(spans[..n]);
      forall i | 0 <= i < |spans|
        ensures spans[i].spanId in IndexOf(spans) && IndexOf(spans)[spans[i].spanId] == spans[i]
      {
        if i < n { assert spans[..n][i] == spans[i]; }
      }
    }
  }

  // ----- Sorting by start time

  function Start(index: Index, id: string): int {
    if id in index then index[id].startTime else 0
  }

  predicate SortedByStart(index: Index, ids: seq<string>) {
    forall i, j :: 0 <= i < j < |ids| ==> Start(index, ids[i]) <= Start(index, ids[j])
  }

  /** Puts `id` behind everything that does not start later. */
  function Insert(index: Index, ids: seq<string>, id: string): seq<string> {
    if ids == [] || Start(index, ids[|ids| - 1]) <= Start(index, id) then ids + [id]
    else Insert(index, ids[..|ids| - 1], id) + [ids[|ids| - 1]]
  }

  /** The stable sort by start time. */
  function Sort(index: Index, ids: seq<string>): seq<string> {
    if ids == [] then [] else Insert(index, Sort(index, ids[..|ids| - 1]), ids[|ids| - 1])
  }

  /** The ids that start at a given time, in order. */
  function StartingAt(index: Index, ids: seq<string>, t: int): seq<string> {
    if ids == [] then []
    else StartingAt(index, ids[..|ids| - 1], t) + if Start(index, ids[|ids| - 1]) == t then [ids[|ids| - 1]] else []
  }

  lemma {:induction false} InsertKeeps(index: Index, ids: seq<string>, id: string)
    ensures multiset(Insert(index, ids, id)) == multiset(ids) + multiset{id}
    ensures forall x :: x in Insert(index, ids, id) <==> x == id || x in ids
  {
    if ids == [] || Start(index, ids[|ids| - 1]) <= Start(index, id) {
    } else {
      var init, last := ids[..|ids| - 1], ids[|ids| - 1];
      InsertKeeps(index, init, id);
      assert ids == init + [last];
    }
  }

  lemma {:induction false} InsertSorts(index: Index, ids: seq<string>, id: string)
    requires SortedByStart(index, ids)
    ensures SortedByStart(index, Insert(index, ids, id))
  {
    if ids == [] || Start(index, ids[|ids| - 1]) <= Start(index, id) {
    } else {
      var init, last := ids[..|ids| - 1], ids[|ids| - 1];
      InsertSorts(index, init, id);
      InsertKeeps(index, init, id);
      var r := Insert(index, init, id);
      forall i | 0 <= i < |r| ensures Start(index, r[i]) <= Start(index, last) {
        assert r[i] == id || r[i] in init;
      }
    }
  }

  lemma {:induction false} InsertIsStable(index: Index, ids: seq<string>, id: string, t: int)
    ensures StartingAt(index, Insert(index, ids, id), t)
            == StartingAt(index, ids, t) + if Start(index, id) == t then [id] else []
  {
    if ids == [] || Start(index, ids[|ids| - 1]) <= Start(index, id) {
      assert (ids + [id])[..|ids|] == ids;
    } else {
      var init, last := ids[..|ids| - 1], ids[|ids| - 1];
      InsertIsStable(index, init, id, t);
      var r := Insert(index, init, id);
      assert (r + [last])[..|r|] == r;
    }
  }

  lemma {:induction false} SortSorts(index: Index, ids: seq<string>)
    ensures SortedByStart(index, Sort(index, ids))
    ensures multiset(Sort(index, ids)) == multiset(ids)
  {
    if ids != [] {
      var init, last := ids[..|ids| - 1], ids[|ids| - 1];
      SortSorts(index, init);
      InsertSorts(index, Sort(index, init), last);
      InsertKeeps(index, Sort(index, init), last);
      assert ids == init + [last];
    }
  }

  lemma {:induction false} SortKeepsOrder(index: Index, ids: seq<string>, t: int)
    ensures StartingAt(index, Sort(index, ids), t) == StartingAt(index, ids, t)
  {
    if ids != [] {
      SortKeepsOrder(index, ids[..|ids| - 1], t);
      InsertIsStable(index, Sort(index, ids[..|ids| - 1]), ids[|ids| - 1], t);
    }
  }

  /** Sorting orders by start time, keeps every id, and keeps the order of ids that start together. */
  lemma {:induction false} SortIsStable(index: Index, ids: seq<string>)
    ensures SortedByStart(index, Sort(index, ids))
    ensures multiset(Sort(index, ids)) == multiset(ids)
    ensures forall t :: StartingAt(index, Sort(index, ids), t) == StartingAt(index, ids, t)
  {
    SortSorts(index, ids);
    forall t ensures StartingAt(index, Sort(index, ids), t) == StartingAt(index, ids, t) {
      SortKeepsOrder(index, ids, t);
    }
  }

  /** `x` stands before `y`. */
  ghost predicate Precedes(ids: seq<string>, x: string, y: string) {
    exists i, j :: 0 <= i < j < |ids| && ids[i] == x && ids[j] == y
  }

  lemma PrecedesSnoc(ids: seq<string>, z: string, x: string, y: string)
    ensures Precedes(ids + [z], x, y) <==> Precedes(ids, x, y) || (x in ids && y == z)
  {
    var all := ids + [z];
    if Precedes(all, x, y) {
      var i, j :| 0 <= i < j < |all| && all[i] == x && all[j] == y;
      assert ids[i] == x;
      if j < |ids| { assert ids[j] == y; }
    }
    if Precedes(ids, x, y) {
      var i, j :| 0 <= i < j < |ids| && ids[i] == x && ids[j] == y;
      assert all[i] == x && all[j] == y;
    }
    if x in ids && y == z {
      var i :| 0 <= i < |ids| && ids[i] == x;
      assert all[i] == x && all[|ids|] == z;
    }
  }

  lemma {:induction false} StartingAtOrder(index: Index, ids: seq<string>, t: int, x: string, y: string)
    requires Start(index, x) == t && Start(index, y) == t
    ensures x in StartingAt(index, ids, t) <==> x in ids
    ensures Precedes(StartingAt(index, ids, t), x, y) <==> Precedes(ids, x, y)
  {
    if ids != [] {
      var init, last := ids[..|ids| - 1], ids[|ids| - 1];
      StartingAtOrder(index, init, t, x, y);
      assert ids == init + [last];
      PrecedesSnoc(init, last, x, y);
      if Start(index, last) == t {
        PrecedesSnoc(StartingAt(index, init, t), last, x, y);
      } else {
        assert StartingAt(index, ids, t) == StartingAt(index, init, t);
      }
    }
  }

  /** What precedes in the sorted list starts earlier, or starts together and precedes in the input. */
  lemma SortedThenInput(index: Index, ids: seq<string>, x: string, y: string)
    requires Precedes(Sort(index, ids), x, y)
    ensures Start(index, x) < Start(index, y) || (Start(index, x) == Start(index, y) && Precedes(ids, x, y))
  {
    SortSorts(index, ids);
    var t := Start(index, x);
    if Start(index, y) == t {
      SortKeepsOrder(index, ids, t);
      StartingAtOrder(index, Sort(index, ids), t, x, y);
      StartingAtOrder(index, ids, t, x, y);
    }
  }

  // ----- Parent chains

  /** The parent chain of `id` reaches a root after `d` steps. */
  ghost predicate AtDepth(index: Index, id: string, d: nat)
    decreases d
  {
    && id in index
    && if d == 0 then IsRoot(index.Keys, index[id])
       else !IsRoot(index.Keys, index[id]) && AtDepth(index, index[id].parentSpanId.value, d - 1)
  }

  lemma {:induction false} DepthIsUnique(index: Index, id: string, d: nat, e: nat)
    requires AtDepth(index, id, d) && AtDepth(index, id, e)
    ensures d == e
    decreases d
  {
    if d > 0 && e > 0 { DepthIsUnique(index, index[id].parentSpanId.value, d - 1, e - 1); }
  }

  /** The ids on the chain. */
  ghost function Chain(index: Index, id: string, d: nat): set<string>
    requires AtDepth(index, id, d)
    decreases d
  {
    if d == 0 then {id} else {id} + Chain(index, index[id].parentSpanId.value, d - 1)
  }

  ghost predicate WithinDepth(index: Index, id: string, d: nat) {
    exists e: nat :: e <= d && AtDepth(index, id, e)
  }

  lemma {:induction false} ChainSize(index: Index, id: string, d: nat)
    requires AtDepth(index, id, d)
    ensures |Chain(index, id, d)| == d + 1 && Chain(index, id, d) <= index.Keys
    ensures forall x :: x in Chain(index, id, d) ==> WithinDepth(index, x, d)
    decreases d
  {
    if d == 0 {
      assert AtDepth(index, id, 0);
    } else {
      var p := index[id].parentSpanId.value;
      ChainSize(index, p, d - 1);
      if id in Chain(index, p, d - 1) {
        var e: nat :| e <= d - 1 && AtDepth(index, id, e);
        DepthIsUnique(index, id, d, e);
        assert false;
      }
      forall x | x in Chain(index, id, d) ensures WithinDepth(index, x, d) {
        if x == id { assert AtDepth(index, x, d); } else { assert WithinDepth(index, x, d - 1); }
      }
    }
  }

  /** A chain that reaches a root is shorter than the number of spans. */
  lemma DepthBound(index: Index, id: string, d: nat)
    requires AtDepth(index, id, d)
    ensures d < |index|
  {
    ChainSize(index, id, d);
    SubsetSize(Chain(index, id, d), index.Keys);
  }

  lemma SubsetSize(a: set<string>, b: set<string>)
    requires a <= b
    ensures |a| <= |b|
  {
    assert b == a + (b - a);
  }

  // ----- Building the forest

  datatype SpanNode = SpanNode(span: Span, depth: nat, children: seq<SpanNode>)

  datatype Graph = Graph(index: Index, roots: seq<string>, children: map<string, seq<string>>)

  /** `filed` lists exactly the spans of one slot, each once. */
  ghost predicate Files(index: Index, slot: Option<string>, filed: seq<string>) {
    && Distinct(filed)
    && forall id {:trigger id in filed} {:trigger SlotOf(index.Keys, index[id])} ::
         id in filed <==> id in index && SlotOf(index.Keys, index[id]) == slot
  }

  /** What classification yields: exactly the roots are roots, and exactly the spans with parent `p`
      are the children of `p`, each once. */
  ghost predicate GraphOk(g: Graph) {
    && (forall id :: id in g.index ==> g.index[id].spanId == id)
    && Files(g.index, None, g.roots)
    && (forall p {:trigger ChildrenOf(g.children, p)} :: Files(g.index, Some(p), ChildrenOf(g.children, p)))
  }

  type Hierarchy = g: Graph | GraphOk(g) witness Graph(map[], [], map[])

  function GraphOf(spans: seq<Span>): Graph {
    var index := IndexOf(spans);
    Graph(index, Filed(spans, index.Keys, None), ChildLists(spans, index.Keys))
  }

  /** Distinct span ids are all that classification needs. */
  lemma GraphOfIsOk(spans: seq<Span>)
    requires DistinctIds(spans)
    ensures GraphOk(GraphOf(spans))
  {
    var g := GraphOf(spans);
    var ids := g.index.Keys;
    IndexHolds(spans);
    FiledIsIndexed(spans, None);
    forall p ensures Files(g.index, Some(p), ChildrenOf(g.children, p)) {
      ChildListsAreFiled(spans, ids, p);
      FiledIsIndexed(spans, Some(p));
    }
  }

  /** Distinct or not: an id is a root if a span with that id has no parent in the list, and a child
      of `p` if a span with that id names `p` and some span has the id `p`. */
  lemma GraphMeaning(spans: seq<Span>)
    ensures forall id :: id in GraphOf(spans).roots <==>
              exists i :: 0 <= i < |spans| && spans[i].spanId == id && Parentless(spans, spans[i])
    ensures forall p, id :: id in ChildrenOf(GraphOf(spans).children, p) <==>
              exists i, j :: 0 <= i < |spans| && 0 <= j < |spans| && spans[i].spanId == id
                             && spans[i].parentSpanId == Some(p) && p != "" && spans[j].spanId == p
  {
    var g := GraphOf(spans);
    var ids := g.index.Keys;
    forall id ensures id in g.roots <==>
              exists i :: 0 <= i < |spans| && spans[i].spanId == id && Parentless(spans, spans[i])
    {
      InSlot(spans, None, id);
    }
    forall p, id ensures id in ChildrenOf(g.children, p) <==>
              exists i, j :: 0 <= i < |spans| && 0 <= j < |spans| && spans[i].spanId == id
                             && spans[i].parentSpanId == Some(p) && p != "" && spans[j].spanId == p
    {
      ChildListsAreFiled(spans, ids, p);
      InSlot(spans, Some(p), id);
    }
  }

  lemma InSlot(spans: seq<Span>, slot: Option<string>, id: string)
    ensures id in Filed(spans, IndexOf(spans).Keys, slot) <==>
            exists i :: 0 <= i < |spans| && spans[i].spanId == id
                        && slot == if Parentless(spans, spans[i]) then None else spans[i].parentSpanId
  {
    var ids := IndexOf(spans).Keys;
    var filed, picks := Filed(spans, ids, slot), Positions(spans, ids, slot);
    FiledPicks(spans, ids, slot);
    forall i | 0 <= i < |spans|
      ensures SlotOf(ids, spans[i]) == if Parentless(spans, spans[i]) then None else spans[i].parentSpanId
    {
      RootsAreParentless(spans, spans[i]);
    }
    if id in filed {
      var k :| 0 <= k < |filed| && filed[k] == id;
      assert picks[k] in picks;
    }
    if i: nat :| i < |spans| && spans[i].spanId == id && SlotOf(ids, spans[i]) == slot {
      assert i in picks;
      var k :| 0 <= k < |picks| && picks[k] == i;
      assert filed[k] == id;
    }
  }

  lemma FiledIsIndexed(spans: seq<Span>, slot: Option<string>)
    requires DistinctIds(spans)
    ensures var index := IndexOf(spans); Files(index, slot, Filed(spans, index.Keys, slot))
  {
    var index := IndexOf(spans);
    IndexHolds(spans);
    FiledExactly(spans, index.Keys, slot);
    forall id ensures id in Filed(spans, index.Keys, slot) <==> id in index && SlotOf(index.Keys, index[id]) == slot {
      if id in index && SlotOf(index.Keys, index[id]) == slot {
        var i :| 0 <= i < |spans| && spans[i] == index[id];
        assert spans[i].spanId == id;
      }
    }
  }

  /** The children of a span, by start time. */
  function KidsOf(g: Graph, id: string): seq<string> {
    Sort(g.index, ChildrenOf(g.children, id))
  }

  lemma KidsAreChildren(g: Hierarchy, id: string)
    ensures Files(g.index, Some(id), KidsOf(g, id))
  {
    assert Files(g.index, Some(id), ChildrenOf(g.children, id));
    SortKeepsElements(g.index, ChildrenOf(g.children, id));
  }

  ghost predicate AllAtDepth(index: Index, ids: seq<string>, depth: nat) {
    forall i :: 0 <= i < |ids| ==> AtDepth(index, ids[i], depth)
  }

  lemma KidsAreDeeper(g: Hierarchy, id: string, depth: nat)
    requires AtDepth(g.index, id, depth)
    ensures AllAtDepth(g.index, KidsOf(g, id), depth + 1)
    ensures depth < |g.index|
  {
    DepthBound(g.index, id, depth);
    KidsAreChildren(g, id);
    var kids := KidsOf(g, id);
    forall i | 0 <= i < |kids| ensures AtDepth(g.index, kids[i], depth + 1) {
      assert kids[i] in kids;
    }
  }

  lemma RootsAreAtDepthZero(g: Hierarchy)
    ensures AllAtDepth(g.index, Sort(g.index, g.roots), 0)
  {
    SortKeepsElements(g.index, g.roots);
    var roots := Sort(g.index, g.roots);
    forall i | 0 <= i < |roots| ensures AtDepth(g.index, roots[i], 0) {
      assert roots[i] in roots;
    }
  }

  lemma SortKeepsElements(index: Index, ids: seq<string>)
    requires Distinct(ids)
    ensures Distinct(Sort(index, ids)) && forall id :: id in Sort(index, ids) <==> id in ids
  {
    SortSorts(index, ids);
    var r := Sort(index, ids);
    forall id ensures id in r <==> id in ids { assert id in multiset(r) <==> id in multiset(ids); }
    forall i, j | 0 <= i < j < |r| ensures r[i] != r[j] {
      if r[i] == r[j] {
        TwiceCounts(r, i, j);
        DistinctOnce(ids, r[i]);
        assert false;
      }
    }
  }

  lemma TwiceCounts(r: seq<string>, i: nat, j: nat)
    requires i < j < |r| && r[i] == r[j]
    ensures multiset(r)[r[i]] >= 2
  {
    assert r == r[..j] + [r[j]] + r[j + 1..];
    assert r[i] in r[..j];
    assert multiset(r[..j])[r[i]] >= 1;
  }

  lemma {:induction false} DistinctOnce(ids: seq<string>, id: string)
    requires Distinct(ids)
    ensures multiset(ids)[id] <= 1
  {
    if ids != [] {
      var n := |ids| - 1;
      DistinctOnce(ids[..n], id);
      assert ids == ids[..n] + [ids[n]];
      if id == ids[n] { assert id !in ids[..n]; }
    }
  }

  /** The recursion follows parent chains downwards, so it ends: a chain cannot be longer than the
      number of spans, and a span on a cycle is on no chain from a root. */
  function BuildNode(g: Hierarchy, id: string, depth: nat): (node: SpanNode)
    requires AtDepth(g.index, id, depth)
    decreases |g.index| - depth, 0
  {
    KidsAreDeeper(g, id, depth);
    SpanNode(g.index[id], depth, BuildNodes(g, KidsOf(g, id), depth + 1))
  }

  function BuildNodes(g: Hierarchy, ids: seq<string>, depth: nat): (nodes: seq<SpanNode>)
    requires depth <= |g.index| && AllAtDepth(g.index, ids, depth)
    ensures |nodes| == |ids|
    decreases |g.index| - depth, |ids| + 1
  {
    if ids == [] then []
    else BuildNodes(g, ids[..|ids| - 1], depth) + [BuildNode(g, ids[|ids| - 1], depth)]
  }

  function BuildForest(g: Hierarchy): seq<SpanNode>
  {
    RootsAreAtDepthZero(g);
    BuildNodes(g, Sort(g.index, g.roots), 0)
  }

  // ----- How deep the calls nest

  /** Building the node of `id` makes `n` nested calls. */
  ghost predicate CallsNest(g: Graph, id: string, n: nat)
    decreases n
  {
    n == 0 || exists i :: 0 <= i < |ChildrenOf(g.children, id)| && CallsNest(g, ChildrenOf(g.children, id)[i], n - 1)
  }

  lemma {:induction false} NestingIsBounded(g: Hierarchy, id: string, depth: nat, n: nat)
    requires AtDepth(g.index, id, depth) && CallsNest(g, id, n)
    ensures depth + n < |g.index|
    decreases n
  {
    DepthBound(g.index, id, depth);
    if n > 0 {
      var filed := ChildrenOf(g.children, id);
      var i :| 0 <= i < |filed| && CallsNest(g, filed[i], n - 1);
      assert Files(g.index, Some(id), filed) && filed[i] in filed;
      NestingIsBounded(g, filed[i], depth + 1, n - 1);
    }
  }

  /** With distinct ids the calls for a root nest less deeply than there are spans. */
  lemma RootsTerminate(spans: seq<Span>, id: string, n: nat)
    requires DistinctIds(spans) && id in GraphOf(spans).roots && CallsNest(GraphOf(spans), id, n)
    ensures n < |IndexOf(spans)|
  {
    GraphOfIsOk(spans);
    NestingIsBounded(GraphOf(spans), id, 0, n);
  }

  /** `path` follows calls, starting with the call for `id`. */
  ghost predicate CallPath(g: Graph, id: string, path: seq<string>) {
    && |path| > 0 && path[0] == id
    && forall k :: 0 <= k < |path| - 1 ==> path[k + 1] in ChildrenOf(g.children, path[k])
  }

  lemma {:induction false} NestingHasPath(g: Graph, id: string, n: nat) returns (path: seq<string>)
    requires CallsNest(g, id, n)
    ensures CallPath(g, id, path) && |path| == n + 1
    decreases n
  {
    path := [id];
    if n > 0 {
      var i :| 0 <= i < |ChildrenOf(g.children, id)| && CallsNest(g, ChildrenOf(g.children, id)[i], n - 1);
      var rest := NestingHasPath(g, ChildrenOf(g.children, id)[i], n - 1);
      path := path + rest;
    }
  }

  /** A path that comes back to an id can be followed forever. */
  lemma {:induction false} LoopsNest(g: Graph, id: string, path: seq<string>, i: nat, j: nat, k: nat, n: nat)
    requires CallPath(g, id, path) && i < j < |path| && path[i] == path[j] && k <= j
    ensures CallsNest(g, path[k], n)
    decreases n, k
  {
    if n > 0 {
      if k == j {
        LoopsNest(g, id, path, i, j, i, n);
      } else {
        LoopsNest(g, id, path, i, j, k + 1, n - 1);
        var kids := ChildrenOf(g.children, path[k]);
        assert path[k + 1] in kids;
        var c :| 0 <= c < |kids| && kids[c] == path[k + 1];
        assert CallsNest(g, kids[c], n - 1);
      }
    }
  }

  lemma {:induction false} FiledAreIndexed(spans: seq<Span>, ids: set<string>, slot: Option<string>)
    ensures forall id :: id in Filed(spans, ids, slot) ==> id in IndexOf(spans)
  {
    if spans != [] { FiledAreIndexed(spans[..|spans| - 1], ids, slot); }
  }

  lemma {:induction false} PathIsIndexed(spans: seq<Span>, id: string, path: seq<string>, k: nat)
    requires CallPath(GraphOf(spans), id, path) && id in IndexOf(spans) && k < |path|
    ensures path[k] in IndexOf(spans)
  {
    if k > 0 {
      var ids := IndexOf(spans).Keys;
      assert path[k - 1 + 1] in ChildrenOf(ChildLists(spans, ids), path[k - 1]);
      ChildListsAreFiled(spans, ids, path[k - 1]);
      FiledAreIndexed(spans, ids, Some(path[k - 1]));
    }
  }

  lemma DeepNestingRevisits(spans: seq<Span>, id: string)
    requires id in IndexOf(spans) && CallsNest(GraphOf(spans), id, |IndexOf(spans)|)
    ensures Revisited(GraphOf(spans), id)
  {
    var g := GraphOf(spans);
    var path := NestingHasPath(g, id, |g.index|);
    if Distinct(path) {
      DistinctSize(path);
      forall k | 0 <= k < |path| ensures path[k] in g.index { PathIsIndexed(spans, id, path, k); }
      SubsetSize(SetOf(path), g.index.Keys);
      assert false;
    }
  }

  ghost predicate Endless(g: Graph, id: string) {
    forall n: nat :: CallsNest(g, id, n)
  }

  /** Following the calls for `id` meets some id twice. */
  ghost predicate Revisited(g: Graph, id: string) {
    exists path :: CallPath(g, id, path) && !Distinct(path)
  }

  /** Any span list, repeated ids included: the calls for a span never end exactly when following
      them meets some id twice. */
  lemma EndlessWhenRevisited(spans: seq<Span>, id: string)
    requires id in IndexOf(spans)
    ensures Endless(GraphOf(spans), id) <==> Revisited(GraphOf(spans), id)
  {
    var g := GraphOf(spans);
    if Revisited(g, id) {
      var path :| CallPath(g, id, path) && !Distinct(path);
      var i, j :| 0 <= i < j < |path| && path[i] == path[j];
      forall n: nat ensures CallsNest(g, id, n) { LoopsNest(g, id, path, i, j, 0, n); }
    }
    if Endless(g, id) {
      assert CallsNest(g, id, |g.index|);
      DeepNestingRevisits(spans, id);
    }
  }

  /** Distinct ids matter: a root whose id is used again by its own child is built forever. */
  lemma RepeatedIdNeverEnds()
    ensures var spans := [Span("t", "a", None, "root", 0, 9), Span("t", "a", Some("a"), "child", 1, 2)];
      GraphOf(spans).roots == ["a"] && Endless(GraphOf(spans), "a")
  {
    var root, child := Span("t", "a", None, "root", 0, 9), Span("t", "a", Some("a"), "child", 1, 2);
    var spans := [root, child];
    var ids := IndexOf(spans).Keys;
    assert spans[..1] == [root] && [root][..0] == [];
    assert IndexOf([root]) == map["a" := root] && IndexOf(spans) == map["a" := child];
    assert ids == {"a"};
    assert IsRoot(ids, root) && !IsRoot(ids, child);
    assert Filed([root], ids, None) == ["a"];
    assert ChildLists([root], ids) == ChildLists([root][..0], ids) == map[];
    assert ChildLists(spans, ids) == map["a" := ["a"]];
    var path := ["a", "a"];
    assert CallPath(GraphOf(spans), "a", path);
    assert path[0] == path[1] && !Distinct(path);
    EndlessWhenRevisited(spans, "a");
  }

  // ----- Building wherever the calls end

  ghost predicate Ends(g: Graph, ids: seq<string>, n: nat) {
    forall i :: 0 <= i < |ids| ==> ids[i] in g.index && !CallsNest(g, ids[i], n)
  }

  /** Every id that is filed has a span. */
  ghost predicate Closed(g: Graph) {
    forall p, id :: id in ChildrenOf(g.children, p) ==> id in g.index
  }

  lemma GraphOfIsClosed(spans: seq<Span>)
    ensures Closed(GraphOf(spans))
  {
    var ids := IndexOf(spans).Keys;
    forall p, id | id in ChildrenOf(GraphOf(spans).children, p) ensures id in GraphOf(spans).index {
      ChildListsAreFiled(spans, ids, p);
      FiledAreIndexed(spans, ids, Some(p));
    }
  }

  lemma KidsEnd(g: Graph, id: string, n: nat)
    requires Closed(g) && !CallsNest(g, id, n)
    ensures n > 0 && Ends(g, KidsOf(g, id), n - 1)
  {
    var filed, kids := ChildrenOf(g.children, id), KidsOf(g, id);
    SortSorts(g.index, filed);
    forall i | 0 <= i < |kids| ensures kids[i] in g.index && !CallsNest(g, kids[i], n - 1) {
      assert kids[i] in multiset(kids) && kids[i] in multiset(filed);
      var j :| 0 <= j < |filed| && filed[j] == kids[i];
    }
  }

  /** The node of a span in any list, repeated ids included, on which the calls end; `n` bounds how
      deep they nest. */
  function MakeNode(g: Graph, id: string, depth: nat, ghost n: nat): (node: SpanNode)
    requires Closed(g) && id in g.index && !CallsNest(g, id, n)
    decreases n, 0
  {
    KidsEnd(g, id, n);
    SpanNode(g.index[id], depth, MakeNodes(g, KidsOf(g, id), depth + 1, n - 1))
  }

  function MakeNodes(g: Graph, ids: seq<string>, depth: nat, ghost n: nat): (nodes: seq<SpanNode>)
    requires Closed(g) && Ends(g, ids, n)
    decreases n, |ids| + 1
  {
    if ids == [] then []
    else MakeNodes(g, ids[..|ids| - 1], depth, n) + [MakeNode(g, ids[|ids| - 1], depth, n)]
  }

  lemma {:induction false} MakeNodeIsBuildNode(g: Hierarchy, id: string, depth: nat, n: nat)
    requires Closed(g) && AtDepth(g.index, id, depth) && !CallsNest(g, id, n)
    ensures MakeNode(g, id, depth, n) == BuildNode(g, id, depth)
    decreases n, 0
  {
    KidsEnd(g, id, n);
    KidsAreDeeper(g, id, depth);
    MakeNodesIsBuildNodes(g, KidsOf(g, id), depth + 1, n - 1);
  }

  lemma {:induction false} MakeNodesIsBuildNodes(g: Hierarchy, ids: seq<string>, depth: nat, n: nat)
    requires Closed(g) && Ends(g, ids, n) && depth <= |g.index| && AllAtDepth(g.index, ids, depth)
    ensures MakeNodes(g, ids, depth, n) == BuildNodes(g, ids, depth)
    decreases n, |ids| + 1
  {
    if ids != [] {
      MakeNodesIsBuildNodes(g, ids[..|ids| - 1], depth, n);
      MakeNodeIsBuildNode(g, ids[|ids| - 1], depth, n);
    }
  }

  /** The code returns a tree for these spans. */
  ghost predicate TreeEnds(spans: seq<Span>) {
    forall id :: id in GraphOf(spans).roots ==> !Endless(GraphOf(spans), id)
  }

  lemma RootsEnd(spans: seq<Span>)
    requires TreeEnds(spans)
    ensures var g := GraphOf(spans); Ends(g, Sort(g.index, g.roots), |g.index|)
  {
    var g := GraphOf(spans);
    var roots := Sort(g.index, g.roots);
    SortSorts(g.index, g.roots);
    FiledAreIndexed(spans, g.index.Keys, None);
    forall i | 0 <= i < |roots| ensures roots[i] in g.index && !CallsNest(g, roots[i], |g.index|) {
      assert roots[i] in multiset(roots) && roots[i] in multiset(g.roots);
      if CallsNest(g, roots[i], |g.index|) {
        DeepNestingRevisits(spans, roots[i]);
        EndlessWhenRevisited(spans, roots[i]);
        assert false;
      }
    }
  }

  lemma DistinctIdsEnd(spans: seq<Span>)
    requires DistinctIds(spans)
    ensures TreeEnds(spans)
  {
    var g := GraphOf(spans);
    forall id | id in g.roots ensures !Endless(g, id) {
      if CallsNest(g, id, |g.index|) { RootsTerminate(spans, id, |g.index|); }
    }
  }

  function MakeForest(spans: seq<Span>): seq<SpanNode>
    requires TreeEnds(spans)
  {
    GraphOfIsClosed(spans);
    RootsEnd(spans);
    var g := GraphOf(spans);
    MakeNodes(g, Sort(g.index, g.roots), 0, |g.index|)
  }

  /** With distinct ids this is the forest whose rows are described below. */
  lemma MakeForestIsBuildForest(spans: seq<Span>)
    requires DistinctIds(spans)
    ensures TreeEnds(spans) && GraphOk(GraphOf(spans)) && MakeForest(spans) == BuildForest(GraphOf(spans))
  {
    DistinctIdsEnd(spans);
    GraphOfIsOk(spans);
    GraphOfIsClosed(spans);
    RootsEnd(spans);
    var g: Hierarchy := GraphOf(spans);
    RootsAreAtDepthZero(g);
    MakeNodesIsBuildNodes(g, Sort(g.index, g.roots), 0, |g.index|);
  }
}
