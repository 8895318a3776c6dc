/** The rows of the trace viewer: every span whose parent chain reaches a root exactly once, in
    preorder, minus what a collapsed ancestor hides. */
module SpanRows {
  import opened Basics
  import opened SpanForest

  // ----- Flattening

  /** The rows of a subtree: the node, then its children's rows unless it is collapsed. */
  function Shown(node: SpanNode, collapsed: set<string>): seq<SpanNode>
    decreases node, 0
  {
    [node] + if node.span.spanId in collapsed then [] else ShownAll(node.children, collapsed)
  }

  function ShownAll(nodes: seq<SpanNode>, collapsed: set<string>): seq<SpanNode>
    decreases nodes, 1
  {
    if nodes == [] then [] else ShownAll(nodes[..|nodes| - 1], collapsed) + Shown(nodes[|nodes| - 1], collapsed)
  }

  /** Pushes the rows of a subtree onto the list. */
  method Traverse(node: SpanNode, collapsed: set<string>, list: seq<SpanNode>) returns (rows: seq<SpanNode>)
    ensures rows == list + Shown(node, collapsed)
    decreases node
  {
    rows := list + [node];
    if node.span.spanId !in collapsed && |node.children| > 0 {
      for i := 0 to |node.children|
        invariant rows == list + [node] + ShownAll(node.children[..i], collapsed)
      {
        assert node.children[..i + 1][..i] == node.children[..i];
        rows := Traverse(node.children[i], collapsed, rows);
      }
      assert node.children[..|node.children|] == node.children;
    }
  }

  // ----- Ancestors

  /** The ancestor of `id` at depth `d`. */
  ghost function Ancestor(index: Index, id: string, depth: nat, d: nat): (a: string)
    requires AtDepth(index, id, depth) && d <= depth
    ensures AtDepth(index, a, d)
    decreases depth
  {
    if d == depth then id else Ancestor(index, index[id].parentSpanId.value, depth - 1, d)
  }

  lemma {:induction false} AncestorsAreLinked(index: Index, id: string, depth: nat, d: nat)
    requires AtDepth(index, id, depth) && d < depth
    ensures SlotOf(index.Keys, index[Ancestor(index, id, depth, d + 1)]) == Some(Ancestor(index, id, depth, d))
    decreases depth
  {
    if d + 1 < depth { AncestorsAreLinked(index, index[id].parentSpanId.value, depth - 1, d); }
  }

  // ----- What a row is

  /** The row is the node of its own id, and its depth is the length of its parent chain. */
  ghost predicate IsNode(g: Hierarchy, row: SpanNode) {
    && AtDepth(g.index, row.span.spanId, row.depth)
    && row == BuildNode(g, row.span.spanId, row.depth)
  }

  ghost predicate Under(g: Hierarchy, row: SpanNode, ids: seq<string>, depth: nat) {
    IsNode(g, row) && depth <= row.depth && Ancestor(g.index, row.span.spanId, row.depth, depth) in ids
  }

  ghost predicate AllUnder(g: Hierarchy, rows: seq<SpanNode>, ids: seq<string>, depth: nat) {
    forall i :: 0 <= i < |rows| ==> Under(g, rows[i], ids, depth)
  }

  lemma {:induction false} NodeRowsAreUnder(g: Hierarchy, id: string, depth: nat, collapsed: set<string>)
    requires AtDepth(g.index, id, depth)
    ensures AllUnder(g, Shown(BuildNode(g, id, depth), collapsed), [id], depth)
    decreases |g.index| - depth, 1
  {
    KidsRowsAreUnder(g, id, depth, collapsed);
  }

  lemma {:induction false} KidsRowsAreUnder(g: Hierarchy, id: string, depth: nat, collapsed: set<string>)
    requires AtDepth(g.index, id, depth)
    ensures var rows := ShownAll(BuildNode(g, id, depth).children, collapsed);
      AllUnder(g, rows, [id], depth) && forall i :: 0 <= i < |rows| ==> rows[i].depth > depth
    decreases |g.index| - depth, 0
  {
    KidsAreDeeper(g, id, depth);
    KidsAreChildren(g, id);
    var kids := KidsOf(g, id);
    NodesRowsAreUnder(g, kids, depth + 1, collapsed);
    var rows := ShownAll(BuildNodes(g, kids, depth + 1), collapsed);
    forall i | 0 <= i < |rows| ensures Under(g, rows[i], [id], depth) && rows[i].depth > depth {
      assert Under(g, rows[i], kids, depth + 1);
      AncestorsAreLinked(g.index, rows[i].span.spanId, rows[i].depth, depth);
    }
  }

  lemma {:induction false} NodesRowsAreUnder(g: Hierarchy, ids: seq<string>, depth: nat, collapsed: set<string>)
    requires depth <= |g.index| && AllAtDepth(g.index, ids, depth)
    ensures AllUnder(g, ShownAll(BuildNodes(g, ids, depth), collapsed), ids, depth)
    decreases |g.index| - depth, |ids| + 2
  {
    if ids != [] {
      var n := |ids| - 1;
      NodesRowsAreUnder(g, ids[..n], depth, collapsed);
      NodeRowsAreUnder(g, ids[n], depth, collapsed);
      assert BuildNodes(g, ids, depth)[..n] == BuildNodes(g, ids[..n], depth);
    }
  }

  // ----- Every span once

  function Times(rows: seq<SpanNode>, id: string): nat {
    if rows == [] then 0
    else Times(rows[..|rows| - 1], id) + if rows[|rows| - 1].span.spanId == id then 1 else 0
  }

  lemma {:induction false} TimesSplits(a: seq<SpanNode>, b: seq<SpanNode>, id: string)
    ensures Times(a + b, id) == Times(a, id) + Times(b, id)
  {
    if b == [] {
      assert a + b == a;
    } else {
      TimesSplits(a, b[..|b| - 1], id);
      assert (a + b)[..|a + b| - 1] == a + b[..|b| - 1];
    }
  }

  lemma {:induction false} TimesNone(rows: seq<SpanNode>, id: string)
    requires forall i :: 0 <= i < |rows| ==> rows[i].span.spanId != id
    ensures Times(rows, id) == 0
  {
    if rows != [] { TimesNone(rows[..|rows| - 1], id); }
  }

  lemma {:induction false} OnceInNode(g: Hierarchy, id: string, depth: nat, x: string, e: nat)
    requires AtDepth(g.index, id, depth) && AtDepth(g.index, x, e)
    ensures Times(Shown(BuildNode(g, id, depth), {}), x)
            == if depth <= e && Ancestor(g.index, x, e, depth) == id then 1 else 0
    decreases |g.index| - depth, 0
  {
    KidsAreDeeper(g, id, depth);
    SortKeepsElements(g.index, ChildrenOf(g.children, id));
    OnceInNodes(g, KidsOf(g, id), depth + 1, x, e);
    TopAndBelow(BuildNode(g, id, depth), x);
    if x == id { DepthIsUnique(g.index, x, depth, e); }
    if depth < e { AncestorAmongKids(g, id, depth, x, e); }
  }

  lemma TopAndBelow(node: SpanNode, x: string)
    ensures Times(Shown(node, {}), x)
        == (if node.span.spanId == x then 1 else 0) + Times(ShownAll(node.children, {}), x)
  {
    TimesSplits([node], ShownAll(node.children, {}), x);
    assert [node][..0] == [];
  }

  lemma AncestorAmongKids(g: Hierarchy, id: string, depth: nat, x: string, e: nat)
    requires AtDepth(g.index, x, e) && depth < e
    ensures Ancestor(g.index, x, e, depth + 1) in KidsOf(g, id) <==> Ancestor(g.index, x, e, depth) == id
  {
    KidsAreChildren(g, id);
    AncestorsAreLinked(g.index, x, e, depth);
  }

  lemma {:induction false} OnceInNodes(g: Hierarchy, ids: seq<string>, depth: nat, x: string, e: nat)
    requires depth <= |g.index| && AllAtDepth(g.index, ids, depth) && Distinct(ids) && AtDepth(g.index, x, e)
    ensures Times(ShownAll(BuildNodes(g, ids, depth), {}), x)
            == if depth <= e && Ancestor(g.index, x, e, depth) in ids then 1 else 0
    decreases |g.index| - depth, |ids| + 1
  {
    if ids != [] {
      var n := |ids| - 1;
      OnceInNodes(g, ids[..n], depth, x, e);
      OnceInNode(g, ids[n], depth, x, e);
      assert BuildNodes(g, ids, depth)[..n] == BuildNodes(g, ids[..n], depth);
      TimesSplits(ShownAll(BuildNodes(g, ids[..n], depth), {}), Shown(BuildNode(g, ids[n], depth), {}), x);
      if depth <= e { InOneHalf(ids, Ancestor(g.index, x, e, depth)); }
    }
  }

  lemma InOneHalf(ids: seq<string>, id: string)
    requires |ids| > 0 && Distinct(ids)
    ensures id in ids <==> id in ids[..|ids| - 1] || id == ids[|ids| - 1]
    ensures !(id in ids[..|ids| - 1] && id == ids[|ids| - 1])
  {
    assert ids == ids[..|ids| - 1] + [ids[|ids| - 1]];
  }

  // ----- Collapsing

  /** Some proper ancestor of the row, at depth `from` or deeper, is collapsed. */
  ghost predicate Hidden(g: Hierarchy, row: SpanNode, from: nat, collapsed: set<string>) {
    && IsNode(g, row)
    && exists d: nat :: from <= d < row.depth && Ancestor(g.index, row.span.spanId, row.depth, d) in collapsed
  }

  /** The rows that are not hidden, in order. */
  ghost function Unhidden(g: Hierarchy, rows: seq<SpanNode>, from: nat, collapsed: set<string>): seq<SpanNode> {
    if rows == [] then []
    else
      var n := |rows| - 1;
      Unhidden(g, rows[..n], from, collapsed) + if Hidden(g, rows[n], from, collapsed) then [] else [rows[n]]
  }

  lemma {:induction false} UnhiddenSplits(g: Hierarchy, a: seq<SpanNode>, b: seq<SpanNode>, from: nat,
                                          collapsed: set<string>)
    ensures Unhidden(g, a + b, from, collapsed) == Unhidden(g, a, from, collapsed) + Unhidden(g, b, from, collapsed)
  {
    if b == [] {
      assert a + b == a;
    } else {
      UnhiddenSplits(g, a, b[..|b| - 1], from, collapsed);
      assert (a + b)[..|a + b| - 1] == a + b[..|b| - 1];
    }
  }

  /** Below a collapsed span everything is hidden; below any other, that span makes no difference. */
  lemma {:induction false} UnhiddenBelow(g: Hierarchy, rows: seq<SpanNode>, id: string, depth: nat,
                                         collapsed: set<string>)
    requires AllUnder(g, rows, [id], depth)
    requires forall i :: 0 <= i < |rows| ==> rows[i].depth > depth
    ensures Unhidden(g, rows, depth, collapsed)
        == if id in collapsed then [] else Unhidden(g, rows, depth + 1, collapsed)
  {
    if rows != [] {
      var n := |rows| - 1;
      UnhiddenBelow(g, rows[..n], id, depth, collapsed);
      var row := rows[n];
      assert Under(g, row, [id], depth);
      var above := Ancestor(g.index, row.span.spanId, row.depth, depth);
      assert above == id;
      assert Hidden(g, row, depth, collapsed) <==> id in collapsed || Hidden(g, row, depth + 1, collapsed);
    }
  }

  lemma {:induction false} NodeCollapses(g: Hierarchy, id: string, depth: nat, collapsed: set<string>)
    requires AtDepth(g.index, id, depth)
    ensures var node := BuildNode(g, id, depth);
      Shown(node, collapsed) == Unhidden(g, Shown(node, {}), depth, collapsed)
    decreases |g.index| - depth, 0
  {
    KidsAreDeeper(g, id, depth);
    NodesCollapse(g, KidsOf(g, id), depth + 1, collapsed);
    KidsRowsAreUnder(g, id, depth, {});
    CollapseStep(g, BuildNode(g, id, depth), collapsed);
  }

  lemma CollapseStep(g: Hierarchy, node: SpanNode, collapsed: set<string>)
    requires var rows := ShownAll(node.children, {});
      && AllUnder(g, rows, [node.span.spanId], node.depth)
      && (forall i :: 0 <= i < |rows| ==> rows[i].depth > node.depth)
      && ShownAll(node.children, collapsed) == Unhidden(g, rows, node.depth + 1, collapsed)
    ensures Shown(node, collapsed) == Unhidden(g, Shown(node, {}), node.depth, collapsed)
  {
    var rows := ShownAll(node.children, {});
    UnhiddenBelow(g, rows, node.span.spanId, node.depth, collapsed);
    UnhiddenSplits(g, [node], rows, node.depth, collapsed);
    TopIsUnhidden(g, node, collapsed);
    assert Shown(node, {}) == [node] + rows;
    assert Shown(node, collapsed)
        == [node] + if node.span.spanId in collapsed then [] else ShownAll(node.children, collapsed);
  }

  lemma TopIsUnhidden(g: Hierarchy, node: SpanNode, collapsed: set<string>)
    ensures Unhidden(g, [node], node.depth, collapsed) == [node]
  {
    assert !Hidden(g, node, node.depth, collapsed);
    assert Unhidden(g, [node][..0], node.depth, collapsed) == [];
  }

  lemma {:induction false} NodesCollapse(g: Hierarchy, ids: seq<string>, depth: nat, collapsed: set<string>)
    requires depth <= |g.index| && AllAtDepth(g.index, ids, depth)
    ensures var nodes := BuildNodes(g, ids, depth);
      ShownAll(nodes, collapsed) == Unhidden(g, ShownAll(nodes, {}), depth, collapsed)
    decreases |g.index| - depth, |ids| + 1
  {
    if ids != [] {
      var n := |ids| - 1;
      NodesCollapse(g, ids[..n], depth, collapsed);
      NodeCollapses(g, ids[n], depth, collapsed);
      assert BuildNodes(g, ids, depth)[..n] == BuildNodes(g, ids[..n], depth);
      UnhiddenSplits(g, ShownAll(BuildNodes(g, ids[..n], depth), {}), Shown(BuildNode(g, ids[n], depth), {}), depth,
          collapsed);
    }
  }

  // ----- Contiguity

  ghost predicate StartsAt(part: seq<SpanNode>, rows: seq<SpanNode>, p: nat) {
    p + |part| <= |rows| && part == rows[p..p + |part|]
  }

  lemma StartsInSum(part: seq<SpanNode>, a: seq<SpanNode>, b: seq<SpanNode>, p: nat)
    ensures StartsAt(part, a, p) ==> StartsAt(part, a + b, p)
    ensures StartsAt(part, b, p) ==> StartsAt(part, a + b, |a| + p)
  {
    var rows := a + b;
    if StartsAt(part, a, p) { assert rows[p..p + |part|] == a[p..p + |part|]; }
    if StartsAt(part, b, p) { assert rows[|a| + p..|a| + p + |part|] == b[p..p + |part|]; }
  }

  /** The rows of the subtree at row `p` start at `p` and are not interrupted. */
  lemma {:induction false} SubtreeOfNode(node: SpanNode, collapsed: set<string>, p: nat)
    requires p < |Shown(node, collapsed)|
    ensures StartsAt(Shown(Shown(node, collapsed)[p], collapsed), Shown(node, collapsed), p)
    decreases node, 0
  {
    if p > 0 {
      var below := ShownAll(node.children, collapsed);
      SubtreeOfNodes(node.children, collapsed, p - 1);
      StartsInSum(Shown(below[p - 1], collapsed), [node], below, p - 1);
    }
  }

  lemma {:induction false} SubtreeOfNodes(nodes: seq<SpanNode>, collapsed: set<string>, p: nat)
    requires p < |ShownAll(nodes, collapsed)|
    ensures StartsAt(Shown(ShownAll(nodes, collapsed)[p], collapsed), ShownAll(nodes, collapsed), p)
    decreases nodes, 1
  {
    var n := |nodes| - 1;
    var before, last := ShownAll(nodes[..n], collapsed), Shown(nodes[n], collapsed);
    assert ShownAll(nodes, collapsed) == before + last;
    if p < |before| {
      SubtreeOfNodes(nodes[..n], collapsed, p);
      StartsInSum(Shown(before[p], collapsed), before, last, p);
      assert (before + last)[p] == before[p];
    } else {
      var q := p - |before|;
      SubtreeOfNode(nodes[n], collapsed, q);
      StartsInSum(Shown(last[q], collapsed), before, last, q);
      assert (before + last)[p] == last[q];
    }
  }

  // ----- Sibling order

  /** The ids of a slot in the order in which their nodes are built. */
  ghost function Listing(g: Graph, slot: Option<string>): seq<string> {
    Sort(g.index, if slot.Some? then ChildrenOf(g.children, slot.value) else g.roots)
  }

  /** Two rows of one slot are in the order of that slot. */
  ghost predicate InOrder(g: Hierarchy, upper: SpanNode, lower: SpanNode) {
    var slot := SlotOf(g.index.Keys, upper.span);
    slot == SlotOf(g.index.Keys, lower.span) ==> Precedes(Listing(g, slot), upper.span.spanId, lower.span.spanId)
  }

  ghost predicate AllInSlot(index: Index, ids: seq<string>, slot: Option<string>) {
    forall i :: 0 <= i < |ids| ==> ids[i] in index && SlotOf(index.Keys, index[ids[i]]) == slot
  }

  lemma KidsInOrder(g: Hierarchy, id: string)
    ensures AllInSlot(g.index, KidsOf(g, id), Some(id))
    ensures Distinct(KidsOf(g, id)) && KidsOf(g, id) == Listing(g, Some(id))
  {
    KidsAreChildren(g, id);
    var kids := KidsOf(g, id);
    forall i | 0 <= i < |kids| ensures kids[i] in g.index && SlotOf(g.index.Keys, g.index[kids[i]]) == Some(id) {
      assert kids[i] in kids;
    }
  }

  lemma {:induction false} NodeInOrder(g: Hierarchy, id: string, depth: nat, collapsed: set<string>, p: nat, q: nat)
    requires AtDepth(g.index, id, depth)
    requires p < q < |Shown(BuildNode(g, id, depth), collapsed)|
    ensures var rows := Shown(BuildNode(g, id, depth), collapsed); InOrder(g, rows[p], rows[q])
    decreases |g.index| - depth, 1
  {
    BelowTheTop(BuildNode(g, id, depth), collapsed);
    if p == 0 {
      TopInOrder(g, id, depth, collapsed, q - 1);
    } else {
      BelowInOrder(g, id, depth, collapsed, p - 1, q - 1);
    }
  }

  lemma BelowTheTop(node: SpanNode, collapsed: set<string>)
    requires |Shown(node, collapsed)| > 1
    ensures Shown(node, collapsed) == [node] + ShownAll(node.children, collapsed)
  {
  }

  lemma TopInOrder(g: Hierarchy, id: string, depth: nat, collapsed: set<string>, q: nat)
    requires AtDepth(g.index, id, depth)
    requires q < |ShownAll(BuildNode(g, id, depth).children, collapsed)|
    ensures var node := BuildNode(g, id, depth); InOrder(g, node, ShownAll(node.children, collapsed)[q])
  {
    KidsRowsAreUnder(g, id, depth, collapsed);
    var row := ShownAll(BuildNode(g, id, depth).children, collapsed)[q];
    assert Under(g, row, [id], depth);
    SlotsDiffer(g, id, depth, row);
  }

  lemma {:induction false} BelowInOrder(g: Hierarchy, id: string, depth: nat, collapsed: set<string>, p: nat, q: nat)
    requires AtDepth(g.index, id, depth)
    requires p < q < |ShownAll(BuildNode(g, id, depth).children, collapsed)|
    ensures var rows := ShownAll(BuildNode(g, id, depth).children, collapsed); InOrder(g, rows[p], rows[q])
    decreases |g.index| - depth, 0
  {
    KidsAreDeeper(g, id, depth);
    KidsInOrder(g, id);
    NodesInOrder(g, KidsOf(g, id), Some(id), depth + 1, collapsed, p, q);
  }

  /** A span is in no slot of a deeper row. */
  lemma SlotsDiffer(g: Hierarchy, id: string, depth: nat, row: SpanNode)
    requires AtDepth(g.index, id, depth) && IsNode(g, row) && row.depth > depth
    ensures SlotOf(g.index.Keys, row.span) != SlotOf(g.index.Keys, g.index[id])
  {
    var x := row.span.spanId;
    if SlotOf(g.index.Keys, row.span) == SlotOf(g.index.Keys, g.index[id]) {
      assert depth > 0;
      DepthIsUnique(g.index, g.index[x].parentSpanId.value, row.depth - 1, depth - 1);
      assert false;
    }
  }

  lemma {:induction false} NodesInOrder(g: Hierarchy, ids: seq<string>, slot: Option<string>, depth: nat,
                                        collapsed: set<string>, p: nat, q: nat)
    requires depth <= |g.index| && AllAtDepth(g.index, ids, depth) && Distinct(ids) && ids <= Listing(g, slot)
    requires AllInSlot(g.index, ids, slot)
    requires p < q < |ShownAll(BuildNodes(g, ids, depth), collapsed)|
    ensures var rows := ShownAll(BuildNodes(g, ids, depth), collapsed); InOrder(g, rows[p], rows[q])
    decreases |g.index| - depth, |ids| + 2
  {
    var n := |ids| - 1;
    assert BuildNodes(g, ids, depth)[..n] == BuildNodes(g, ids[..n], depth);
    var before, last := ShownAll(BuildNodes(g, ids[..n], depth), collapsed),
        Shown(BuildNode(g, ids[n], depth), collapsed);
    if q < |before| {
      NodesInOrder(g, ids[..n], slot, depth, collapsed, p, q);
    } else if |before| <= p {
      NodeInOrder(g, ids[n], depth, collapsed, p - |before|, q - |before|);
    } else {
      NodesRowsAreUnder(g, ids[..n], depth, collapsed);
      NodeRowsAreUnder(g, ids[n], depth, collapsed);
      assert Under(g, before[p], ids[..n], depth) && Under(g, last[q - |before|], [ids[n]], depth);
      AcrossSubtrees(g, ids, slot, depth, before[p], last[q - |before|]);
    }
  }

  /** Rows of different subtrees share a slot only when they are the tops of those subtrees. */
  lemma AcrossSubtrees(g: Hierarchy, ids: seq<string>, slot: Option<string>, depth: nat, upper: SpanNode,
                       lower: SpanNode)
    requires |ids| > 0 && Distinct(ids) && ids <= Listing(g, slot)
    requires AllInSlot(g.index, ids, slot)
    requires Under(g, upper, ids[..|ids| - 1], depth) && Under(g, lower, [ids[|ids| - 1]], depth)
    ensures InOrder(g, upper, lower)
  {
    if SlotOf(g.index.Keys, upper.span) == SlotOf(g.index.Keys, lower.span) {
      var index := g.index;
      var x, y := upper.span.spanId, lower.span.spanId;
      if upper.depth == depth && lower.depth == depth {
        var k :| 0 <= k < |ids| - 1 && ids[k] == x;
        var all := Listing(g, slot);
        assert all[k] == x && all[|ids| - 1] == y;
      } else {
        SameSlotSameAncestor(index, x, upper.depth, y, lower.depth, depth);
        assert false;
      }
    }
  }

  lemma SameSlotSameAncestor(index: Index, x: string, dx: nat, y: string, dy: nat, d: nat)
    requires AtDepth(index, x, dx) && AtDepth(index, y, dy) && d <= dx && d <= dy && (d < dx || d < dy)
    requires SlotOf(index.Keys, index[x]) == SlotOf(index.Keys, index[y])
    ensures d < dx && dx == dy && Ancestor(index, x, dx, d) == Ancestor(index, y, dy, d)
  {
    var p := index[x].parentSpanId;
    if dx > 0 && dy > 0 { DepthIsUnique(index, p.value, dx - 1, dy - 1); }
  }

  // ----- The forest of a span list

  function Forest(spans: seq<Span>): seq<SpanNode>
    requires DistinctIds(spans)
  {
    GraphOfIsOk(spans);
    BuildForest(GraphOf(spans))
  }

  /** The rows the viewer lists. */
  function Rows(spans: seq<Span>, collapsed: set<string>): seq<SpanNode>
    requires DistinctIds(spans)
  {
    ShownAll(Forest(spans), collapsed)
  }

  /** Index, classification, building and flattening, for every span list on which building ends. */
  method VisibleRows(spans: seq<Span>, collapsed: set<string>) returns (list: seq<SpanNode>)
    requires TreeEnds(spans)
    ensures list == ShownAll(MakeForest(spans), collapsed)
    ensures DistinctIds(spans) ==>
              list == Rows(spans, collapsed)
              && forall p :: 0 <= p < |list| ==> WellPlaced(spans, list, collapsed, p)
  {
    GraphOfIsClosed(spans);
    RootsEnd(spans);
    var index := BuildIndex(spans);
    var roots, children := Classify(spans, index);
    var tree := MakeNodes(Graph(index, roots, children), Sort(index, roots), 0, |index|);
    list := [];
    for i := 0 to |tree|
      invariant list == ShownAll(tree[..i], collapsed)
    {
      assert tree[..i + 1][..i] == tree[..i];
      list := Traverse(tree[i], collapsed, list);
    }
    assert tree[..|tree|] == tree;
    if DistinctIds(spans) {
      MakeForestIsBuildForest(spans);
      forall p | 0 <= p < |list| ensures WellPlaced(spans, list, collapsed, p) {
        RowsAreWellPlaced(spans, collapsed, p);
      }
    }
  }

  ghost predicate ReachesRoot(index: Index, id: string) {
    exists d: nat :: AtDepth(index, id, d)
  }

  /** With nothing collapsed, a span has exactly one row if its parent chain reaches a root, and none
      otherwise; an unknown id has none. */
  lemma EachSpanOnce(spans: seq<Span>, id: string)
    requires DistinctIds(spans)
    ensures Times(Rows(spans, {}), id) == if ReachesRoot(IndexOf(spans), id) then 1 else 0
  {
    GraphOfIsOk(spans);
    var g: Hierarchy := GraphOf(spans);
    RootsAreAtDepthZero(g);
    SortKeepsElements(g.index, g.roots);
    var roots := Sort(g.index, g.roots);
    if e: nat :| AtDepth(g.index, id, e) {
      OnceInNodes(g, roots, 0, id, e);
      var top := Ancestor(g.index, id, e, 0);
      assert SlotOf(g.index.Keys, g.index[top]) == None;
      assert top in g.roots && top in roots;
    } else {
      NodesRowsAreUnder(g, roots, 0, {});
      var rows := Rows(spans, {});
      forall i | 0 <= i < |rows| ensures rows[i].span.spanId != id {
        assert Under(g, rows[i], roots, 0);
      }
      TimesNone(rows, id);
    }
  }

  /** Every row shows an input span at the length of its parent chain, and carries the subtree of that span. */
  lemma RowsAreSpans(spans: seq<Span>, collapsed: set<string>, p: nat)
    requires DistinctIds(spans) && p < |Rows(spans, collapsed)|
    ensures var row := Rows(spans, collapsed)[p];
      && row.span in spans
      && AtDepth(IndexOf(spans), row.span.spanId, row.depth)
      && GraphOk(GraphOf(spans)) && IsNode(GraphOf(spans), row)
  {
    GraphOfIsOk(spans);
    IndexHolds(spans);
    var g: Hierarchy := GraphOf(spans);
    RootsAreAtDepthZero(g);
    NodesRowsAreUnder(g, Sort(g.index, g.roots), 0, collapsed);
    assert Under(g, Rows(spans, collapsed)[p], Sort(g.index, g.roots), 0);
  }

  /** Collapsing hides exactly the rows with a collapsed proper ancestor and reorders nothing. */
  lemma CollapseFilters(spans: seq<Span>, collapsed: set<string>)
    requires DistinctIds(spans)
    ensures GraphOk(GraphOf(spans))
    ensures Rows(spans, collapsed) == Unhidden(GraphOf(spans), Rows(spans, {}), 0, collapsed)
  {
    GraphOfIsOk(spans);
    var g: Hierarchy := GraphOf(spans);
    RootsAreAtDepthZero(g);
    NodesCollapse(g, Sort(g.index, g.roots), 0, collapsed);
  }

  /** The rows from `p` on begin with the whole visible subtree of row `p`; with nothing collapsed it
      holds a span once if row `p` is on its parent chain, and not at all otherwise. */
  lemma SubtreesAreContiguous(spans: seq<Span>, collapsed: set<string>, p: nat)
    requires DistinctIds(spans) && p < |Rows(spans, collapsed)|
    ensures var row := Rows(spans, collapsed)[p]; StartsAt(Shown(row, collapsed), Rows(spans, collapsed), p)
    ensures var row := Rows(spans, collapsed)[p];
      forall x: string, e: nat :: AtDepth(IndexOf(spans), x, e) ==>
        Times(Shown(row, {}), x)
        == if row.depth <= e && Ancestor(IndexOf(spans), x, e, row.depth) == row.span.spanId then 1 else 0
  {
    var row := Rows(spans, collapsed)[p];
    SubtreeOfNodes(Forest(spans), collapsed, p);
    RowsAreSpans(spans, collapsed, p);
    forall x: string, e: nat | AtDepth(IndexOf(spans), x, e)
      ensures Times(Shown(row, {}), x)
              == if row.depth <= e && Ancestor(IndexOf(spans), x, e, row.depth) == row.span.spanId then 1 else 0
    {
      OnceInNode(GraphOf(spans), row.span.spanId, row.depth, x, e);
    }
  }

  /** The input lists `a` before `b`. */
  ghost predicate ListedBefore(spans: seq<Span>, a: Span, b: Span) {
    exists i, j :: 0 <= i < j < |spans| && spans[i] == a && spans[j] == b
  }

  lemma FiledInInputOrder(spans: seq<Span>, slot: Option<string>, a: Span, b: Span)
    requires DistinctIds(spans) && a in spans && b in spans
    requires Precedes(Filed(spans, IndexOf(spans).Keys, slot), a.spanId, b.spanId)
    ensures ListedBefore(spans, a, b)
  {
    var ids := IndexOf(spans).Keys;
    var filed, picks := Filed(spans, ids, slot), Positions(spans, ids, slot);
    FiledPicks(spans, ids, slot);
    var j, k :| 0 <= j < k < |filed| && filed[j] == a.spanId && filed[k] == b.spanId;
    assert spans[picks[j]].spanId == a.spanId && spans[picks[k]].spanId == b.spanId;
    assert spans[picks[j]] == a && spans[picks[k]] == b;
  }

  /** Roots, and the children of any one span, appear in the order of their start times, and those
      that start together in input order. */
  lemma SiblingsInOrder(spans: seq<Span>, collapsed: set<string>, p: nat, q: nat)
    requires DistinctIds(spans) && p < q < |Rows(spans, collapsed)|
    ensures var upper, lower := Rows(spans, collapsed)[p].span, Rows(spans, collapsed)[q].span;
      (if Parentless(spans, upper) then Parentless(spans, lower)
       else !Parentless(spans, lower) && lower.parentSpanId == upper.parentSpanId) ==>
        || upper.startTime < lower.startTime
        || (upper.startTime == lower.startTime && ListedBefore(spans, upper, lower))
  {
    GraphOfIsOk(spans);
    var g: Hierarchy := GraphOf(spans);
    var upper, lower := Rows(spans, collapsed)[p].span, Rows(spans, collapsed)[q].span;
    RootsInOrder(g);
    RootsAreAtDepthZero(g);
    NodesInOrder(g, Sort(g.index, g.roots), None, 0, collapsed, p, q);
    assert InOrder(g, Rows(spans, collapsed)[p], Rows(spans, collapsed)[q]);
    RootsAreParentless(spans, upper);
    RootsAreParentless(spans, lower);
    RowsAreSpans(spans, collapsed, p);
    RowsAreSpans(spans, collapsed, q);
    if SlotOf(g.index.Keys, upper) == SlotOf(g.index.Keys, lower) {
      ListingOrder(spans, SlotOf(g.index.Keys, upper), upper, lower);
    }
  }

  lemma ListingOrder(spans: seq<Span>, slot: Option<string>, upper: Span, lower: Span)
    requires DistinctIds(spans) && upper in spans && lower in spans
    requires Precedes(Listing(GraphOf(spans), slot), upper.spanId, lower.spanId)
    ensures upper.startTime < lower.startTime
         || (upper.startTime == lower.startTime && ListedBefore(spans, upper, lower))
  {
    var index := IndexOf(spans);
    var filed := Filed(spans, index.Keys, slot);
    if slot.Some? { ChildListsAreFiled(spans, index.Keys, slot.value); }
    SortedThenInput(index, filed, upper.spanId, lower.spanId);
    IndexHolds(spans);
    assert Start(index, upper.spanId) == upper.startTime && Start(index, lower.spanId) == lower.startTime;
    if upper.startTime == lower.startTime { FiledInInputOrder(spans, slot, upper, lower); }
  }

  lemma RootsInOrder(g: Hierarchy)
    ensures AllInSlot(g.index, Sort(g.index, g.roots), None)
    ensures Distinct(Sort(g.index, g.roots)) && Sort(g.index, g.roots) == Listing(g, None)
  {
    SortKeepsElements(g.index, g.roots);
    var roots := Sort(g.index, g.roots);
    forall i | 0 <= i < |roots| ensures roots[i] in g.index && SlotOf(g.index.Keys, g.index[roots[i]]) == None {
      assert roots[i] in roots;
    }
  }

  // ----- Rows and their parents

  /** The row at `q` shows the children of its span. */
  predicate ShowsChildren(rows: seq<SpanNode>, q: nat, collapsed: set<string>) {
    q < |rows| && rows[q].span.spanId !in collapsed
  }

  ghost predicate BelowEarlier(rows: seq<SpanNode>, p: nat, collapsed: set<string>) {
    p < |rows| && exists q: nat :: q < p && ShowsChildren(rows, q, collapsed) && rows[p] in rows[q].children
  }

  lemma BelowEarlierOn(a: seq<SpanNode>, b: seq<SpanNode>, p: nat, collapsed: set<string>)
    requires p < |b| && BelowEarlier(b, p, collapsed)
    ensures BelowEarlier(a + b, |a| + p, collapsed)
  {
    var q: nat :| q < p && ShowsChildren(b, q, collapsed) && b[p] in b[q].children;
    var rows := a + b;
    assert rows[|a| + q] == b[q] && rows[|a| + p] == b[p];
    assert ShowsChildren(rows, |a| + q, collapsed);
  }

  lemma BelowEarlierIn(a: seq<SpanNode>, b: seq<SpanNode>, p: nat, collapsed: set<string>)
    requires p < |a| && BelowEarlier(a, p, collapsed)
    ensures BelowEarlier(a + b, p, collapsed)
  {
    var q: nat :| q < p && ShowsChildren(a, q, collapsed) && a[p] in a[q].children;
    var rows := a + b;
    assert rows[q] == a[q] && rows[p] == a[p];
    assert ShowsChildren(rows, q, collapsed);
  }

  /** Every row but the first of a subtree is a child of an earlier one. */
  lemma {:induction false} BelowInNode(node: SpanNode, collapsed: set<string>, p: nat)
    requires 0 < p < |Shown(node, collapsed)|
    ensures BelowEarlier(Shown(node, collapsed), p, collapsed)
    decreases node, 0
  {
    BelowTheTop(node, collapsed);
    var rows, below := Shown(node, collapsed), ShownAll(node.children, collapsed);
    BelowInNodes(node.children, collapsed, p - 1);
    if BelowEarlier(below, p - 1, collapsed) {
      BelowEarlierOn([node], below, p - 1, collapsed);
    } else {
      assert rows[p] == below[p - 1] && rows[0] == node;
      assert ShowsChildren(rows, 0, collapsed);
    }
  }

  lemma {:induction false} BelowInNodes(nodes: seq<SpanNode>, collapsed: set<string>, p: nat)
    requires p < |ShownAll(nodes, collapsed)|
    ensures ShownAll(nodes, collapsed)[p] in nodes || BelowEarlier(ShownAll(nodes, collapsed), p, collapsed)
    decreases nodes, 1
  {
    var n := |nodes| - 1;
    var before, last := ShownAll(nodes[..n], collapsed), Shown(nodes[n], collapsed);
    assert ShownAll(nodes, collapsed) == before + last;
    if p < |before| {
      BelowInNodes(nodes[..n], collapsed, p);
      if BelowEarlier(before, p, collapsed) { BelowEarlierIn(before, last, p, collapsed); }
    } else if p > |before| {
      BelowInNode(nodes[n], collapsed, p - |before|);
      BelowEarlierOn(before, last, p - |before|, collapsed);
    }
  }

  lemma {:induction false} BuiltAt(g: Hierarchy, ids: seq<string>, depth: nat, k: nat)
    requires depth <= |g.index| && AllAtDepth(g.index, ids, depth) && k < |ids|
    ensures BuildNodes(g, ids, depth)[k] == BuildNode(g, ids[k], depth)
  {
    if k < |ids| - 1 { BuiltAt(g, ids[..|ids| - 1], depth, k); }
  }

  lemma ChildrenAreKids(g: Hierarchy, row: SpanNode)
    requires IsNode(g, row)
    ensures var kids := KidsOf(g, row.span.spanId);
      && |row.children| == |kids| && AllAtDepth(g.index, kids, row.depth + 1)
      && forall k :: 0 <= k < |kids| ==>
           row.children[k].span == g.index[kids[k]] && row.children[k].depth == row.depth + 1
  {
    var kids := KidsOf(g, row.span.spanId);
    KidsAreDeeper(g, row.span.spanId, row.depth);
    forall k | 0 <= k < |kids|
      ensures row.children[k].span == g.index[kids[k]] && row.children[k].depth == row.depth + 1
    {
      BuiltAt(g, kids, row.depth + 1, k);
    }
  }

  /** The rows among the children of another show the spans that name its id, one level deeper. */
  lemma ChildRow(g: Hierarchy, row: SpanNode, k: nat)
    requires IsNode(g, row) && k < |row.children|
    ensures row.children[k].depth == row.depth + 1
    ensures SlotOf(g.index.Keys, row.children[k].span) == Some(row.span.spanId)
  {
    ChildrenAreKids(g, row);
    KidsInOrder(g, row.span.spanId);
  }

  /** Each span that names the row's id is shown by one of its children. */
  lemma ChildOfRow(g: Hierarchy, row: SpanNode, id: string) returns (k: nat)
    requires IsNode(g, row) && id in g.index && SlotOf(g.index.Keys, g.index[id]) == Some(row.span.spanId)
    ensures k < |row.children| && row.children[k].span == g.index[id]
  {
    ChildrenAreKids(g, row);
    KidsAreChildren(g, row.span.spanId);
    var kids := KidsOf(g, row.span.spanId);
    assert id in kids;
    k :| k < |kids| && kids[k] == id;
  }

  /** The row stands where the raw parent id puts it: at the top if no span is its parent, and
      otherwise among the children of an earlier row, one level up, that shows the parent. */
  ghost predicate WellPlaced(spans: seq<Span>, rows: seq<SpanNode>, collapsed: set<string>, p: nat)
    requires p < |rows|
  {
    if Parentless(spans, rows[p].span) then rows[p].depth == 0
    else
      var up := rows[p].span.parentSpanId;
      && rows[p].depth > 0 && up.value !in collapsed
      && exists q :: 0 <= q < p && rows[q].span.spanId == up.value && rows[q].depth + 1 == rows[p].depth
                     && rows[p] in rows[q].children
  }

  lemma TopsAreRoots(g: Hierarchy, row: SpanNode)
    requires row in BuildForest(g)
    ensures row.depth == 0
  {
    RootsAreAtDepthZero(g);
    var roots := Sort(g.index, g.roots);
    var k: nat :| k < |roots| && BuildForest(g)[k] == row;
    BuiltAt(g, roots, 0, k);
  }

  lemma RowsAreWellPlaced(spans: seq<Span>, collapsed: set<string>, p: nat)
    requires DistinctIds(spans) && p < |Rows(spans, collapsed)|
    ensures WellPlaced(spans, Rows(spans, collapsed), collapsed, p)
  {
    GraphOfIsOk(spans);
    var g: Hierarchy := GraphOf(spans);
    var rows := Rows(spans, collapsed);
    var row := rows[p];
    RowsAreSpans(spans, collapsed, p);
    RootsAreParentless(spans, row.span);
    if !Parentless(spans, row.span) {
      if row in Forest(spans) { TopsAreRoots(g, row); }
      BelowInNodes(Forest(spans), collapsed, p);
      var q: nat :| q < p && ShowsChildren(rows, q, collapsed) && row in rows[q].children;
      RowsAreSpans(spans, collapsed, q);
      var k: nat :| k < |rows[q].children| && rows[q].children[k] == row;
      ChildRow(g, rows[q], k);
    }
  }

  // ----- Which spans have a row

  lemma {:induction false} TopsAreShown(nodes: seq<SpanNode>, collapsed: set<string>, node: SpanNode)
    requires node in nodes
    ensures node in ShownAll(nodes, collapsed)
  {
    var n := |nodes| - 1;
    assert nodes == nodes[..n] + [nodes[n]];
    if node in nodes[..n] { TopsAreShown(nodes[..n], collapsed, node); }
  }

  ghost predicate HasRow(rows: seq<SpanNode>, id: string) {
    exists q :: 0 <= q < |rows| && rows[q].span.spanId == id
  }

  lemma NodeHasRow(rows: seq<SpanNode>, node: SpanNode)
    requires node in rows
    ensures HasRow(rows, node.span.spanId)
  {
    var q :| 0 <= q < |rows| && rows[q] == node;
    assert rows[q].span.spanId == node.span.spanId;
  }

  /** Whatever is collapsed, a span has a row exactly when it has no parent, or its parent has a row
      and is not collapsed. */
  lemma RowsFollowParents(spans: seq<Span>, collapsed: set<string>, i: nat)
    requires DistinctIds(spans) && i < |spans|
    ensures HasRow(Rows(spans, collapsed), spans[i].spanId) <==>
            || Parentless(spans, spans[i])
            || (spans[i].parentSpanId.value !in collapsed
                && HasRow(Rows(spans, collapsed), spans[i].parentSpanId.value))
  {
    var rows, s := Rows(spans, collapsed), spans[i];
    if p :| 0 <= p < |rows| && rows[p].span.spanId == s.spanId {
      RowsAreSpans(spans, collapsed, p);
      RowsAreWellPlaced(spans, collapsed, p);
      assert rows[p].span == s;
    }
    if Parentless(spans, s) {
      RootHasRow(spans, collapsed, i);
    } else if s.parentSpanId.value !in collapsed && HasRow(rows, s.parentSpanId.value) {
      var q :| 0 <= q < |rows| && rows[q].span.spanId == s.parentSpanId.value;
      ChildHasRow(spans, collapsed, i, q);
    }
  }

  lemma RootHasRow(spans: seq<Span>, collapsed: set<string>, i: nat)
    requires DistinctIds(spans) && i < |spans| && Parentless(spans, spans[i])
    ensures HasRow(Rows(spans, collapsed), spans[i].spanId)
  {
    GraphOfIsOk(spans);
    var g: Hierarchy, id := GraphOf(spans), spans[i].spanId;
    IndexHolds(spans);
    RootsAreParentless(spans, spans[i]);
    RootsAreAtDepthZero(g);
    SortKeepsElements(g.index, g.roots);
    var roots := Sort(g.index, g.roots);
    assert SlotOf(g.index.Keys, g.index[id]) == None;
    assert id in roots;
    var k: nat :| k < |roots| && roots[k] == id;
    BuiltAt(g, roots, 0, k);
    TopsAreShown(Forest(spans), collapsed, Forest(spans)[k]);
    NodeHasRow(Rows(spans, collapsed), Forest(spans)[k]);
  }

  lemma ChildHasRow(spans: seq<Span>, collapsed: set<string>, i: nat, q: nat)
    requires DistinctIds(spans) && i < |spans| && !Parentless(spans, spans[i]) && q < |Rows(spans, collapsed)|
    requires Rows(spans, collapsed)[q].span.spanId == spans[i].parentSpanId.value
    requires spans[i].parentSpanId.value !in collapsed
    ensures HasRow(Rows(spans, collapsed), spans[i].spanId)
  {
    var row := Rows(spans, collapsed)[q];
    IndexHolds(spans);
    RootsAreParentless(spans, spans[i]);
    RowsAreSpans(spans, collapsed, q);
    var k := ChildOfRow(GraphOf(spans), row, spans[i].spanId);
    TopsAreShown(row.children, collapsed, row.children[k]);
    SubtreeOfNodes(Forest(spans), collapsed, q);
    ShownIsRow(row, Rows(spans, collapsed), collapsed, q, row.children[k]);
  }

  lemma ShownIsRow(row: SpanNode, rows: seq<SpanNode>, collapsed: set<string>, q: nat, node: SpanNode)
    requires StartsAt(Shown(row, collapsed), rows, q) && row.span.spanId !in collapsed
    requires node in ShownAll(row.children, collapsed)
    ensures HasRow(rows, node.span.spanId)
  {
    var part := Shown(row, collapsed);
    assert node in part;
    var j: nat :| j < |part| && part[j] == node;
    assert rows[q + j] == rows[q..q + |part|][j] == node;
  }

  // ----- Spans without a row

  /** The span `k` steps up the parent pointers. */
  ghost function Climb(index: Index, id: string, k: nat): Option<string>
    decreases k
  {
    if id !in index then None
    else if k == 0 then Some(id)
    else if IsRoot(index.Keys, index[id]) then None
    else Climb(index, index[id].parentSpanId.value, k - 1)
  }

  lemma {:induction false} ClimbLowers(index: Index, id: string, d: nat, k: nat)
    requires AtDepth(index, id, d)
    ensures if k <= d then Climb(index, id, k).Some? && AtDepth(index, Climb(index, id, k).value, d - k)
            else Climb(index, id, k).None?
    decreases d
  {
    if k > 0 && d > 0 { ClimbLowers(index, index[id].parentSpanId.value, d - 1, k - 1); }
  }

  lemma {:induction false} ClimbEndsAtRoot(index: Index, id: string, k: nat)
    requires id in index && Climb(index, id, k).None?
    ensures ReachesRoot(index, id)
    decreases k
  {
    if IsRoot(index.Keys, index[id]) {
      assert AtDepth(index, id, 0);
    } else {
      var p := index[id].parentSpanId.value;
      ClimbEndsAtRoot(index, p, k - 1);
      var d: nat :| AtDepth(index, p, d);
      assert AtDepth(index, id, d + 1);
    }
  }

  lemma {:induction false} ClimbStaysInside(index: Index, id: string, k: nat)
    requires Climb(index, id, k).Some?
    ensures Climb(index, id, k).value in index
    decreases k
  {
    if k > 0 { ClimbStaysInside(index, index[id].parentSpanId.value, k - 1); }
  }

  ghost predicate Revisits(index: Index, id: string, j: nat, k: nat) {
    j < k && Climb(index, id, j).Some? && Climb(index, id, j) == Climb(index, id, k)
  }

  ghost predicate Met(index: Index, id: string, x: string, n: nat) {
    exists k: nat :: k < n && Climb(index, id, k) == Some(x)
  }

  /** A climb without end has more steps than there are spans, so it meets a span twice. */
  lemma {:induction false} EndlessClimbRevisits(index: Index, id: string, n: nat, seen: set<string>)
    requires forall k: nat :: Climb(index, id, k).Some?
    requires forall x :: x in seen ==> Met(index, id, x, n)
    requires |seen| == n && seen <= index.Keys
    ensures exists j: nat, k: nat :: Revisits(index, id, j, k)
    decreases |index| - n
  {
    ClimbStaysInside(index, id, n);
    var next := Climb(index, id, n).value;
    if next in seen {
      var j: nat :| j < n && Climb(index, id, j) == Some(next);
      assert Revisits(index, id, j, n);
    } else {
      SubsetSize(seen + {next}, index.Keys);
      forall x | x in seen + {next} ensures Met(index, id, x, n + 1) {
        if x in seen { assert Met(index, id, x, n); }
      }
      EndlessClimbRevisits(index, id, n + 1, seen + {next});
    }
  }

  ghost predicate RunsIntoCycle(index: Index, id: string) {
    exists j: nat, k: nat :: Revisits(index, id, j, k)
  }

  lemma RootedMeetsNoneTwice(index: Index, id: string, d: nat)
    requires AtDepth(index, id, d)
    ensures !RunsIntoCycle(index, id)
  {
    forall j: nat, k: nat ensures !Revisits(index, id, j, k) {
      if Revisits(index, id, j, k) {
        ClimbLowers(index, id, d, j);
        ClimbLowers(index, id, d, k);
        DepthIsUnique(index, Climb(index, id, j).value, d - j, d - k);
        assert false;
      }
    }
  }

  lemma RootlessRunsIntoCycle(index: Index, id: string)
    requires id in index && !ReachesRoot(index, id)
    ensures RunsIntoCycle(index, id)
  {
    forall k: nat ensures Climb(index, id, k).Some? {
      if Climb(index, id, k).None? {
        ClimbEndsAtRoot(index, id, k);
        assert false;
      }
    }
    EndlessClimbRevisits(index, id, 0, {});
  }

  /** A span has no row exactly when its parent pointers run into a cycle. */
  lemma NoRowMeansCycle(spans: seq<Span>, id: string)
    requires DistinctIds(spans) && id in IndexOf(spans)
    ensures Times(Rows(spans, {}), id) == 0 <==> RunsIntoCycle(IndexOf(spans), id)
  {
    var index := IndexOf(spans);
    EachSpanOnce(spans, id);
    if d: nat :| AtDepth(index, id, d) {
      RootedMeetsNoneTwice(index, id, d);
    } else {
      RootlessRunsIntoCycle(index, id);
    }
  }
}
