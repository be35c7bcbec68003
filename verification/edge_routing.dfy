/** Edge routing between adjacent ranks. For each rank gap the router
    1. collects the flows leaving the rank and the rank's right edge,
    2. draws a Source piece from each node's evenly spaced exit point to a
       staging column past the rank, one column per flow,
    3. appends to all Source pieces of a flow the centroid of their ends,
    4. draws a Target piece from a staging column before the next rank to
       each next-rank node's evenly spaced entry point,
    5. prepends to all Target pieces of a flow the centroid of their starts.
    The routed pieces are accumulated in one list shared by all gaps; a piece
    is found again by its id and layer. */
module EdgeRouting {
  import opened DiagramTypes
  import opened LayoutGraph
  import opened EdgeIds
  import opened Geometry
  import opened RankMap

  datatype EdgePointsItem = EdgePointsItem(id: string, flow: string, points: seq<Point>, layer: EdgeLayer, rank: nat)

  /** What the router knows about one rank gap. */
  datatype Gap = Gap(rank: nat, flows: seq<string>, xStart: real, nextX: real, delta: real)

  // ---------------------------------------------------------------------------
  // Looking things up

  /** Some declared flow has id f. */
  predicate Declared(declared: seq<FlowDiagramFlow>, f: string)
    decreases |declared|
  {
    declared != [] && (declared[0].id == f || Declared(declared[1..], f))
  }

  lemma {:induction false} DeclaredMeans(declared: seq<FlowDiagramFlow>, f: string)
    ensures Declared(declared, f) <==> exists i :: 0 <= i < |declared| && declared[i].id == f
    decreases |declared|
  {
    if declared != [] {
      DeclaredMeans(declared[1..], f);
      if exists i :: 0 <= i < |declared| && declared[i].id == f {
        var i :| 0 <= i < |declared| && declared[i].id == f;
        if i > 0 {
          assert declared[1..][i - 1].id == f;
        }
      }
      if Declared(declared[1..], f) {
        var i :| 0 <= i < |declared| - 1 && declared[1..][i].id == f;
        assert declared[i + 1].id == f;
      }
    }
  }

  /** `flows.find(flow => flow.id === name)`; an unnamed edge matches no flow. */
  function FindFlow(declared: seq<FlowDiagramFlow>, name: Option<string>): (r: Option<FlowDiagramFlow>)
    ensures r.Some? ==> name == Some(r.value.id) && Declared(declared, r.value.id)
  {
    if declared == [] then None
    else if name == Some(declared[0].id) then Some(declared[0])
    else FindFlow(declared[1..], name)
  }

  /** The flow found is the first declared flow with that id, and none is
      found exactly when no declared flow has it. */
  lemma {:induction false} FindFlowFirst(declared: seq<FlowDiagramFlow>, name: Option<string>)
    ensures FindFlow(declared, name).Some? ==>
      exists i :: 0 <= i < |declared| && declared[i] == FindFlow(declared, name).value
                  && forall j :: 0 <= j < i ==> name != Some(declared[j].id)
    ensures FindFlow(declared, name).None? <==> forall i :: 0 <= i < |declared| ==> name != Some(declared[i].id)
  {
    if declared != [] && name != Some(declared[0].id) {
      FindFlowFirst(declared[1..], name);
      var r := FindFlow(declared[1..], name);
      if r.Some? {
        var i :| 0 <= i < |declared| - 1 && declared[1..][i] == r.value
                 && forall j :: 0 <= j < i ==> name != Some(declared[1..][j].id);
        assert declared[i + 1] == r.value;
      }
    }
  }

  /** `flows.findIndex(el => el === f)`; -1 when absent. */
  function IndexOf(flows: seq<string>, f: string): (r: int)
    ensures -1 <= r < |flows|
    ensures r >= 0 ==> flows[r] == f
  {
    if flows == [] then -1
    else if flows[0] == f then 0
    else
      var k := IndexOf(flows[1..], f);
      if k < 0 then -1 else k + 1
  }

  /** The index found is the first occurrence, and -1 means absent. */
  lemma {:induction false} IndexOfFirst(flows: seq<string>, f: string)
    ensures IndexOf(flows, f) >= 0 ==> forall j :: 0 <= j < IndexOf(flows, f) ==> flows[j] != f
    ensures IndexOf(flows, f) == -1 <==> f !in flows
  {
    if flows != [] && flows[0] != f {
      IndexOfFirst(flows[1..], f);
      assert flows == [flows[0]] + flows[1..];
      if IndexOf(flows, f) >= 0 {
        forall j | 0 <= j < IndexOf(flows, f)
          ensures flows[j] != f
        {
          if j > 0 {
            assert flows[j] == flows[1..][j - 1];
          }
        }
      }
    }
  }

  /** `edgePoints.find(el => el.id === id && el.layer === layer)` as an index. */
  function FindItem(items: seq<EdgePointsItem>, id: string, layer: EdgeLayer): (k: int)
    ensures -1 <= k < |items|
    ensures k >= 0 ==> items[k].id == id && items[k].layer == layer
  {
    if items == [] then -1
    else if items[0].id == id && items[0].layer == layer then 0
    else
      var k := FindItem(items[1..], id, layer);
      if k < 0 then -1 else k + 1
  }

  /** -1 means no piece has this id and layer. */
  lemma {:induction false} FindItemNone(items: seq<EdgePointsItem>, id: string, layer: EdgeLayer)
    ensures FindItem(items, id, layer) == -1 <==> forall i :: 0 <= i < |items| ==> !(items[i].id == id && items[i].layer == layer)
  {
    if items != [] && !(items[0].id == id && items[0].layer == layer) {
      FindItemNone(items[1..], id, layer);
      if FindItem(items, id, layer) == -1 {
        forall i | 0 <= i < |items|
          ensures !(items[i].id == id && items[i].layer == layer)
        {
          if i > 0 {
            assert items[i] == items[1..][i - 1];
          }
        }
      }
    }
  }

  // ---------------------------------------------------------------------------
  // Invariants of the item list

  /** Every piece has a start and an end point. */
  ghost predicate WellFormed(items: seq<EdgePointsItem>) {
    forall i :: 0 <= i < |items| ==> |items[i].points| >= 2
  }

  /** Every piece belongs to a declared flow. */
  ghost predicate KnownFlows(items: seq<EdgePointsItem>, declared: seq<FlowDiagramFlow>) {
    forall i :: 0 <= i < |items| ==> Declared(declared, items[i].flow)
  }

  /** No two pieces share both id and layer. */
  ghost predicate UniqueKeys(items: seq<EdgePointsItem>) {
    forall i, j :: 0 <= i < j < |items| ==> !(items[i].id == items[j].id && items[i].layer == items[j].layer)
  }

  /** Every point of a is also a point of b. */
  predicate PointsWithin(a: seq<Point>, b: seq<Point>)
    decreases |a|
  {
    a == [] || (a[0] in b && PointsWithin(a[1..], b))
  }

  lemma {:induction false} WithinMember(a: seq<Point>, b: seq<Point>, p: Point)
    requires PointsWithin(a, b) && p in a
    ensures p in b
    decreases |a|
  {
    if a[0] != p {
      WithinMember(a[1..], b, p);
    }
  }

  /** A sequence lies within any sequence that contains it as a block. */
  lemma {:induction false} WithinBlock(x: seq<Point>, a: seq<Point>, y: seq<Point>)
    ensures PointsWithin(a, x + a + y)
    decreases |a|
  {
    if a != [] {
      WithinBlock(x + [a[0]], a[1..], y);
      assert x + a + y == (x + [a[0]]) + a[1..] + y;
      assert (x + a + y)[|x|] == a[0];
    }
  }

  lemma {:induction false} WithinTrans(a: seq<Point>, b: seq<Point>, c: seq<Point>)
    requires PointsWithin(a, b) && PointsWithin(b, c)
    ensures PointsWithin(a, c)
    decreases |a|
  {
    if a != [] {
      WithinMember(b, c, a[0]);
      WithinTrans(a[1..], b, c);
    }
  }

  lemma WithinSelf(a: seq<Point>)
    ensures PointsWithin(a, a)
  {
    WithinBlock([], a, []);
    assert [] + a + [] == a;
  }

  lemma WithinAppend(a: seq<Point>, y: seq<Point>)
    ensures PointsWithin(a, a + y)
  {
    WithinBlock([], a, y);
    assert [] + a + y == a + y;
  }

  lemma WithinPrepend(x: seq<Point>, a: seq<Point>)
    ensures PointsWithin(a, x + a)
  {
    WithinBlock(x, a, []);
    assert x + a + [] == x + a;
  }

  /** `r` keeps every piece of `items` at its index with the same id, flow,
      layer and rank, and with all its points and possibly more. */
  ghost predicate Grows(items: seq<EdgePointsItem>, r: seq<EdgePointsItem>) {
    && |items| <= |r|
    && forall i :: 0 <= i < |items| ==>
         && r[i].id == items[i].id && r[i].flow == items[i].flow
         && r[i].layer == items[i].layer && r[i].rank == items[i].rank
         && |items[i].points| <= |r[i].points|
         && PointsWithin(items[i].points, r[i].points)
  }

  /** The pieces `r` adds after those of `items` belong to a declared flow,
      lie in the given layer and rank, and have two points or more. */
  ghost predicate NewPieces(items: seq<EdgePointsItem>, r: seq<EdgePointsItem>, declared: seq<FlowDiagramFlow>, layer: EdgeLayer, rank: nat) {
    forall i :: |items| <= i < |r| ==>
      Declared(declared, r[i].flow) && r[i].layer == layer && r[i].rank == rank && |r[i].points| >= 2
  }

  /** Some piece with this id and layer passes through p. */
  ghost predicate Holds(items: seq<EdgePointsItem>, id: string, layer: EdgeLayer, p: Point) {
    exists i :: 0 <= i < |items| && items[i].id == id && items[i].layer == layer && p in items[i].points
  }

  lemma GrowsTransitive(a: seq<EdgePointsItem>, b: seq<EdgePointsItem>, c: seq<EdgePointsItem>)
    requires Grows(a, b) && Grows(b, c)
    ensures Grows(a, c)
  {
    forall i | 0 <= i < |a|
      ensures PointsWithin(a[i].points, c[i].points)
    {
      WithinTrans(a[i].points, b[i].points, c[i].points);
    }
  }

  lemma GrowsRefl(a: seq<EdgePointsItem>)
    ensures Grows(a, a)
  {
    forall i | 0 <= i < |a|
      ensures PointsWithin(a[i].points, a[i].points)
    {
      WithinSelf(a[i].points);
    }
  }

  lemma NewPiecesTransitive(a: seq<EdgePointsItem>, b: seq<EdgePointsItem>, c: seq<EdgePointsItem>,
                            declared: seq<FlowDiagramFlow>, layer: EdgeLayer, rank: nat)
    requires Grows(b, c)
    requires NewPieces(a, b, declared, layer, rank) && NewPieces(b, c, declared, layer, rank)
    ensures NewPieces(a, c, declared, layer, rank)
  {
  }

  lemma HoldsGrows(a: seq<EdgePointsItem>, b: seq<EdgePointsItem>, id: string, layer: EdgeLayer, p: Point)
    requires Grows(a, b) && Holds(a, id, layer, p)
    ensures Holds(b, id, layer, p)
  {
    var i :| 0 <= i < |a| && a[i].id == id && a[i].layer == layer && p in a[i].points;
    WithinMember(a[i].points, b[i].points, p);
  }

  /** The invariants carried across an extension. */
  lemma InvariantsGrow(a: seq<EdgePointsItem>, b: seq<EdgePointsItem>, declared: seq<FlowDiagramFlow>, layer: EdgeLayer, rank: nat)
    requires Grows(a, b) && NewPieces(a, b, declared, layer, rank)
    requires WellFormed(a) && KnownFlows(a, declared)
    ensures WellFormed(b) && KnownFlows(b, declared)
  {
  }

  // ---------------------------------------------------------------------------
  // Adding a segment

  /** A segment p-q of a piece: appended to the piece with this id and layer
      if there is one, otherwise a new piece of the given flow and rank. */
  function AddSegment(items: seq<EdgePointsItem>, id: string, flow: string, layer: EdgeLayer, rank: nat, p: Point, q: Point): seq<EdgePointsItem>
  {
    var k := FindItem(items, id, layer);
    if k >= 0 then items[k := items[k].(points := items[k].points + [p, q])]
    else items + [EdgePointsItem(id, flow, [p, q], layer, rank)]
  }

  /** Adding a segment keeps every piece, leaves a piece with this id and
      layer through both ends, creates a piece only when none had the id
      and layer, and so never duplicates one. */
  lemma AddSegmentSpec(items: seq<EdgePointsItem>, id: string, flow: string, layer: EdgeLayer, rank: nat, p: Point, q: Point)
    ensures Grows(items, AddSegment(items, id, flow, layer, rank, p, q))
    ensures Holds(AddSegment(items, id, flow, layer, rank, p, q), id, layer, p)
    ensures Holds(AddSegment(items, id, flow, layer, rank, p, q), id, layer, q)
    ensures |AddSegment(items, id, flow, layer, rank, p, q)| == |items| <==> FindItem(items, id, layer) >= 0
    ensures |AddSegment(items, id, flow, layer, rank, p, q)| != |items| ==>
      AddSegment(items, id, flow, layer, rank, p, q) == items + [EdgePointsItem(id, flow, [p, q], layer, rank)]
    ensures UniqueKeys(items) ==> UniqueKeys(AddSegment(items, id, flow, layer, rank, p, q))
  {
    var r := AddSegment(items, id, flow, layer, rank, p, q);
    var k := FindItem(items, id, layer);
    FindItemNone(items, id, layer);
    forall i | 0 <= i < |items|
      ensures PointsWithin(items[i].points, r[i].points)
    {
      if i == k {
        WithinAppend(items[i].points, [p, q]);
      } else {
        WithinSelf(items[i].points);
      }
    }
    if k >= 0 {
      assert p in r[k].points && q in r[k].points;
    } else {
      assert p in r[|items|].points && q in r[|items|].points;
    }
  }

  // ---------------------------------------------------------------------------
  // Exit and entry points

  /** The offset of the k-th of n attachment points down a side of height h. */
  function SideOffset(k: nat, n: nat, h: real): real {
    (k + 1) as real * h / (n + 1) as real
  }

  /** The k-th of n exit points on the right side of a node. */
  function ExitPoint(node: GraphNode, k: nat, n: nat): Point {
    Point(node.x + node.width / 2.0, node.y - node.height / 2.0 + SideOffset(k, n, node.height))
  }

  /** The k-th of n entry points on the left side of a node. */
  function EntryPoint(node: GraphNode, k: nat, n: nat): Point {
    Point(node.x - node.width / 2.0, node.y - node.height / 2.0 + SideOffset(k, n, node.height))
  }

  lemma OffsetBounds(k: nat, n: nat, h: real)
    requires k < n && h > 0.0
    ensures 0.0 < SideOffset(k, n, h) < h
  {
    var a, b := (k + 1) as real, (n + 1) as real;
    assert 0.0 < a < b;
    assert a * h < b * h;
    assert SideOffset(k, n, h) * b == a * h;
  }

  lemma OffsetStep(k: nat, n: nat, h: real)
    ensures SideOffset(k + 1, n, h) - SideOffset(k, n, h) == h / (n + 1) as real
  {
    var b := (n + 1) as real;
    assert (k + 2) as real * h == (k + 1) as real * h + h;
    assert ((k + 1) as real * h + h) / b == (k + 1) as real * h / b + h / b;
  }

  /** Attachment points are evenly spaced: the k-th of n sits on the node's
      right (exit) or left (entry) side, strictly between its top and bottom,
      one n+1-th of the height below the previous one; exit and entry points
      of the same index are level. */
  lemma SidePointsEvenlySpaced(node: GraphNode, k: nat, n: nat)
    requires k < n
    ensures ExitPoint(node, k, n).x == node.x + node.width / 2.0
    ensures EntryPoint(node, k, n).x == node.x - node.width / 2.0
    ensures ExitPoint(node, k, n).y == EntryPoint(node, k, n).y
    ensures node.height > 0.0 ==> node.y - node.height / 2.0 < ExitPoint(node, k, n).y < node.y + node.height / 2.0
    ensures k + 1 < n ==> ExitPoint(node, k + 1, n).y - ExitPoint(node, k, n).y == node.height / (n + 1) as real
  {
    if node.height > 0.0 {
      OffsetBounds(k, n, node.height);
    }
    OffsetStep(k, n, node.height);
  }

  // ---------------------------------------------------------------------------
  // Staging columns

  /** The column of flow f in a gap, as a fraction of the staging width:
      `(flowIndex + 1) / flows.length` with `flowIndex` found by `findIndex`.
      A flow that is not staged in the gap gets 0; so does every flow of a
      gap that stages none (see StagingFractionAsWritten). */
  function StagingFraction(flows: seq<string>, f: string): real {
    if |flows| == 0 then 0.0
    else (OrZero(IndexOf(flows, f)) + 1) as real / |flows| as real
  }

  /** The column lies within the staging width, and is 0 exactly for a flow
      not staged in the gap. */
  lemma StagingFractionRange(flows: seq<string>, f: string)
    ensures 0.0 <= StagingFraction(flows, f) <= 1.0
    ensures StagingFraction(flows, f) == 0.0 <==> f !in flows
  {
    IndexOfFirst(flows, f);
    if |flows| > 0 {
      var i := OrZero(IndexOf(flows, f));
      assert StagingFraction(flows, f) * |flows| as real == (i + 1) as real;
    }
  }

  /** The x of flow f's staging column past a rank, for its Source pieces. */
  function SourceColumnX(gap: Gap, f: string): real {
    gap.xStart + StagingFraction(gap.flows, f) * gap.delta
  }

  /** The x of flow f's staging column before the next rank, for its Target
      pieces. */
  function TargetColumnX(gap: Gap, f: string): real {
    gap.nextX - StagingFraction(gap.flows, f) * gap.delta
  }

  /** The fraction as the drawer computes it: with no staged flows it divides
      0 by 0. None stands for the resulting NaN. */
  function StagingFractionAsWritten(flows: seq<string>, f: string): (r: Option<real>)
    ensures r.None? <==> |flows| == 0
  {
    if |flows| == 0 then None
    else Some((OrZero(IndexOf(flows, f)) + 1) as real / |flows| as real)
  }

  /** Where the drawer's fraction is a number the two agree. */
  lemma StagingFractionAgrees(flows: seq<string>, f: string)
    requires StagingFractionAsWritten(flows, f).Some?
    ensures StagingFractionAsWritten(flows, f).value == StagingFraction(flows, f)
  {
  }

  /** In a gap that stages no flow the drawer's fraction is undefined, so a
      Target segment into the next rank would start at a NaN column; the
      corrected fraction puts it on the next rank's left edge. */
  lemma StagingFractionUndefined(gap: Gap, f: string)
    requires gap.flows == []
    ensures StagingFractionAsWritten(gap.flows, f).None?
    ensures TargetColumnX(gap, f) == gap.nextX
  {
  }

  /** Different staged flows get different columns. */
  lemma StagingColumnsDistinct(flows: seq<string>, f: string, h: string)
    requires f in flows && h in flows && f != h
    ensures StagingFraction(flows, f) != StagingFraction(flows, h)
  {
    IndexOfFirst(flows, f);
    IndexOfFirst(flows, h);
    var a, b := (IndexOf(flows, f) + 1) as real, (IndexOf(flows, h) + 1) as real;
    DivideInjective(a, b, |flows| as real);
  }

  lemma DivideInjective(a: real, b: real, n: real)
    requires n > 0.0 && a != b
    ensures a / n != b / n
  {
    assert a / n * n == a;
    assert b / n * n == b;
  }

  // ---------------------------------------------------------------------------
  // The flows of a rank and its right edge

  /** The reduce over a node's unique-flow out-edges collecting the names
      that are defined and non-empty, each once. */
  function LocalFlows(edges: seq<GraphEdge>): (r: seq<string>)
    ensures |r| <= |edges|
  {
    if edges == [] then []
    else
      var prefix := edges[..|edges| - 1];
      var e := edges[|edges| - 1];
      var acc := LocalFlows(prefix);
      if e.name.Some? && e.name.value != "" && e.name.value !in acc then acc + [e.name.value] else acc
  }

  /** The local flows are distinct and are exactly the non-empty names. */
  lemma {:induction false} LocalFlowsSpec(edges: seq<GraphEdge>)
    ensures forall i, j :: 0 <= i < j < |LocalFlows(edges)| ==> LocalFlows(edges)[i] != LocalFlows(edges)[j]
    ensures forall f :: f in LocalFlows(edges) <==> f != "" && HasName(edges, Some(f))
    decreases |edges|
  {
    if edges != [] {
      var prefix := edges[..|edges| - 1];
      var e := edges[|edges| - 1];
      LocalFlowsSpec(prefix);
      assert edges == prefix + [e];
      HasNameAppend(prefix, e);
    }
  }

  /** The first m local flows pushed onto `flows` unless already there. */
  function MergeFlows(flows: seq<string>, local: seq<string>, m: nat): (r: seq<string>)
    requires m <= |local|
    ensures |flows| <= |r| <= |flows| + m
  {
    if m == 0 then flows
    else
      var acc := MergeFlows(flows, local, m - 1);
      if local[m - 1] !in acc then acc + [local[m - 1]] else acc
  }

  /** Merging keeps a list without repeats free of them, and yields the
      union of the two lists. */
  lemma {:induction false} MergeFlowsSpec(flows: seq<string>, local: seq<string>, m: nat)
    requires m <= |local|
    ensures (forall i, j :: 0 <= i < j < |flows| ==> flows[i] != flows[j]) ==>
      forall i, j :: 0 <= i < j < |MergeFlows(flows, local, m)| ==> MergeFlows(flows, local, m)[i] != MergeFlows(flows, local, m)[j]
    ensures forall f :: f in MergeFlows(flows, local, m) <==> f in flows || f in local[..m]
  {
    if m > 0 {
      MergeFlowsSpec(flows, local, m - 1);
      assert local[..m] == local[..m - 1] + [local[m - 1]];
    }
  }

  /** The flows leaving the first m nodes of a rank, in order of appearance. */
  function RankFlows(g: Graph, nodes: seq<string>, m: nat): (r: seq<string>)
    requires m <= |nodes| && InGraph(g, nodes)
  {
    if m == 0 then []
    else MergeFlows(RankFlows(g, nodes, m - 1), LocalFlows(UniqueOutEdges(g, nodes[m - 1])), |LocalFlows(UniqueOutEdges(g, nodes[m - 1]))|)
  }

  /** The staged flows of a rank are distinct, and are the local flows of
      its nodes. */
  lemma {:induction false} RankFlowsSpec(g: Graph, nodes: seq<string>, m: nat)
    requires m <= |nodes| && InGraph(g, nodes)
    ensures forall i, j :: 0 <= i < j < |RankFlows(g, nodes, m)| ==> RankFlows(g, nodes, m)[i] != RankFlows(g, nodes, m)[j]
    ensures forall f :: f in RankFlows(g, nodes, m) <==> exists t :: 0 <= t < m && f in LocalFlows(UniqueOutEdges(g, nodes[t]))
  {
    if m > 0 {
      RankFlowsSpec(g, nodes, m - 1);
      var local := LocalFlows(UniqueOutEdges(g, nodes[m - 1]));
      MergeFlowsSpec(RankFlows(g, nodes, m - 1), local, |local|);
      assert local[..|local|] == local;
    }
  }

  /** A flow is staged in a gap exactly when some node of the rank has an
      out-edge with that (non-empty) name. */
  lemma RankFlowsMembers(g: Graph, nodes: seq<string>, f: string)
    requires InGraph(g, nodes)
    ensures f in RankFlows(g, nodes, |nodes|) <==>
      f != "" && exists t :: 0 <= t < |nodes| && HasName(g.nodes[nodes[t]].outEdges, Some(f))
  {
    RankFlowsSpec(g, nodes, |nodes|);
    forall t | 0 <= t < |nodes|
      ensures f in LocalFlows(UniqueOutEdges(g, nodes[t])) <==> f != "" && HasName(g.nodes[nodes[t]].outEdges, Some(f))
    {
      LocalFlowsSpec(UniqueOutEdges(g, nodes[t]));
      UniqueFlowEdgeListNames(g.nodes[nodes[t]].outEdges);
    }
  }

  /** `xStartPosition`: the rightmost right side of the first m nodes, or 0. */
  function RightSide(g: Graph, nodes: seq<string>, m: nat): (r: real)
    requires m <= |nodes| && InGraph(g, nodes)
    ensures r >= 0.0
  {
    if m == 0 then 0.0
    else
      var acc := RightSide(g, nodes, m - 1);
      var side := g.nodes[nodes[m - 1]].x + g.nodes[nodes[m - 1]].width / 2.0;
      if acc >= side then acc else side
  }

  /** The value is at least every right side and is one of them, unless it
      is the starting 0. */
  lemma {:induction false} RightSideBounds(g: Graph, nodes: seq<string>, m: nat)
    requires m <= |nodes| && InGraph(g, nodes)
    ensures forall t :: 0 <= t < m ==> g.nodes[nodes[t]].x + g.nodes[nodes[t]].width / 2.0 <= RightSide(g, nodes, m)
    ensures RightSide(g, nodes, m) == 0.0 ||
      exists t :: 0 <= t < m && RightSide(g, nodes, m) == g.nodes[nodes[t]].x + g.nodes[nodes[t]].width / 2.0
  {
    if m > 0 {
      RightSideBounds(g, nodes, m - 1);
    }
  }

  /** `Math.min` over the left sides of the nodes of the next rank. */
  function LeftSides(g: Graph, nodes: seq<string>): seq<real>
    requires InGraph(g, nodes)
  {
    seq(|nodes|, t requires 0 <= t < |nodes| => g.nodes[nodes[t]].x - g.nodes[nodes[t]].width / 2.0)
  }

  function LeftMost(g: Graph, nodes: seq<string>): real
    requires nodes != [] && InGraph(g, nodes)
  {
    MinOf(LeftSides(g, nodes))
  }

  /** The value is at most every left side and is one of them. */
  lemma LeftMostBounds(g: Graph, nodes: seq<string>)
    requires nodes != [] && InGraph(g, nodes)
    ensures forall t :: 0 <= t < |nodes| ==> LeftMost(g, nodes) <= g.nodes[nodes[t]].x - g.nodes[nodes[t]].width / 2.0
    ensures exists t :: 0 <= t < |nodes| && LeftMost(g, nodes) == g.nodes[nodes[t]].x - g.nodes[nodes[t]].width / 2.0
  {
    var lefts := LeftSides(g, nodes);
    forall t | 0 <= t < |nodes| ensures LeftMost(g, nodes) <= g.nodes[nodes[t]].x - g.nodes[nodes[t]].width / 2.0 {
      assert lefts[t] in lefts;
    }
    var t :| 0 <= t < |lefts| && lefts[t] == LeftMost(g, nodes);
    assert LeftMost(g, nodes) == g.nodes[nodes[t]].x - g.nodes[nodes[t]].width / 2.0;
  }

  // ---------------------------------------------------------------------------
  // Source layer

  /** The Source segment of the k-th of n unique-flow out-edges of a node:
      from the exit point to the flow's staging column past the rank, level. */
  function SourceStep(items: seq<EdgePointsItem>, declared: seq<FlowDiagramFlow>, gap: Gap,
                      node: GraphNode, n: nat, k: nat, e: GraphEdge): (r: seq<EdgePointsItem>)
    ensures FindFlow(declared, e.name).None? ==> r == items
  {
    var start := ExitPoint(node, k, n);
    match FindFlow(declared, e.name)
    case None => items
    case Some(flow) =>
      var end := Point(SourceColumnX(gap, flow.id), start.y);
      AddSegment(items, MakeEdgeId(e.v, e.w, flow.id, Source), flow.id, Source, gap.rank, start, end)
  }

  /** The Source segments of the first m of a node's unique-flow out-edges. */
  function SourceEdges(items: seq<EdgePointsItem>, declared: seq<FlowDiagramFlow>, gap: Gap,
                       node: GraphNode, edges: seq<GraphEdge>, m: nat): seq<EdgePointsItem>
    requires m <= |edges|
  {
    if m == 0 then items
    else
      var acc := SourceEdges(items, declared, gap, node, edges, m - 1);
      var r := SourceStep(acc, declared, gap, node, |edges|, m - 1, edges[m - 1]);
      r
  }

  /** The Source segments of the first m nodes of a rank. */
  function SourceLayer(items: seq<EdgePointsItem>, declared: seq<FlowDiagramFlow>, gap: Gap,
                       g: Graph, nodes: seq<string>, m: nat): seq<EdgePointsItem>
    requires m <= |nodes| && InGraph(g, nodes)
  {
    if m == 0 then items
    else
      var acc := SourceLayer(items, declared, gap, g, nodes, m - 1);
      var v := nodes[m - 1];
      var edges := UniqueOutEdges(g, v);
      var r := SourceEdges(acc, declared, gap, g.nodes[v], edges, |edges|);
      r
  }

  // ---------------------------------------------------------------------------
  // Target layer

  /** The Target segment of the k-th of n unique-flow in-edges of a node:
      from the flow's staging column before the next rank to the entry point. */
  function TargetStep(items: seq<EdgePointsItem>, declared: seq<FlowDiagramFlow>, gap: Gap,
                      node: GraphNode, n: nat, k: nat, e: GraphEdge): (r: seq<EdgePointsItem>)
    ensures FindFlow(declared, e.name).None? ==> r == items
  {
    var end := EntryPoint(node, k, n);
    match FindFlow(declared, e.name)
    case None => items
    case Some(flow) =>
      var start := Point(TargetColumnX(gap, flow.id), end.y);
      AddSegment(items, MakeEdgeId(e.v, e.w, flow.id, Target), flow.id, Target, gap.rank, start, end)
  }

  function TargetEdges(items: seq<EdgePointsItem>, declared: seq<FlowDiagramFlow>, gap: Gap,
                       node: GraphNode, edges: seq<GraphEdge>, m: nat): seq<EdgePointsItem>
    requires m <= |edges|
  {
    if m == 0 then items
    else
      var acc := TargetEdges(items, declared, gap, node, edges, m - 1);
      var r := TargetStep(acc, declared, gap, node, |edges|, m - 1, edges[m - 1]);
      r
  }

  /** The Target segments of the first m nodes of the next rank. */
  function TargetLayer(items: seq<EdgePointsItem>, declared: seq<FlowDiagramFlow>, gap: Gap,
                       g: Graph, nodes: seq<string>, m: nat): seq<EdgePointsItem>
    requires m <= |nodes| && InGraph(g, nodes)
  {
    if m == 0 then items
    else
      var acc := TargetLayer(items, declared, gap, g, nodes, m - 1);
      var v := nodes[m - 1];
      var edges := UniqueInEdges(g, v);
      var r := TargetEdges(acc, declared, gap, g.nodes[v], edges, |edges|);
      r
  }

  /** Each Source or Target segment keeps the pieces there were, adds
      only pieces of a declared flow in its layer and rank, and adds no
      second piece under an id and layer already used. */
  lemma SourceStepGrows(items: seq<EdgePointsItem>, declared: seq<FlowDiagramFlow>, gap: Gap,
                        node: GraphNode, n: nat, k: nat, e: GraphEdge)
    ensures var r := SourceStep(items, declared, gap, node, n, k, e);
      Grows(items, r) && NewPieces(items, r, declared, Source, gap.rank)
  {
    match FindFlow(declared, e.name)
    case None =>
      GrowsRefl(items);
    case Some(flow) =>
      var start := ExitPoint(node, k, n);
      AddSegmentSpec(items, MakeEdgeId(e.v, e.w, flow.id, Source), flow.id, Source, gap.rank,
                     start, Point(SourceColumnX(gap, flow.id), start.y));
  }
  lemma SourceStepUnique(items: seq<EdgePointsItem>, declared: seq<FlowDiagramFlow>, gap: Gap,
                        node: GraphNode, n: nat, k: nat, e: GraphEdge)
    ensures var r := SourceStep(items, declared, gap, node, n, k, e);
      UniqueKeys(items) ==> UniqueKeys(r)
  {
    match FindFlow(declared, e.name)
    case None =>
    case Some(flow) =>
      var start := ExitPoint(node, k, n);
      AddSegmentSpec(items, MakeEdgeId(e.v, e.w, flow.id, Source), flow.id, Source, gap.rank,
                     start, Point(SourceColumnX(gap, flow.id), start.y));
  }

  lemma TargetStepGrows(items: seq<EdgePointsItem>, declared: seq<FlowDiagramFlow>, gap: Gap,
                        node: GraphNode, n: nat, k: nat, e: GraphEdge)
    ensures var r := TargetStep(items, declared, gap, node, n, k, e);
      Grows(items, r) && NewPieces(items, r, declared, Target, gap.rank)
  {
    match FindFlow(declared, e.name)
    case None =>
      GrowsRefl(items);
    case Some(flow) =>
      var end := EntryPoint(node, k, n);
      AddSegmentSpec(items, MakeEdgeId(e.v, e.w, flow.id, Target), flow.id, Target, gap.rank,
                     Point(TargetColumnX(gap, flow.id), end.y), end);
  }
  lemma TargetStepUnique(items: seq<EdgePointsItem>, declared: seq<FlowDiagramFlow>, gap: Gap,
                        node: GraphNode, n: nat, k: nat, e: GraphEdge)
    ensures var r := TargetStep(items, declared, gap, node, n, k, e);
      UniqueKeys(items) ==> UniqueKeys(r)
  {
    match FindFlow(declared, e.name)
    case None =>
    case Some(flow) =>
      var end := EntryPoint(node, k, n);
      AddSegmentSpec(items, MakeEdgeId(e.v, e.w, flow.id, Target), flow.id, Target, gap.rank,
                     Point(TargetColumnX(gap, flow.id), end.y), end);
  }

  /** So do the segments of a node's edges and of a whole rank. */
  lemma {:induction false} SourceEdgesGrows(items: seq<EdgePointsItem>, declared: seq<FlowDiagramFlow>, gap: Gap,
                                            node: GraphNode, edges: seq<GraphEdge>, m: nat)
    requires m <= |edges|
    ensures var r := SourceEdges(items, declared, gap, node, edges, m);
      Grows(items, r) && NewPieces(items, r, declared, Source, gap.rank)
  {
    if m == 0 {
      GrowsRefl(items);
    } else {
      var acc := SourceEdges(items, declared, gap, node, edges, m - 1);
      SourceEdgesGrows(items, declared, gap, node, edges, m - 1);
      SourceStepGrows(acc, declared, gap, node, |edges|, m - 1, edges[m - 1]);
      var r := SourceStep(acc, declared, gap, node, |edges|, m - 1, edges[m - 1]);
      GrowsTransitive(items, acc, r);
      NewPiecesTransitive(items, acc, r, declared, Source, gap.rank);
    }
  }
  lemma {:induction false} SourceEdgesUnique(items: seq<EdgePointsItem>, declared: seq<FlowDiagramFlow>, gap: Gap,
                                            node: GraphNode, edges: seq<GraphEdge>, m: nat)
    requires m <= |edges|
    ensures UniqueKeys(items) ==> UniqueKeys(SourceEdges(items, declared, gap, node, edges, m))
  {
    if m > 0 {
      var acc := SourceEdges(items, declared, gap, node, edges, m - 1);
      SourceEdgesUnique(items, declared, gap, node, edges, m - 1);
      SourceStepUnique(acc, declared, gap, node, |edges|, m - 1, edges[m - 1]);
      assert SourceEdges(items, declared, gap, node, edges, m) == SourceStep(acc, declared, gap, node, |edges|, m - 1, edges[m - 1]);
    }
  }

  lemma {:induction false} TargetEdgesGrows(items: seq<EdgePointsItem>, declared: seq<FlowDiagramFlow>, gap: Gap,
                                            node: GraphNode, edges: seq<GraphEdge>, m: nat)
    requires m <= |edges|
    ensures var r := TargetEdges(items, declared, gap, node, edges, m);
      Grows(items, r) && NewPieces(items, r, declared, Target, gap.rank)
  {
    if m == 0 {
      GrowsRefl(items);
    } else {
      var acc := TargetEdges(items, declared, gap, node, edges, m - 1);
      TargetEdgesGrows(items, declared, gap, node, edges, m - 1);
      TargetStepGrows(acc, declared, gap, node, |edges|, m - 1, edges[m - 1]);
      var r := TargetStep(acc, declared, gap, node, |edges|, m - 1, edges[m - 1]);
      GrowsTransitive(items, acc, r);
      NewPiecesTransitive(items, acc, r, declared, Target, gap.rank);
    }
  }
  lemma {:induction false} TargetEdgesUnique(items: seq<EdgePointsItem>, declared: seq<FlowDiagramFlow>, gap: Gap,
                                            node: GraphNode, edges: seq<GraphEdge>, m: nat)
    requires m <= |edges|
    ensures UniqueKeys(items) ==> UniqueKeys(TargetEdges(items, declared, gap, node, edges, m))
  {
    if m > 0 {
      var acc := TargetEdges(items, declared, gap, node, edges, m - 1);
      TargetEdgesUnique(items, declared, gap, node, edges, m - 1);
      TargetStepUnique(acc, declared, gap, node, |edges|, m - 1, edges[m - 1]);
    }
  }

  lemma {:induction false} SourceLayerGrows(items: seq<EdgePointsItem>, declared: seq<FlowDiagramFlow>, gap: Gap,
                                            g: Graph, nodes: seq<string>, m: nat)
    requires m <= |nodes| && InGraph(g, nodes)
    ensures Grows(items, SourceLayer(items, declared, gap, g, nodes, m))
  {
    if m == 0 {
      GrowsRefl(items);
    } else {
      var acc := SourceLayer(items, declared, gap, g, nodes, m - 1);
      var edges := UniqueOutEdges(g, nodes[m - 1]);
      SourceLayerGrows(items, declared, gap, g, nodes, m - 1);
      SourceEdgesGrows(acc, declared, gap, g.nodes[nodes[m - 1]], edges, |edges|);
      GrowsTransitive(items, acc, SourceEdges(acc, declared, gap, g.nodes[nodes[m - 1]], edges, |edges|));
    }
  }

  lemma {:induction false} SourceLayerNew(items: seq<EdgePointsItem>, declared: seq<FlowDiagramFlow>, gap: Gap,
                                          g: Graph, nodes: seq<string>, m: nat)
    requires m <= |nodes| && InGraph(g, nodes)
    ensures NewPieces(items, SourceLayer(items, declared, gap, g, nodes, m), declared, Source, gap.rank)
  {
    if m > 0 {
      var acc := SourceLayer(items, declared, gap, g, nodes, m - 1);
      var edges := UniqueOutEdges(g, nodes[m - 1]);
      SourceLayerNew(items, declared, gap, g, nodes, m - 1);
      SourceEdgesGrows(acc, declared, gap, g.nodes[nodes[m - 1]], edges, |edges|);
      NewPiecesTransitive(items, acc, SourceEdges(acc, declared, gap, g.nodes[nodes[m - 1]], edges, |edges|), declared, Source, gap.rank);
    }
  }

  lemma {:induction false} SourceLayerUnique(items: seq<EdgePointsItem>, declared: seq<FlowDiagramFlow>, gap: Gap,
                                             g: Graph, nodes: seq<string>, m: nat)
    requires m <= |nodes| && InGraph(g, nodes)
    ensures UniqueKeys(items) ==> UniqueKeys(SourceLayer(items, declared, gap, g, nodes, m))
  {
    if m > 0 {
      var acc := SourceLayer(items, declared, gap, g, nodes, m - 1);
      var edges := UniqueOutEdges(g, nodes[m - 1]);
      SourceLayerUnique(items, declared, gap, g, nodes, m - 1);
      SourceEdgesUnique(acc, declared, gap, g.nodes[nodes[m - 1]], edges, |edges|);
    }
  }


  lemma {:induction false} TargetLayerGrows(items: seq<EdgePointsItem>, declared: seq<FlowDiagramFlow>, gap: Gap,
                                            g: Graph, nodes: seq<string>, m: nat)
    requires m <= |nodes| && InGraph(g, nodes)
    ensures Grows(items, TargetLayer(items, declared, gap, g, nodes, m))
  {
    if m == 0 {
      GrowsRefl(items);
    } else {
      var acc := TargetLayer(items, declared, gap, g, nodes, m - 1);
      var edges := UniqueInEdges(g, nodes[m - 1]);
      TargetLayerGrows(items, declared, gap, g, nodes, m - 1);
      TargetEdgesGrows(acc, declared, gap, g.nodes[nodes[m - 1]], edges, |edges|);
      GrowsTransitive(items, acc, TargetEdges(acc, declared, gap, g.nodes[nodes[m - 1]], edges, |edges|));
    }
  }

  lemma {:induction false} TargetLayerNew(items: seq<EdgePointsItem>, declared: seq<FlowDiagramFlow>, gap: Gap,
                                          g: Graph, nodes: seq<string>, m: nat)
    requires m <= |nodes| && InGraph(g, nodes)
    ensures NewPieces(items, TargetLayer(items, declared, gap, g, nodes, m), declared, Target, gap.rank)
  {
    if m > 0 {
      var acc := TargetLayer(items, declared, gap, g, nodes, m - 1);
      var edges := UniqueInEdges(g, nodes[m - 1]);
      TargetLayerNew(items, declared, gap, g, nodes, m - 1);
      TargetEdgesGrows(acc, declared, gap, g.nodes[nodes[m - 1]], edges, |edges|);
      NewPiecesTransitive(items, acc, TargetEdges(acc, declared, gap, g.nodes[nodes[m - 1]], edges, |edges|), declared, Target, gap.rank);
    }
  }

  lemma {:induction false} TargetLayerUnique(items: seq<EdgePointsItem>, declared: seq<FlowDiagramFlow>, gap: Gap,
                                             g: Graph, nodes: seq<string>, m: nat)
    requires m <= |nodes| && InGraph(g, nodes)
    ensures UniqueKeys(items) ==> UniqueKeys(TargetLayer(items, declared, gap, g, nodes, m))
  {
    if m > 0 {
      var acc := TargetLayer(items, declared, gap, g, nodes, m - 1);
      var edges := UniqueInEdges(g, nodes[m - 1]);
      TargetLayerUnique(items, declared, gap, g, nodes, m - 1);
      TargetEdgesUnique(acc, declared, gap, g.nodes[nodes[m - 1]], edges, |edges|);
    }
  }


  // ---------------------------------------------------------------------------
  // Joints and splits

  predicate InGroup(item: EdgePointsItem, rank: nat, f: string, layer: EdgeLayer) {
    item.rank == rank && item.flow == f && item.layer == layer
  }

  /** The indices of the pieces in a group, in item order: the reference for
      what the joint and split reduces collect. */
  function GroupIndices(items: seq<EdgePointsItem>, rank: nat, f: string, layer: EdgeLayer): (r: seq<nat>)
    ensures forall k :: 0 <= k < |r| ==> r[k] < |items| && InGroup(items[r[k]], rank, f, layer)
  {
    if items == [] then []
    else
      var n := |items| - 1;
      GroupIndices(items[..n], rank, f, layer) + (if InGroup(items[n], rank, f, layer) then [n] else [])
  }

  /** Every piece of the group is listed, once, and in item order. */
  lemma {:induction false} GroupIndicesSpec(items: seq<EdgePointsItem>, rank: nat, f: string, layer: EdgeLayer)
    ensures var r := GroupIndices(items, rank, f, layer);
      && (forall j, k :: 0 <= j < k < |r| ==> r[j] < r[k])
      && (forall i :: 0 <= i < |items| && InGroup(items[i], rank, f, layer) ==> i in r)
  {
    if items != [] {
      var n := |items| - 1;
      var prefix := items[..n];
      GroupIndicesSpec(prefix, rank, f, layer);
      var p := GroupIndices(prefix, rank, f, layer);
      assert forall i :: 0 <= i < n ==> prefix[i] == items[i];
      assert forall k :: 0 <= k < |p| ==> p[k] < n;
    }
  }

  /** The reduce collecting the Source pieces of a rank and flow, mapped to
      their last points. */
  function JoinInputs(items: seq<EdgePointsItem>, rank: nat, f: string): (r: seq<Point>)
    requires WellFormed(items)
    ensures |r| <= |items|
  {
    if items == [] then []
    else
      var prefix := items[..|items| - 1];
      var it := items[|items| - 1];
      JoinInputs(prefix, rank, f) + (if InGroup(it, rank, f, Source) then [it.points[|it.points| - 1]] else [])
  }
  /** The reduce yields the last point of each grouped Source piece, once
      each and in item order, and nothing else. */
  lemma {:induction false} JoinInputsExactly(items: seq<EdgePointsItem>, rank: nat, f: string)
    requires WellFormed(items)
    ensures var ends, idx := JoinInputs(items, rank, f), GroupIndices(items, rank, f, Source);
      && |ends| == |idx|
      && forall k :: 0 <= k < |idx| ==> ends[k] == items[idx[k]].points[|items[idx[k]].points| - 1]
  {
    if items != [] {
      var n := |items| - 1;
      var prefix := items[..n];
      JoinInputsExactly(prefix, rank, f);
      var e, ip := JoinInputs(prefix, rank, f), GroupIndices(prefix, rank, f, Source);
      var ends, idx := JoinInputs(items, rank, f), GroupIndices(items, rank, f, Source);
      assert ends[..|e|] == e && idx[..|ip|] == ip;
      forall k | 0 <= k < |ip|
        ensures ends[k] == items[idx[k]].points[|items[idx[k]].points| - 1]
      {
        assert ends[k] == e[k] && idx[k] == ip[k] && prefix[ip[k]] == items[ip[k]];
      }
    }
  }

  /** The list is empty exactly when no piece is in the group. */
  lemma {:induction false} JoinInputsEmpty(items: seq<EdgePointsItem>, rank: nat, f: string)
    requires WellFormed(items)
    ensures JoinInputs(items, rank, f) == [] <==> forall i :: 0 <= i < |items| ==> !InGroup(items[i], rank, f, Source)
  {
    if items != [] {
      var prefix := items[..|items| - 1];
      JoinInputsEmpty(prefix, rank, f);
      assert forall i :: 0 <= i < |prefix| ==> prefix[i] == items[i];
    }
  }


  /** The reduce collecting the Target pieces of a rank and flow, mapped to
      their first points. */
  function SplitInputs(items: seq<EdgePointsItem>, rank: nat, f: string): (r: seq<Point>)
    requires WellFormed(items)
    ensures |r| <= |items|
  {
    if items == [] then []
    else
      var prefix := items[..|items| - 1];
      var it := items[|items| - 1];
      SplitInputs(prefix, rank, f) + (if InGroup(it, rank, f, Target) then [it.points[0]] else [])
  }
  /** The reduce yields the first point of each grouped Target piece, once
      each and in item order, and nothing else. */
  lemma {:induction false} SplitInputsExactly(items: seq<EdgePointsItem>, rank: nat, f: string)
    requires WellFormed(items)
    ensures var starts, idx := SplitInputs(items, rank, f), GroupIndices(items, rank, f, Target);
      && |starts| == |idx|
      && forall k :: 0 <= k < |idx| ==> starts[k] == items[idx[k]].points[0]
  {
    if items != [] {
      var n := |items| - 1;
      var prefix := items[..n];
      SplitInputsExactly(prefix, rank, f);
      var e, ip := SplitInputs(prefix, rank, f), GroupIndices(prefix, rank, f, Target);
      var ends, idx := SplitInputs(items, rank, f), GroupIndices(items, rank, f, Target);
      assert ends[..|e|] == e && idx[..|ip|] == ip;
      forall k | 0 <= k < |ip|
        ensures ends[k] == items[idx[k]].points[0]
      {
        assert ends[k] == e[k] && idx[k] == ip[k] && prefix[ip[k]] == items[ip[k]];
      }
    }
  }

  /** The list is empty exactly when no piece is in the group. */
  lemma {:induction false} SplitInputsEmpty(items: seq<EdgePointsItem>, rank: nat, f: string)
    requires WellFormed(items)
    ensures SplitInputs(items, rank, f) == [] <==> forall i :: 0 <= i < |items| ==> !InGroup(items[i], rank, f, Target)
  {
    if items != [] {
      var prefix := items[..|items| - 1];
      SplitInputsEmpty(prefix, rank, f);
      assert forall i :: 0 <= i < |prefix| ==> prefix[i] == items[i];
    }
  }


  /** Flow f's joint in a gap: the centroid of the ends of its Source pieces
      is appended to each of them. With no such pieces nothing changes. */
  function JoinFlow(items: seq<EdgePointsItem>, rank: nat, f: string): (r: seq<EdgePointsItem>)
    requires WellFormed(items)
    ensures |r| == |items| && WellFormed(r)
  {
    match Centroid(JoinInputs(items, rank, f))
    case None => items
    case Some(c) =>
      seq(|items|, i requires 0 <= i < |items| =>
        if InGroup(items[i], rank, f, Source) then items[i].(points := items[i].points + [c]) else items[i])
  }

  /** Flow f's split in a gap: the centroid of the starts of its Target
      pieces is put in front of each of them. */
  function SplitFlow(items: seq<EdgePointsItem>, rank: nat, f: string): (r: seq<EdgePointsItem>)
    requires WellFormed(items)
    ensures |r| == |items| && WellFormed(r)
  {
    match Centroid(SplitInputs(items, rank, f))
    case None => items
    case Some(c) =>
      seq(|items|, i requires 0 <= i < |items| =>
        if InGroup(items[i], rank, f, Target) then items[i].(points := [c] + items[i].points) else items[i])
  }

  /** The joints of the first m staged flows of a gap. */
  function JoinFlows(items: seq<EdgePointsItem>, rank: nat, flows: seq<string>, m: nat): (r: seq<EdgePointsItem>)
    requires m <= |flows| && WellFormed(items)
    ensures |r| == |items| && WellFormed(r)
  {
    if m == 0 then items
    else
      var acc := JoinFlows(items, rank, flows, m - 1);
      var r := JoinFlow(acc, rank, flows[m - 1]);
      r
  }

  function SplitFlows(items: seq<EdgePointsItem>, rank: nat, flows: seq<string>, m: nat): (r: seq<EdgePointsItem>)
    requires m <= |flows| && WellFormed(items)
    ensures |r| == |items| && WellFormed(r)
  {
    if m == 0 then items
    else
      var acc := SplitFlows(items, rank, flows, m - 1);
      var r := SplitFlow(acc, rank, flows[m - 1]);
      r
  }
  /** Joints and splits only add points to existing pieces. */
  lemma JoinFlowGrows(items: seq<EdgePointsItem>, rank: nat, f: string)
    requires WellFormed(items)
    ensures Grows(items, JoinFlow(items, rank, f)) && (UniqueKeys(items) ==> UniqueKeys(JoinFlow(items, rank, f)))
  {
    var r := JoinFlow(items, rank, f);
    forall i | 0 <= i < |items|
      ensures PointsWithin(items[i].points, r[i].points)
    {
      if r[i] == items[i] {
        WithinSelf(items[i].points);
      } else {
        var c := Centroid(JoinInputs(items, rank, f)).value;
        WithinAppend(items[i].points, [c]);
      }
    }
  }

  lemma SplitFlowGrows(items: seq<EdgePointsItem>, rank: nat, f: string)
    requires WellFormed(items)
    ensures Grows(items, SplitFlow(items, rank, f)) && (UniqueKeys(items) ==> UniqueKeys(SplitFlow(items, rank, f)))
  {
    var r := SplitFlow(items, rank, f);
    forall i | 0 <= i < |items|
      ensures PointsWithin(items[i].points, r[i].points)
    {
      if r[i] == items[i] {
        WithinSelf(items[i].points);
      } else {
        var c := Centroid(SplitInputs(items, rank, f)).value;
        WithinPrepend([c], items[i].points);
      }
    }
  }

  lemma {:induction false} JoinFlowsGrows(items: seq<EdgePointsItem>, rank: nat, flows: seq<string>, m: nat)
    requires m <= |flows| && WellFormed(items)
    ensures Grows(items, JoinFlows(items, rank, flows, m))
  {
    if m == 0 {
      GrowsRefl(items);
    } else {
      var acc := JoinFlows(items, rank, flows, m - 1);
      JoinFlowsGrows(items, rank, flows, m - 1);
      JoinFlowGrows(acc, rank, flows[m - 1]);
      GrowsTransitive(items, acc, JoinFlow(acc, rank, flows[m - 1]));
    }
  }

  lemma {:induction false} JoinFlowsUnique(items: seq<EdgePointsItem>, rank: nat, flows: seq<string>, m: nat)
    requires m <= |flows| && WellFormed(items)
    ensures UniqueKeys(items) ==> UniqueKeys(JoinFlows(items, rank, flows, m))
  {
    if m > 0 {
      JoinFlowsUnique(items, rank, flows, m - 1);
      JoinFlowGrows(JoinFlows(items, rank, flows, m - 1), rank, flows[m - 1]);
    }
  }


  lemma {:induction false} SplitFlowsGrows(items: seq<EdgePointsItem>, rank: nat, flows: seq<string>, m: nat)
    requires m <= |flows| && WellFormed(items)
    ensures Grows(items, SplitFlows(items, rank, flows, m))
  {
    if m == 0 {
      GrowsRefl(items);
    } else {
      var acc := SplitFlows(items, rank, flows, m - 1);
      SplitFlowsGrows(items, rank, flows, m - 1);
      SplitFlowGrows(acc, rank, flows[m - 1]);
      GrowsTransitive(items, acc, SplitFlow(acc, rank, flows[m - 1]));
    }
  }

  lemma {:induction false} SplitFlowsUnique(items: seq<EdgePointsItem>, rank: nat, flows: seq<string>, m: nat)
    requires m <= |flows| && WellFormed(items)
    ensures UniqueKeys(items) ==> UniqueKeys(SplitFlows(items, rank, flows, m))
  {
    if m > 0 {
      SplitFlowsUnique(items, rank, flows, m - 1);
      SplitFlowGrows(SplitFlows(items, rank, flows, m - 1), rank, flows[m - 1]);
    }
  }


  /** All Source pieces of flow f in the gap end at the same point. */
  ghost predicate SharesLast(items: seq<EdgePointsItem>, rank: nat, f: string)
    requires WellFormed(items)
  {
    forall i, j :: 0 <= i < |items| && 0 <= j < |items| && InGroup(items[i], rank, f, Source) && InGroup(items[j], rank, f, Source) ==>
      items[i].points[|items[i].points| - 1] == items[j].points[|items[j].points| - 1]
  }

  /** All Target pieces of flow f in the gap start at the same point. */
  ghost predicate SharesFirst(items: seq<EdgePointsItem>, rank: nat, f: string)
    requires WellFormed(items)
  {
    forall i, j :: 0 <= i < |items| && 0 <= j < |items| && InGroup(items[i], rank, f, Target) && InGroup(items[j], rank, f, Target) ==>
      items[i].points[0] == items[j].points[0]
  }

  lemma JoinInputsMembers(items: seq<EdgePointsItem>, rank: nat, f: string, i: nat)
    requires WellFormed(items) && i < |items| && InGroup(items[i], rank, f, Source)
    ensures items[i].points[|items[i].points| - 1] in JoinInputs(items, rank, f)
  {
    if i < |items| - 1 {
      JoinInputsMembers(items[..|items| - 1], rank, f, i);
    }
  }

  lemma SplitInputsMembers(items: seq<EdgePointsItem>, rank: nat, f: string, i: nat)
    requires WellFormed(items) && i < |items| && InGroup(items[i], rank, f, Target)
    ensures items[i].points[0] in SplitInputs(items, rank, f)
  {
    if i < |items| - 1 {
      SplitInputsMembers(items[..|items| - 1], rank, f, i);
    }
  }

  /** Flow f's joint: pieces outside the group are untouched; each Source
      piece of the rank and flow keeps its points and gains one more: the
      centroid of their ends, which lies within the bounding box of those ends. */
  lemma JoinFlowEffect(items: seq<EdgePointsItem>, rank: nat, f: string)
    requires WellFormed(items)
    ensures var r := JoinFlow(items, rank, f);
      && (forall i :: 0 <= i < |items| && !InGroup(items[i], rank, f, Source) ==> r[i] == items[i])
      && (forall i :: 0 <= i < |items| && InGroup(items[i], rank, f, Source) ==>
            |r[i].points| == |items[i].points| + 1 && r[i].points[..|items[i].points|] == items[i].points)
      && SharesLast(r, rank, f)
      && (forall i :: 0 <= i < |items| && InGroup(items[i], rank, f, Source) ==>
            var ends := JoinInputs(items, rank, f);
            var c := r[i].points[|r[i].points| - 1];
            && ends != [] && c == Centroid(ends).value
            && MinOf(Xs(ends)) <= c.x <= MaxOf(Xs(ends)) && MinOf(Ys(ends)) <= c.y <= MaxOf(Ys(ends)))
  {
    var ends := JoinInputs(items, rank, f);
    var r := JoinFlow(items, rank, f);
    JoinInputsEmpty(items, rank, f);
    if ends != [] {
      CentroidWithinBoundingBox(ends);
      var c := Centroid(ends).value;
      forall i | 0 <= i < |items| && InGroup(items[i], rank, f, Source)
        ensures |r[i].points| == |items[i].points| + 1 && r[i].points[..|items[i].points|] == items[i].points
        ensures r[i].points[|r[i].points| - 1] == c
      {
        assert r[i].points == items[i].points + [c];
      }
    }
  }

  /** Flow f's split, symmetric to the joint at the front of Target pieces. */
  lemma SplitFlowEffect(items: seq<EdgePointsItem>, rank: nat, f: string)
    requires WellFormed(items)
    ensures var r := SplitFlow(items, rank, f);
      && (forall i :: 0 <= i < |items| && !InGroup(items[i], rank, f, Target) ==> r[i] == items[i])
      && (forall i :: 0 <= i < |items| && InGroup(items[i], rank, f, Target) ==>
            |r[i].points| == |items[i].points| + 1 && r[i].points[1..] == items[i].points)
      && SharesFirst(r, rank, f)
      && (forall i :: 0 <= i < |items| && InGroup(items[i], rank, f, Target) ==>
            var starts := SplitInputs(items, rank, f);
            var c := r[i].points[0];
            && starts != [] && c == Centroid(starts).value
            && MinOf(Xs(starts)) <= c.x <= MaxOf(Xs(starts)) && MinOf(Ys(starts)) <= c.y <= MaxOf(Ys(starts)))
  {
    var starts := SplitInputs(items, rank, f);
    var r := SplitFlow(items, rank, f);
    SplitInputsEmpty(items, rank, f);
    if starts != [] {
      CentroidWithinBoundingBox(starts);
      var c := Centroid(starts).value;
      forall i | 0 <= i < |items| && InGroup(items[i], rank, f, Target)
        ensures |r[i].points| == |items[i].points| + 1 && r[i].points[1..] == items[i].points
        ensures r[i].points[0] == c
      {
        assert r[i].points == [c] + items[i].points;
      }
    }
  }

  /** A joint or split of flow f leaves every piece outside f's group alone. */
  lemma JoinFlowUntouched(items: seq<EdgePointsItem>, rank: nat, f: string)
    requires WellFormed(items)
    ensures forall i :: 0 <= i < |items| && !InGroup(items[i], rank, f, Source) ==> JoinFlow(items, rank, f)[i] == items[i]
  {
  }

  lemma SplitFlowUntouched(items: seq<EdgePointsItem>, rank: nat, f: string)
    requires WellFormed(items)
    ensures forall i :: 0 <= i < |items| && !InGroup(items[i], rank, f, Target) ==> SplitFlow(items, rank, f)[i] == items[i]
  {
  }

  lemma JoinFlowKeepsOthers(items: seq<EdgePointsItem>, rank: nat, f: string, h: string)
    requires WellFormed(items) && f != h && SharesLast(items, rank, h)
    ensures SharesLast(JoinFlow(items, rank, f), rank, h)
  {
    JoinFlowUntouched(items, rank, f);
    var r := JoinFlow(items, rank, f);
    forall i | 0 <= i < |items| && InGroup(r[i], rank, h, Source) ensures r[i] == items[i] {
      assert !InGroup(items[i], rank, f, Source);
    }
  }

  lemma SplitFlowKeepsOthers(items: seq<EdgePointsItem>, rank: nat, f: string, h: string)
    requires WellFormed(items) && f != h && SharesFirst(items, rank, h)
    ensures SharesFirst(SplitFlow(items, rank, f), rank, h)
  {
    SplitFlowUntouched(items, rank, f);
    var r := SplitFlow(items, rank, f);
    forall i | 0 <= i < |items| && InGroup(r[i], rank, h, Target) ensures r[i] == items[i] {
      assert !InGroup(items[i], rank, f, Target);
    }
  }

  /** Flow f's own Source pieces share their end after its joint. */
  lemma JoinFlowShares(items: seq<EdgePointsItem>, rank: nat, f: string)
    requires WellFormed(items)
    ensures SharesLast(JoinFlow(items, rank, f), rank, f)
  {
    JoinFlowEffect(items, rank, f);
  }

  lemma SplitFlowShares(items: seq<EdgePointsItem>, rank: nat, f: string)
    requires WellFormed(items)
    ensures SharesFirst(SplitFlow(items, rank, f), rank, f)
  {
    SplitFlowEffect(items, rank, f);
  }

  /** After the joints of the first m staged flows, the Source pieces of
      the t-th one end at one point: a later flow's joint leaves an earlier
      flow's pieces alone. */
  lemma {:induction false} JoinFlowsConverge(items: seq<EdgePointsItem>, rank: nat, flows: seq<string>, m: nat, t: nat)
    requires t < m <= |flows| && WellFormed(items)
    ensures SharesLast(JoinFlows(items, rank, flows, m), rank, flows[t])
    decreases m
  {
    var acc := JoinFlows(items, rank, flows, m - 1);
    var f := flows[m - 1];
    if flows[t] == f {
      JoinFlowShares(acc, rank, f);
    } else {
      JoinFlowsConverge(items, rank, flows, m - 1, t);
      JoinFlowKeepsOthers(acc, rank, f, flows[t]);
    }
  }

  /** After the splits of the first m staged flows, the Target pieces of
      the t-th one start at one point. */
  lemma {:induction false} SplitFlowsConverge(items: seq<EdgePointsItem>, rank: nat, flows: seq<string>, m: nat, t: nat)
    requires t < m <= |flows| && WellFormed(items)
    ensures SharesFirst(SplitFlows(items, rank, flows, m), rank, flows[t])
    decreases m
  {
    var acc := SplitFlows(items, rank, flows, m - 1);
    var f := flows[m - 1];
    if flows[t] == f {
      SplitFlowShares(acc, rank, f);
    } else {
      SplitFlowsConverge(items, rank, flows, m - 1, t);
      SplitFlowKeepsOthers(acc, rank, f, flows[t]);
    }
  }
}
