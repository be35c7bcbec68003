/** What it means for an edge to be routed. */
module RoutedEdges {
  import opened DiagramTypes
  import opened LayoutGraph
  import opened EdgeIds
  import opened EdgeRouting

  /** Edge e, when its flow is declared, has a piece in this layer through p. */
  ghost predicate EdgeRouted(items: seq<EdgePointsItem>, declared: seq<FlowDiagramFlow>, e: GraphEdge, layer: EdgeLayer, p: Point) {
    FindFlow(declared, e.name).Some? ==>
      Holds(items, MakeEdgeId(e.v, e.w, FindFlow(declared, e.name).value.id, layer), layer, p)
  }

  /** Each unique-flow out-edge of v has its Source piece through its exit point. */
  ghost predicate ExitsRouted(items: seq<EdgePointsItem>, declared: seq<FlowDiagramFlow>, g: Graph, v: string) {
    v in g.nodes ==>
      var edges := UniqueOutEdges(g, v);
      forall k :: 0 <= k < |edges| ==> EdgeRouted(items, declared, edges[k], Source, ExitPoint(g.nodes[v], k, |edges|))
  }

  /** Each unique-flow in-edge of v has its Target piece through its entry point. */
  ghost predicate EntriesRouted(items: seq<EdgePointsItem>, declared: seq<FlowDiagramFlow>, g: Graph, v: string) {
    v in g.nodes ==>
      var edges := UniqueInEdges(g, v);
      forall k :: 0 <= k < |edges| ==> EdgeRouted(items, declared, edges[k], Target, EntryPoint(g.nodes[v], k, |edges|))
  }
}

/** Routing guarantees of the rank loop: every edge of a declared flow
    gets its Source piece through its exit point and its Target piece
    through its entry point. */
module EdgeRoutes {
  import opened DiagramTypes
  import opened LayoutGraph
  import opened EdgeIds
  import opened RankMap
  import opened EdgeRouting
  import opened EdgePoints
  import opened RoutedEdges

  lemma EdgeRoutedGrows(a: seq<EdgePointsItem>, b: seq<EdgePointsItem>, declared: seq<FlowDiagramFlow>, e: GraphEdge, layer: EdgeLayer, p: Point)
    requires Grows(a, b) && EdgeRouted(a, declared, e, layer, p)
    ensures EdgeRouted(b, declared, e, layer, p)
  {
    if FindFlow(declared, e.name).Some? {
      HoldsGrows(a, b, MakeEdgeId(e.v, e.w, FindFlow(declared, e.name).value.id, layer), layer, p);
    }
  }

  lemma ExitsRoutedGrows(a: seq<EdgePointsItem>, b: seq<EdgePointsItem>, declared: seq<FlowDiagramFlow>, g: Graph, v: string)
    requires Grows(a, b) && ExitsRouted(a, declared, g, v)
    ensures ExitsRouted(b, declared, g, v)
  {
    if v in g.nodes {
      var edges := UniqueOutEdges(g, v);
      forall k | 0 <= k < |edges| ensures EdgeRouted(b, declared, edges[k], Source, ExitPoint(g.nodes[v], k, |edges|)) {
        EdgeRoutedGrows(a, b, declared, edges[k], Source, ExitPoint(g.nodes[v], k, |edges|));
      }
    }
  }

  lemma EntriesRoutedGrows(a: seq<EdgePointsItem>, b: seq<EdgePointsItem>, declared: seq<FlowDiagramFlow>, g: Graph, v: string)
    requires Grows(a, b) && EntriesRouted(a, declared, g, v)
    ensures EntriesRouted(b, declared, g, v)
  {
    if v in g.nodes {
      var edges := UniqueInEdges(g, v);
      forall k | 0 <= k < |edges| ensures EdgeRouted(b, declared, edges[k], Target, EntryPoint(g.nodes[v], k, |edges|)) {
        EdgeRoutedGrows(a, b, declared, edges[k], Target, EntryPoint(g.nodes[v], k, |edges|));
      }
    }
  }

  /** Each fold below only extends what its previous step produced, and
      its last step is written out. */
  lemma SourceEdgesStep(items: seq<EdgePointsItem>, declared: seq<FlowDiagramFlow>, gap: Gap,
                        node: GraphNode, edges: seq<GraphEdge>, m: nat)
    requires 0 < m <= |edges|
    ensures Grows(SourceEdges(items, declared, gap, node, edges, m - 1), SourceEdges(items, declared, gap, node, edges, m))
  {
    SourceStepGrows(SourceEdges(items, declared, gap, node, edges, m - 1), declared, gap, node, |edges|, m - 1, edges[m - 1]);
  }

  lemma SourceEdgesUnfold(items: seq<EdgePointsItem>, declared: seq<FlowDiagramFlow>, gap: Gap,
                          node: GraphNode, edges: seq<GraphEdge>, m: nat)
    requires 0 < m <= |edges|
    ensures SourceEdges(items, declared, gap, node, edges, m)
         == SourceStep(SourceEdges(items, declared, gap, node, edges, m - 1), declared, gap, node, |edges|, m - 1, edges[m - 1])
  {
  }

  /** The step for edge k routes edge k. */
  lemma SourceStepRoutes(items: seq<EdgePointsItem>, declared: seq<FlowDiagramFlow>, gap: Gap,
                         node: GraphNode, n: nat, k: nat, e: GraphEdge)
    ensures EdgeRouted(SourceStep(items, declared, gap, node, n, k, e), declared, e, Source, ExitPoint(node, k, n))
  {
    match FindFlow(declared, e.name)
    case None =>
    case Some(flow) =>
      var start := ExitPoint(node, k, n);
      AddSegmentSpec(items, MakeEdgeId(e.v, e.w, flow.id, Source), flow.id, Source, gap.rank,
                     start, Point(SourceColumnX(gap, flow.id), start.y));
  }

  /** After the steps for the first m edges, edge k < m is routed. */
  lemma {:induction false} SourceEdgesRoute(items: seq<EdgePointsItem>, declared: seq<FlowDiagramFlow>, gap: Gap,
                                            node: GraphNode, edges: seq<GraphEdge>, m: nat, k: nat)
    requires k < m <= |edges|
    ensures EdgeRouted(SourceEdges(items, declared, gap, node, edges, m), declared, edges[k], Source, ExitPoint(node, k, |edges|))
    decreases m, 1
  {
    if k == m - 1 {
      SourceEdgesRouteLast(items, declared, gap, node, edges, m);
    } else {
      SourceEdgesRouteKeeps(items, declared, gap, node, edges, m, k);
    }
  }

  lemma SourceEdgesRouteKeeps(items: seq<EdgePointsItem>, declared: seq<FlowDiagramFlow>, gap: Gap,
                              node: GraphNode, edges: seq<GraphEdge>, m: nat, k: nat)
    requires k < m - 1 && m <= |edges|
    ensures EdgeRouted(SourceEdges(items, declared, gap, node, edges, m), declared, edges[k], Source, ExitPoint(node, k, |edges|))
    decreases m, 0
  {
    SourceEdgesRoute(items, declared, gap, node, edges, m - 1, k);
    SourceEdgesStep(items, declared, gap, node, edges, m);
    EdgeRoutedGrows(SourceEdges(items, declared, gap, node, edges, m - 1), SourceEdges(items, declared, gap, node, edges, m),
                    declared, edges[k], Source, ExitPoint(node, k, |edges|));
  }

  lemma SourceEdgesRouteLast(items: seq<EdgePointsItem>, declared: seq<FlowDiagramFlow>, gap: Gap,
                             node: GraphNode, edges: seq<GraphEdge>, m: nat)
    requires 0 < m <= |edges|
    ensures EdgeRouted(SourceEdges(items, declared, gap, node, edges, m), declared, edges[m - 1], Source, ExitPoint(node, m - 1, |edges|))
  {
    SourceEdgesUnfold(items, declared, gap, node, edges, m);
    SourceStepRoutes(SourceEdges(items, declared, gap, node, edges, m - 1), declared, gap, node, |edges|, m - 1, edges[m - 1]);
  }

  lemma TargetEdgesStep(items: seq<EdgePointsItem>, declared: seq<FlowDiagramFlow>, gap: Gap,
                        node: GraphNode, edges: seq<GraphEdge>, m: nat)
    requires 0 < m <= |edges|
    ensures Grows(TargetEdges(items, declared, gap, node, edges, m - 1), TargetEdges(items, declared, gap, node, edges, m))
  {
    TargetStepGrows(TargetEdges(items, declared, gap, node, edges, m - 1), declared, gap, node, |edges|, m - 1, edges[m - 1]);
  }

  lemma TargetEdgesUnfold(items: seq<EdgePointsItem>, declared: seq<FlowDiagramFlow>, gap: Gap,
                          node: GraphNode, edges: seq<GraphEdge>, m: nat)
    requires 0 < m <= |edges|
    ensures TargetEdges(items, declared, gap, node, edges, m)
         == TargetStep(TargetEdges(items, declared, gap, node, edges, m - 1), declared, gap, node, |edges|, m - 1, edges[m - 1])
  {
  }

  /** The step for edge k routes edge k. */
  lemma TargetStepRoutes(items: seq<EdgePointsItem>, declared: seq<FlowDiagramFlow>, gap: Gap,
                         node: GraphNode, n: nat, k: nat, e: GraphEdge)
    ensures EdgeRouted(TargetStep(items, declared, gap, node, n, k, e), declared, e, Target, EntryPoint(node, k, n))
  {
    match FindFlow(declared, e.name)
    case None =>
    case Some(flow) =>
      var end := EntryPoint(node, k, n);
      AddSegmentSpec(items, MakeEdgeId(e.v, e.w, flow.id, Target), flow.id, Target, gap.rank,
                     Point(TargetColumnX(gap, flow.id), end.y), end);
  }

  /** After the steps for the first m edges, edge k < m is routed. */
  lemma {:induction false} TargetEdgesRoute(items: seq<EdgePointsItem>, declared: seq<FlowDiagramFlow>, gap: Gap,
                                            node: GraphNode, edges: seq<GraphEdge>, m: nat, k: nat)
    requires k < m <= |edges|
    ensures EdgeRouted(TargetEdges(items, declared, gap, node, edges, m), declared, edges[k], Target, EntryPoint(node, k, |edges|))
    decreases m, 1
  {
    if k == m - 1 {
      TargetEdgesRouteLast(items, declared, gap, node, edges, m);
    } else {
      TargetEdgesRouteKeeps(items, declared, gap, node, edges, m, k);
    }
  }

  lemma TargetEdgesRouteKeeps(items: seq<EdgePointsItem>, declared: seq<FlowDiagramFlow>, gap: Gap,
                              node: GraphNode, edges: seq<GraphEdge>, m: nat, k: nat)
    requires k < m - 1 && m <= |edges|
    ensures EdgeRouted(TargetEdges(items, declared, gap, node, edges, m), declared, edges[k], Target, EntryPoint(node, k, |edges|))
    decreases m, 0
  {
    TargetEdgesRoute(items, declared, gap, node, edges, m - 1, k);
    TargetEdgesStep(items, declared, gap, node, edges, m);
    EdgeRoutedGrows(TargetEdges(items, declared, gap, node, edges, m - 1), TargetEdges(items, declared, gap, node, edges, m),
                    declared, edges[k], Target, EntryPoint(node, k, |edges|));
  }

  lemma TargetEdgesRouteLast(items: seq<EdgePointsItem>, declared: seq<FlowDiagramFlow>, gap: Gap,
                             node: GraphNode, edges: seq<GraphEdge>, m: nat)
    requires 0 < m <= |edges|
    ensures EdgeRouted(TargetEdges(items, declared, gap, node, edges, m), declared, edges[m - 1], Target, EntryPoint(node, m - 1, |edges|))
  {
    TargetEdgesUnfold(items, declared, gap, node, edges, m);
    TargetStepRoutes(TargetEdges(items, declared, gap, node, edges, m - 1), declared, gap, node, |edges|, m - 1, edges[m - 1]);
  }

  /** The Source segments of a node's out-edges route all of them. */
  lemma NodeExitsRouted(items: seq<EdgePointsItem>, declared: seq<FlowDiagramFlow>, gap: Gap, g: Graph, v: string)
    requires v in g.nodes
    ensures ExitsRouted(SourceEdges(items, declared, gap, g.nodes[v], UniqueOutEdges(g, v), |UniqueOutEdges(g, v)|), declared, g, v)
  {
    var edges := UniqueOutEdges(g, v);
    forall k | 0 <= k < |edges|
      ensures EdgeRouted(SourceEdges(items, declared, gap, g.nodes[v], edges, |edges|), declared, edges[k], Source, ExitPoint(g.nodes[v], k, |edges|))
    {
      SourceEdgesRoute(items, declared, gap, g.nodes[v], edges, |edges|, k);
    }
  }

  lemma NodeEntriesRouted(items: seq<EdgePointsItem>, declared: seq<FlowDiagramFlow>, gap: Gap, g: Graph, v: string)
    requires v in g.nodes
    ensures EntriesRouted(TargetEdges(items, declared, gap, g.nodes[v], UniqueInEdges(g, v), |UniqueInEdges(g, v)|), declared, g, v)
  {
    var edges := UniqueInEdges(g, v);
    forall k | 0 <= k < |edges|
      ensures EdgeRouted(TargetEdges(items, declared, gap, g.nodes[v], edges, |edges|), declared, edges[k], Target, EntryPoint(g.nodes[v], k, |edges|))
    {
      TargetEdgesRoute(items, declared, gap, g.nodes[v], edges, |edges|, k);
    }
  }

  /** After the first m nodes of a rank, node t < m has its exits routed. */
  lemma SourceLayerStep(items: seq<EdgePointsItem>, declared: seq<FlowDiagramFlow>, gap: Gap,
                        g: Graph, nodes: seq<string>, m: nat)
    requires 0 < m <= |nodes| && InGraph(g, nodes)
    ensures Grows(SourceLayer(items, declared, gap, g, nodes, m - 1), SourceLayer(items, declared, gap, g, nodes, m))
  {
    var edges := UniqueOutEdges(g, nodes[m - 1]);
    SourceEdgesGrows(SourceLayer(items, declared, gap, g, nodes, m - 1), declared, gap, g.nodes[nodes[m - 1]], edges, |edges|);
  }

  lemma SourceLayerUnfold(items: seq<EdgePointsItem>, declared: seq<FlowDiagramFlow>, gap: Gap,
                          g: Graph, nodes: seq<string>, m: nat)
    requires 0 < m <= |nodes| && InGraph(g, nodes)
    ensures nodes[m - 1] in g.nodes
    ensures SourceLayer(items, declared, gap, g, nodes, m)
         == SourceEdges(SourceLayer(items, declared, gap, g, nodes, m - 1), declared, gap, g.nodes[nodes[m - 1]],
                        UniqueOutEdges(g, nodes[m - 1]), |UniqueOutEdges(g, nodes[m - 1])|)
  {
  }

  lemma {:induction false} SourceLayerRoutes(items: seq<EdgePointsItem>, declared: seq<FlowDiagramFlow>, gap: Gap,
                                             g: Graph, nodes: seq<string>, m: nat, t: nat)
    requires t < m <= |nodes| && InGraph(g, nodes)
    ensures ExitsRouted(SourceLayer(items, declared, gap, g, nodes, m), declared, g, nodes[t])
    decreases m, 1
  {
    if t == m - 1 {
      SourceLayerRoutesLast(items, declared, gap, g, nodes, m);
    } else {
      SourceLayerRoutesKeeps(items, declared, gap, g, nodes, m, t);
    }
  }

  lemma SourceLayerRoutesKeeps(items: seq<EdgePointsItem>, declared: seq<FlowDiagramFlow>, gap: Gap,
                               g: Graph, nodes: seq<string>, m: nat, t: nat)
    requires t < m - 1 && m <= |nodes| && InGraph(g, nodes)
    ensures ExitsRouted(SourceLayer(items, declared, gap, g, nodes, m), declared, g, nodes[t])
    decreases m, 0
  {
    SourceLayerRoutes(items, declared, gap, g, nodes, m - 1, t);
    SourceLayerStep(items, declared, gap, g, nodes, m);
    ExitsRoutedGrows(SourceLayer(items, declared, gap, g, nodes, m - 1), SourceLayer(items, declared, gap, g, nodes, m), declared, g, nodes[t]);
  }

  lemma SourceLayerRoutesLast(items: seq<EdgePointsItem>, declared: seq<FlowDiagramFlow>, gap: Gap,
                              g: Graph, nodes: seq<string>, m: nat)
    requires 0 < m <= |nodes| && InGraph(g, nodes)
    ensures ExitsRouted(SourceLayer(items, declared, gap, g, nodes, m), declared, g, nodes[m - 1])
  {
    SourceLayerUnfold(items, declared, gap, g, nodes, m);
    NodeExitsRouted(SourceLayer(items, declared, gap, g, nodes, m - 1), declared, gap, g, nodes[m - 1]);
  }

  lemma TargetLayerStep(items: seq<EdgePointsItem>, declared: seq<FlowDiagramFlow>, gap: Gap,
                        g: Graph, nodes: seq<string>, m: nat)
    requires 0 < m <= |nodes| && InGraph(g, nodes)
    ensures Grows(TargetLayer(items, declared, gap, g, nodes, m - 1), TargetLayer(items, declared, gap, g, nodes, m))
  {
    var edges := UniqueInEdges(g, nodes[m - 1]);
    TargetEdgesGrows(TargetLayer(items, declared, gap, g, nodes, m - 1), declared, gap, g.nodes[nodes[m - 1]], edges, |edges|);
  }

  lemma TargetLayerUnfold(items: seq<EdgePointsItem>, declared: seq<FlowDiagramFlow>, gap: Gap,
                          g: Graph, nodes: seq<string>, m: nat)
    requires 0 < m <= |nodes| && InGraph(g, nodes)
    ensures nodes[m - 1] in g.nodes
    ensures TargetLayer(items, declared, gap, g, nodes, m)
         == TargetEdges(TargetLayer(items, declared, gap, g, nodes, m - 1), declared, gap, g.nodes[nodes[m - 1]],
                        UniqueInEdges(g, nodes[m - 1]), |UniqueInEdges(g, nodes[m - 1])|)
  {
  }

  lemma {:induction false} TargetLayerRoutes(items: seq<EdgePointsItem>, declared: seq<FlowDiagramFlow>, gap: Gap,
                                             g: Graph, nodes: seq<string>, m: nat, t: nat)
    requires t < m <= |nodes| && InGraph(g, nodes)
    ensures EntriesRouted(TargetLayer(items, declared, gap, g, nodes, m), declared, g, nodes[t])
    decreases m, 1
  {
    if t == m - 1 {
      TargetLayerRoutesLast(items, declared, gap, g, nodes, m);
    } else {
      TargetLayerRoutesKeeps(items, declared, gap, g, nodes, m, t);
    }
  }

  lemma TargetLayerRoutesKeeps(items: seq<EdgePointsItem>, declared: seq<FlowDiagramFlow>, gap: Gap,
                               g: Graph, nodes: seq<string>, m: nat, t: nat)
    requires t < m - 1 && m <= |nodes| && InGraph(g, nodes)
    ensures EntriesRouted(TargetLayer(items, declared, gap, g, nodes, m), declared, g, nodes[t])
    decreases m, 0
  {
    TargetLayerRoutes(items, declared, gap, g, nodes, m - 1, t);
    TargetLayerStep(items, declared, gap, g, nodes, m);
    EntriesRoutedGrows(TargetLayer(items, declared, gap, g, nodes, m - 1), TargetLayer(items, declared, gap, g, nodes, m), declared, g, nodes[t]);
  }

  lemma TargetLayerRoutesLast(items: seq<EdgePointsItem>, declared: seq<FlowDiagramFlow>, gap: Gap,
                              g: Graph, nodes: seq<string>, m: nat)
    requires 0 < m <= |nodes| && InGraph(g, nodes)
    ensures EntriesRouted(TargetLayer(items, declared, gap, g, nodes, m), declared, g, nodes[m - 1])
  {
    TargetLayerUnfold(items, declared, gap, g, nodes, m);
    NodeEntriesRouted(TargetLayer(items, declared, gap, g, nodes, m - 1), declared, gap, g, nodes[m - 1]);
  }

  /** In an indexed rank list rank r is found at index r. */
  lemma FindIndexed(rm: seq<RankNodeItem>, r: nat)
    requires Indexed(rm) && r < |rm|
    ensures FindRank(rm, r) == r
  {
    var j := FindRank(rm, r);
    FindRankFirst(rm, r);
    assert rm[r].rank == r;
    if j >= 0 {
      assert rm[j].rank == j;
    }
  }

  /** A pass over a gap routes the exits of its rank. */
  lemma GapExitsRoute(items: seq<EdgePointsItem>, result: seq<EdgePointsItem>, g: Graph, declared: seq<FlowDiagramFlow>,
                      rm: seq<RankNodeItem>, rank: nat, t: nat)
    requires RanksOk(g, rm) && Indexed(rm) && WellFormed(items) && rank < |rm| && t < |rm[rank].nodes|
    requires result == GapItems(items, g, declared, rm, rank)
    ensures ExitsRouted(result, declared, g, rm[rank].nodes[t])
  {
    FindIndexed(rm, rank);
    var nodes := rm[rank].nodes;
    var j := FindRank(rm, rank + 1);
    var gap := GapOf(g, rank, nodes, NextX(g, rm, j));
    var s1 := SourceLayer(items, declared, gap, g, nodes, |nodes|);
    SourceLayerWellFormed(items, declared, gap, g, nodes);
    var s2 := JoinFlows(s1, rank, gap.flows, |gap.flows|);
    JoinFlowsGrows(s1, rank, gap.flows, |gap.flows|);
    var s3 := TargetPart(s2, declared, gap, g, rm, j);
    TargetPartWellFormed(s2, declared, gap, g, rm, j);
    TargetPartGrows(s2, declared, gap, g, rm, j);
    var s4 := SplitFlows(s3, rank, gap.flows, |gap.flows|);
    SplitFlowsGrows(s3, rank, gap.flows, |gap.flows|);
    assert s4 == GapItems(items, g, declared, rm, rank);
    SourceLayerRoutes(items, declared, gap, g, nodes, |nodes|, t);
    GrowsTransitive(s1, s2, s3);
    GrowsTransitive(s1, s3, s4);
    ExitsRoutedGrows(s1, s4, declared, g, nodes[t]);
  }

  /** A pass over a gap routes the entries of the next rank. */
  lemma GapEntriesRoute(items: seq<EdgePointsItem>, result: seq<EdgePointsItem>, g: Graph, declared: seq<FlowDiagramFlow>,
                        rm: seq<RankNodeItem>, rank: nat, succ: nat, u: nat)
    requires RanksOk(g, rm) && Indexed(rm) && WellFormed(items) && succ == rank + 1 && succ < |rm| && u < |rm[succ].nodes|
    requires result == GapItems(items, g, declared, rm, rank)
    ensures EntriesRouted(result, declared, g, rm[succ].nodes[u])
  {
    FindIndexed(rm, rank);
    FindIndexed(rm, succ);
    var nodes := rm[rank].nodes;
    var next := rm[succ].nodes;
    var gap := GapOf(g, rank, nodes, NextX(g, rm, succ));
    var s1 := SourceLayer(items, declared, gap, g, nodes, |nodes|);
    SourceLayerWellFormed(items, declared, gap, g, nodes);
    var s2 := JoinFlows(s1, rank, gap.flows, |gap.flows|);
    var s3 := TargetLayer(s2, declared, gap, g, next, |next|);
    assert s3 == TargetPart(s2, declared, gap, g, rm, succ);
    TargetPartWellFormed(s2, declared, gap, g, rm, succ);
    var s4 := SplitFlows(s3, rank, gap.flows, |gap.flows|);
    SplitFlowsGrows(s3, rank, gap.flows, |gap.flows|);
    assert s4 == GapItems(items, g, declared, rm, rank);
    TargetLayerRoutes(s2, declared, gap, g, next, |next|, u);
    EntriesRoutedGrows(s3, s4, declared, g, next[u]);
  }

  lemma EdgePointsUpToStep(g: Graph, declared: seq<FlowDiagramFlow>, rm: seq<RankNodeItem>, n: nat)
    requires RanksOk(g, rm) && 0 < n
    ensures Grows(EdgePointsUpTo(g, declared, rm, n - 1), EdgePointsUpTo(g, declared, rm, n))
  {
    GapItemsGrows(EdgePointsUpTo(g, declared, rm, n - 1), g, declared, rm, n - 1);
  }

  lemma EdgePointsUpToUnfold(g: Graph, declared: seq<FlowDiagramFlow>, rm: seq<RankNodeItem>, n: nat)
    requires RanksOk(g, rm) && 0 < n
    ensures EdgePointsUpTo(g, declared, rm, n) == GapItems(EdgePointsUpTo(g, declared, rm, n - 1), g, declared, rm, n - 1)
  {
  }

  /** After n passes the exits of ranks 0..n-1 and the entries of ranks
      1..n are routed. */
  lemma {:induction false} ExitsRoutedUpTo(g: Graph, declared: seq<FlowDiagramFlow>, rm: seq<RankNodeItem>, n: nat, r: nat, t: nat)
    requires RanksOk(g, rm) && Indexed(rm) && r < n < |rm| && t < |rm[r].nodes|
    ensures ExitsRouted(EdgePointsUpTo(g, declared, rm, n), declared, g, rm[r].nodes[t])
    decreases n, 1
  {
    if r == n - 1 {
      ExitsRoutedLast(g, declared, rm, n, t);
    } else {
      ExitsRoutedKeeps(g, declared, rm, n, r, t);
    }
  }

  lemma ExitsRoutedKeeps(g: Graph, declared: seq<FlowDiagramFlow>, rm: seq<RankNodeItem>, n: nat, r: nat, t: nat)
    requires RanksOk(g, rm) && Indexed(rm) && r < n - 1 && n < |rm| && t < |rm[r].nodes|
    ensures ExitsRouted(EdgePointsUpTo(g, declared, rm, n), declared, g, rm[r].nodes[t])
    decreases n, 0
  {
    ExitsRoutedUpTo(g, declared, rm, n - 1, r, t);
    EdgePointsUpToStep(g, declared, rm, n);
    ExitsRoutedGrows(EdgePointsUpTo(g, declared, rm, n - 1), EdgePointsUpTo(g, declared, rm, n), declared, g, rm[r].nodes[t]);
  }

  lemma ExitsRoutedLast(g: Graph, declared: seq<FlowDiagramFlow>, rm: seq<RankNodeItem>, n: nat, t: nat)
    requires RanksOk(g, rm) && Indexed(rm) && 0 < n < |rm| && t < |rm[n - 1].nodes|
    ensures ExitsRouted(EdgePointsUpTo(g, declared, rm, n), declared, g, rm[n - 1].nodes[t])
  {
    var prev := EdgePointsUpTo(g, declared, rm, n - 1);
    EdgePointsUpToUnfold(g, declared, rm, n);
    GapExitsRoute(prev, EdgePointsUpTo(g, declared, rm, n), g, declared, rm, n - 1, t);
  }

  lemma {:induction false} EntriesRoutedUpTo(g: Graph, declared: seq<FlowDiagramFlow>, rm: seq<RankNodeItem>, n: nat, r: nat, t: nat)
    requires RanksOk(g, rm) && Indexed(rm) && 1 <= r <= n < |rm| && t < |rm[r].nodes|
    ensures EntriesRouted(EdgePointsUpTo(g, declared, rm, n), declared, g, rm[r].nodes[t])
    decreases n, 1
  {
    if r == n {
      EntriesRoutedLast(g, declared, rm, n, t);
    } else {
      EntriesRoutedKeeps(g, declared, rm, n, r, t);
    }
  }

  lemma EntriesRoutedKeeps(g: Graph, declared: seq<FlowDiagramFlow>, rm: seq<RankNodeItem>, n: nat, r: nat, t: nat)
    requires RanksOk(g, rm) && Indexed(rm) && 1 <= r < n < |rm| && t < |rm[r].nodes|
    ensures EntriesRouted(EdgePointsUpTo(g, declared, rm, n), declared, g, rm[r].nodes[t])
    decreases n, 0
  {
    EntriesRoutedUpTo(g, declared, rm, n - 1, r, t);
    EdgePointsUpToStep(g, declared, rm, n);
    EntriesRoutedGrows(EdgePointsUpTo(g, declared, rm, n - 1), EdgePointsUpTo(g, declared, rm, n), declared, g, rm[r].nodes[t]);
  }

  lemma EntriesRoutedLast(g: Graph, declared: seq<FlowDiagramFlow>, rm: seq<RankNodeItem>, n: nat, t: nat)
    requires RanksOk(g, rm) && Indexed(rm) && 1 <= n < |rm| && t < |rm[n].nodes|
    ensures EntriesRouted(EdgePointsUpTo(g, declared, rm, n), declared, g, rm[n].nodes[t])
  {
    var prev := EdgePointsUpTo(g, declared, rm, n - 1);
    EdgePointsUpToUnfold(g, declared, rm, n);
    GapEntriesRoute(prev, EdgePointsUpTo(g, declared, rm, n), g, declared, rm, n - 1, n, t);
  }

  /** Every unique-flow out-edge of a declared flow leaving a node outside
      the last rank has a Source piece through its exit point, and every one
      entering a node outside the first rank a Target piece through its
      entry point. */
  lemma AllEdgesRouted(g: Graph, declared: seq<FlowDiagramFlow>, rm: seq<RankNodeItem>)
    requires RanksOk(g, rm) && Indexed(rm)
    ensures forall r, t :: 0 <= r < |rm| - 1 && 0 <= t < |rm[r].nodes| ==>
      ExitsRouted(AllEdgePoints(g, declared, rm), declared, g, rm[r].nodes[t])
    ensures forall r, t :: 1 <= r < |rm| && 0 <= t < |rm[r].nodes| ==>
      EntriesRouted(AllEdgePoints(g, declared, rm), declared, g, rm[r].nodes[t])
  {
    forall r, t | 0 <= r < |rm| - 1 && 0 <= t < |rm[r].nodes|
      ensures ExitsRouted(AllEdgePoints(g, declared, rm), declared, g, rm[r].nodes[t])
    {
      ExitsRoutedUpTo(g, declared, rm, |rm| - 1, r, t);
    }
    forall r, t | 1 <= r < |rm| && 0 <= t < |rm[r].nodes|
      ensures EntriesRouted(AllEdgePoints(g, declared, rm), declared, g, rm[r].nodes[t])
    {
      EntriesRoutedUpTo(g, declared, rm, |rm| - 1, r, t);
    }
  }
}
