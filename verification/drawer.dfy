/** The drawer object: it lays a flow diagram out once, on the first request
    for its diagram, and keeps the scene items, the scene size, the ranks and
    the routed pieces in its fields. The layered layout library's result is
    the constructor parameter `layout`. */
module Drawer {
  import opened DiagramTypes
  import opened LayoutGraph
  import opened RankMap
  import opened EdgeRouting
  import opened EdgePoints
  import opened Scene

  datatype FlowNodeEdgeIndices = FlowNodeEdgeIndices(id: string, edgeIndices: seq<nat>)

  /** What `diagram()` hands out. */
  datatype DrawnDiagram = DrawnDiagram(sceneItems: seq<SceneItem>, sceneSize: Size, flowNodeEdgeMap: seq<FlowNodeEdgeIndices>)

  lemma NodeIdsInGraph(g: Graph)
    requires g.Valid()
    ensures InGraph(g, g.nodeIds)
  {
    forall i | 0 <= i < |g.nodeIds| ensures g.nodeIds[i] in g.nodes {
      assert g.nodeIds[i] in g.nodeIds;
    }
  }

  /** The node items of a laid-out graph, in the library's node order. */
  function GraphNodeItems(fd: FlowDiagram, g: Graph): seq<SceneItem>
    requires g.Valid()
  {
    NodeIdsInGraph(g);
    NodeItems(g, fd.nodes, g.nodeIds)
  }

  /** The routed pieces of a laid-out graph. */
  function Pieces(fd: FlowDiagram, g: Graph): (r: seq<EdgePointsItem>)
    requires g.Valid()
    ensures WellFormed(r)
  {
    RankNodeMapFits(g);
    AllEdgePoints(g, fd.flows, RankNodeMap(g))
  }

  /** The scene of a laid-out graph whose routed pieces are `pieces`: node
      items, then one definition item per flow, then the edge items. */
  function SceneOf(fd: FlowDiagram, config: DiagramConfig, g: Graph, pieces: seq<EdgePointsItem>): seq<SceneItem>
    requires g.Valid() && WellFormed(pieces)
  {
    GraphNodeItems(fd, g) + DefsItems(fd.flows, SceneSizeOf(g), config) + EdgeItems(pieces, fd.flows, config)
  }

  /** Without graph nodes there are no ranks and no pieces. */
  lemma NoNodesNoRanks(fd: FlowDiagram, g: Graph)
    requires g.Valid() && g.nodeIds == []
    ensures RankNodeMap(g) == [] && Pieces(fd, g) == []
  {
    assert SortedNodes(g) == [];
  }

  /** Every routed piece belongs to a declared flow. */
  lemma PiecesKnown(fd: FlowDiagram, g: Graph)
    requires g.Valid()
    ensures KnownFlows(Pieces(fd, g), fd.flows) && UniqueKeys(Pieces(fd, g))
  {
    RankNodeMapFits(g);
    AllEdgePointsKeys(g, fd.flows, RankNodeMap(g));
  }

  /** The scene begins with one item per graph node, in the library's
      order. */
  lemma SceneNodesFirst(fd: FlowDiagram, config: DiagramConfig, g: Graph, pieces: seq<EdgePointsItem>)
    requires g.Valid() && WellFormed(pieces)
    ensures var s := SceneOf(fd, config, g, pieces);
      && |s| >= |g.nodeIds|
      && forall i :: 0 <= i < |g.nodeIds| ==> s[i].kind == Node && s[i].id == g.nodeIds[i]
  {
    var s, nodeItems := SceneOf(fd, config, g, pieces), GraphNodeItems(fd, g);
    NodeIdsInGraph(g);
    NodeItemsSpec(g, fd.nodes, g.nodeIds);
    forall i | 0 <= i < |g.nodeIds| ensures s[i].kind == Node && s[i].id == g.nodeIds[i] {
      assert s[i] == nodeItems[i];
    }
  }

  /** The definition items of the flows follow, one per flow, in order. */
  lemma SceneDefsNext(fd: FlowDiagram, config: DiagramConfig, g: Graph, pieces: seq<EdgePointsItem>)
    requires g.Valid() && WellFormed(pieces)
    ensures var s, n := SceneOf(fd, config, g, pieces), |g.nodeIds|;
      && |s| >= n + |fd.flows|
      && forall k :: n <= k < n + |fd.flows| ==> s[k].kind == Definition && s[k].id == fd.flows[k - n].id + "-defs"
  {
    var s, n := SceneOf(fd, config, g, pieces), |g.nodeIds|;
    assert s == GraphNodeItems(fd, g) + DefsItems(fd.flows, SceneSizeOf(g), config) + EdgeItems(pieces, fd.flows, config);
    assert |GraphNodeItems(fd, g)| == n;
    forall k | n <= k < n + |fd.flows| ensures s[k].kind == Definition && s[k].id == fd.flows[k - n].id + "-defs" {
      SceneDefAt(fd, config, g, pieces, k - n);
    }
  }

  /** Flow i's definition item sits right after the node items. */
  lemma SceneDefAt(fd: FlowDiagram, config: DiagramConfig, g: Graph, pieces: seq<EdgePointsItem>, i: nat)
    requires g.Valid() && WellFormed(pieces) && i < |fd.flows|
    ensures |SceneOf(fd, config, g, pieces)| >= |g.nodeIds| + |fd.flows|
    ensures SceneOf(fd, config, g, pieces)[|g.nodeIds| + i].kind == Definition
    ensures SceneOf(fd, config, g, pieces)[|g.nodeIds| + i].id == fd.flows[i].id + "-defs"
  {
    var s, nodeItems, defs := SceneOf(fd, config, g, pieces), GraphNodeItems(fd, g), DefsItems(fd.flows, SceneSizeOf(g), config);
    DefsItemsSpec(fd.flows, SceneSizeOf(g), config);
    var n := |g.nodeIds|;
    assert s == nodeItems + defs + EdgeItems(pieces, fd.flows, config) && |nodeItems| == n;
    assert s[n + i] == defs[i];
  }

  /** When every piece belongs to a declared flow, the scene ends with
      exactly one item per piece, in the order of the pieces. */
  lemma SceneEdgesLast(fd: FlowDiagram, config: DiagramConfig, g: Graph, pieces: seq<EdgePointsItem>)
    requires g.Valid() && WellFormed(pieces) && KnownFlows(pieces, fd.flows)
    ensures |SceneOf(fd, config, g, pieces)| == |g.nodeIds| + |fd.flows| + |pieces|
    ensures forall i :: 0 <= i < |pieces| ==>
      EdgeItem(pieces[i], fd.flows, config) == Some(SceneOf(fd, config, g, pieces)[|g.nodeIds| + |fd.flows| + i])
  {
    EdgeItemsAllDrawn(pieces, fd.flows, config);
    assert SceneOf(fd, config, g, pieces) == GraphNodeItems(fd, g) + DefsItems(fd.flows, SceneSizeOf(g), config) + EdgeItems(pieces, fd.flows, config);
    forall i | 0 <= i < |pieces|
      ensures EdgeItem(pieces[i], fd.flows, config) == Some(SceneOf(fd, config, g, pieces)[|g.nodeIds| + |fd.flows| + i])
    {
      SceneEdgeAt(fd, config, g, pieces, i);
    }
  }

  /** Piece i is drawn at its place after the node and definition items. */
  lemma SceneEdgeAt(fd: FlowDiagram, config: DiagramConfig, g: Graph, pieces: seq<EdgePointsItem>, i: nat)
    requires g.Valid() && WellFormed(pieces) && KnownFlows(pieces, fd.flows) && i < |pieces|
    ensures |SceneOf(fd, config, g, pieces)| == |g.nodeIds| + |fd.flows| + |pieces|
    ensures EdgeItem(pieces[i], fd.flows, config) == Some(SceneOf(fd, config, g, pieces)[|g.nodeIds| + |fd.flows| + i])
  {
    EdgeItemsAllDrawn(pieces, fd.flows, config);
    SceneEdgeSlot(fd, config, g, pieces, i);
  }

  /** The edge items sit after the node and definition items. */
  lemma SceneEdgeSlot(fd: FlowDiagram, config: DiagramConfig, g: Graph, pieces: seq<EdgePointsItem>, i: nat)
    requires g.Valid() && WellFormed(pieces) && i < |EdgeItems(pieces, fd.flows, config)|
    ensures |SceneOf(fd, config, g, pieces)| == |g.nodeIds| + |fd.flows| + |EdgeItems(pieces, fd.flows, config)|
    ensures SceneOf(fd, config, g, pieces)[|g.nodeIds| + |fd.flows| + i] == EdgeItems(pieces, fd.flows, config)[i]
  {
    var front, edges := GraphNodeItems(fd, g) + DefsItems(fd.flows, SceneSizeOf(g), config), EdgeItems(pieces, fd.flows, config);
    var s, n := SceneOf(fd, config, g, pieces), |g.nodeIds| + |fd.flows|;
    assert s == front + edges && |front| == n;
    assert s[n + i] == edges[i];
  }

  /** The scene is empty exactly when the graph has no nodes, the diagram no
      flows and there are no pieces. */
  lemma SceneEmpty(fd: FlowDiagram, config: DiagramConfig, g: Graph, pieces: seq<EdgePointsItem>)
    requires g.Valid() && WellFormed(pieces) && KnownFlows(pieces, fd.flows)
    ensures SceneOf(fd, config, g, pieces) == [] <==> g.nodeIds == [] && fd.flows == [] && pieces == []
  {
    SceneNodesFirst(fd, config, g, pieces);
    SceneDefsNext(fd, config, g, pieces);
    SceneEdgesLast(fd, config, g, pieces);
  }

  /** Every arrow head an edge item asks for is defined by a definition
      item of the same scene. */
  lemma MarkersResolve(fd: FlowDiagram, config: DiagramConfig, g: Graph, pieces: seq<EdgePointsItem>)
    requires g.Valid() && WellFormed(pieces)
    ensures var s := SceneOf(fd, config, g, pieces);
      forall k :: 0 <= k < |s| && s[k].content.Polyline? && s[k].content.markerEnd.Some? ==>
        exists d :: 0 <= d < |s| && s[d].kind == Definition && s[d].content.ArrowMarkers?
                    && s[k].content.markerEnd.value == MarkerRef(s[d].content.markerId)
  {
    NodeIdsInGraph(g);
    NodeItemsSpec(g, fd.nodes, g.nodeIds);
    DefsItemsSpec(fd.flows, SceneSizeOf(g), config);
    var defs, edges := DefsItems(fd.flows, SceneSizeOf(g), config), EdgeItems(pieces, fd.flows, config);
    EdgeMarkersDefined(pieces, fd.flows, config, SceneSizeOf(g));
    MarkersInParts(GraphNodeItems(fd, g), defs, edges);
  }

  /** Every arrow head an item of `items` asks for is a marker of `defs`. */
  ghost predicate MarkersDefinedBy(items: seq<SceneItem>, defs: seq<SceneItem>) {
    forall k :: 0 <= k < |items| && items[k].content.Polyline? && items[k].content.markerEnd.Some? ==>
      exists d :: 0 <= d < |defs| && defs[d].content.ArrowMarkers?
                  && items[k].content.markerEnd.value == MarkerRef(defs[d].content.markerId)
  }

  /** The marker an edge item asks for is the one its flow's definition item
      declares. */
  lemma EdgeMarkersDefined(pieces: seq<EdgePointsItem>, flows: seq<FlowDiagramFlow>, config: DiagramConfig, canvas: Size)
    requires WellFormed(pieces)
    ensures MarkersDefinedBy(EdgeItems(pieces, flows, config), DefsItems(flows, canvas, config))
  {
    var edges, defs := EdgeItems(pieces, flows, config), DefsItems(flows, canvas, config);
    EdgeItemsFromPieces(pieces, flows, config);
    DefsItemsSpec(flows, canvas, config);
    forall k | 0 <= k < |edges| && edges[k].content.Polyline? && edges[k].content.markerEnd.Some?
      ensures exists d :: 0 <= d < |defs| && defs[d].content.ArrowMarkers?
                          && edges[k].content.markerEnd.value == MarkerRef(defs[d].content.markerId)
    {
      var i :| 0 <= i < |pieces| && EdgeItem(pieces[i], flows, config) == Some(edges[k]);
      EdgeItemDrawn(pieces[i], flows, config);
      DeclaredMeans(flows, pieces[i].flow);
      var f :| 0 <= f < |flows| && flows[f].id == pieces[i].flow;
      assert defs[f].content.markerId == MarkerId(pieces[i].flow);
    }
  }

  lemma MarkersInParts(nodeItems: seq<SceneItem>, defs: seq<SceneItem>, edges: seq<SceneItem>)
    requires forall i :: 0 <= i < |nodeItems| ==> nodeItems[i].content.NodeBody?
    requires forall i :: 0 <= i < |defs| ==> defs[i].kind == Definition && defs[i].content.ArrowMarkers?
    requires MarkersDefinedBy(edges, defs)
    ensures var s := nodeItems + defs + edges;
      forall k :: 0 <= k < |s| && s[k].content.Polyline? && s[k].content.markerEnd.Some? ==>
        exists d :: 0 <= d < |s| && s[d].kind == Definition && s[d].content.ArrowMarkers?
                    && s[k].content.markerEnd.value == MarkerRef(s[d].content.markerId)
  {
    var s := nodeItems + defs + edges;
    var n, m := |nodeItems|, |defs|;
    forall k | 0 <= k < |s| && s[k].content.Polyline? && s[k].content.markerEnd.Some?
      ensures exists d :: 0 <= d < |s| && s[d].kind == Definition && s[d].content.ArrowMarkers?
                          && s[k].content.markerEnd.value == MarkerRef(s[d].content.markerId)
    {
      if k >= n + m {
        assert s[k] == edges[k - n - m];
        var d :| 0 <= d < m && defs[d].content.ArrowMarkers?
                 && edges[k - n - m].content.markerEnd.value == MarkerRef(defs[d].content.markerId);
        assert s[n + d] == defs[d];
        assert 0 <= n + d < |s| && s[n + d].kind == Definition && s[n + d].content.ArrowMarkers?
               && s[k].content.markerEnd.value == MarkerRef(s[n + d].content.markerId);
      }
    }
  }

  class DiagramDrawer {
    const flowDiagram: FlowDiagram
    const config: DiagramConfig
    const layout: Graph
    var sceneItems: seq<SceneItem>
    var sceneSize: Size
    var rankNodeMap: seq<RankNodeItem>
    var numRanks: nat
    var edgePoints: seq<EdgePointsItem>
    var flowNodeEdgeIndicesMap: seq<FlowNodeEdgeIndices>

    /** Before the first build everything is empty; after it the fields hold
        the scene, ranks and pieces of the layout. A build that yields no
        items leaves no ranks and no pieces either. */
    ghost predicate Valid()
      reads this
    {
      && layout.Valid()
      && flowNodeEdgeIndicesMap == []
      && numRanks == |rankNodeMap|
      && (sceneItems == [] ==> rankNodeMap == [] && edgePoints == [])
      && (sceneItems != [] ==>
            && edgePoints == Pieces(flowDiagram, layout)
            && sceneItems == SceneOf(flowDiagram, config, layout, edgePoints)
            && sceneSize == SceneSizeOf(layout)
            && rankNodeMap == RankNodeMap(layout))
    }

    constructor(flowDiagram: FlowDiagram, config: DiagramConfig, layout: Graph)
      requires layout.Valid()
      ensures Valid()
      ensures this.flowDiagram == flowDiagram && this.config == config && this.layout == layout
      ensures sceneItems == [] && sceneSize == Size(0.0, 0.0) && rankNodeMap == [] && numRanks == 0
      ensures edgePoints == [] && flowNodeEdgeIndicesMap == []
    {
      this.flowDiagram := flowDiagram;
      this.config := config;
      this.layout := layout;
      sceneItems := [];
      sceneSize := Size(0.0, 0.0);
      rankNodeMap := [];
      numRanks := 0;
      edgePoints := [];
      flowNodeEdgeIndicesMap := [];
    }

    method MakeSceneSize()
      modifies this
      ensures sceneSize == SceneSizeOf(layout)
      ensures sceneItems == old(sceneItems) && rankNodeMap == old(rankNodeMap) && numRanks == old(numRanks)
      ensures edgePoints == old(edgePoints) && flowNodeEdgeIndicesMap == old(flowNodeEdgeIndicesMap)
    {
      sceneSize := Size(if layout.width.Some? && layout.width.value != 0.0 then layout.width.value else 0.0,
                        if layout.height.Some? && layout.height.value != 0.0 then layout.height.value else 0.0);
    }

    /** Appends one item per graph node, in the library's node order. */
    method MakeNodes()
      requires layout.Valid()
      modifies this
      ensures sceneItems == old(sceneItems) + GraphNodeItems(flowDiagram, layout)
      ensures sceneSize == old(sceneSize) && rankNodeMap == old(rankNodeMap) && numRanks == old(numRanks)
      ensures edgePoints == old(edgePoints) && flowNodeEdgeIndicesMap == old(flowNodeEdgeIndicesMap)
    {
      NodeIdsInGraph(layout);
      var ids := layout.nodeIds;
      for i := 0 to |ids|
        invariant sceneItems == old(sceneItems) + NodeItems(layout, flowDiagram.nodes, ids[..i])
        invariant sceneSize == old(sceneSize) && rankNodeMap == old(rankNodeMap) && numRanks == old(numRanks)
        invariant edgePoints == old(edgePoints) && flowNodeEdgeIndicesMap == old(flowNodeEdgeIndicesMap)
      {
        var v := ids[i];
        var item := SceneItem(v, v, Node, NodeSize(flowDiagram.nodes, v),
                              Point(layout.nodes[v].x, layout.nodes[v].y), 8, true, true, NodeBody(v));
        sceneItems := sceneItems + [item];
        assert ids[..i + 1][..i] == ids[..i];
      }
      assert ids[..|ids|] == ids;
    }

    /** Appends one marker-definition item per flow, sized to the scene. */
    method MakeFlows()
      modifies this
      ensures sceneItems == old(sceneItems) + DefsItems(flowDiagram.flows, sceneSize, config)
      ensures sceneSize == old(sceneSize) && rankNodeMap == old(rankNodeMap) && numRanks == old(numRanks)
      ensures edgePoints == old(edgePoints) && flowNodeEdgeIndicesMap == old(flowNodeEdgeIndicesMap)
    {
      var flows := flowDiagram.flows;
      for i := 0 to |flows|
        invariant sceneItems == old(sceneItems) + DefsItems(flows[..i], sceneSize, config)
        invariant sceneSize == old(sceneSize) && rankNodeMap == old(rankNodeMap) && numRanks == old(numRanks)
        invariant edgePoints == old(edgePoints) && flowNodeEdgeIndicesMap == old(flowNodeEdgeIndicesMap)
      {
        var flow := flows[i];
        var headSize := if flow.style.arrowHeadSize.Some? && flow.style.arrowHeadSize.value != 0.0
                        then flow.style.arrowHeadSize.value else 9.0;
        var id := flow.id + "-defs";
        var item := SceneItem(id, id, Definition, sceneSize, Point(0.0, 0.0), 0, false, false,
                              ArrowMarkers("arrow-" + flow.id, "arrow-" + flow.id + "-hover", headSize,
                                           flow.style.strokeColor, config.highlightColor));
        sceneItems := sceneItems + [item];
        assert flows[..i + 1][..i] == flows[..i];
      }
      assert flows[..|flows|] == flows;
    }

    /** Buckets the graph's nodes, sorted by x, into ranks: a node joins the
        rank already opened at its x or opens the next rank. */
    method MakeRankNodeMap()
      requires layout.Valid() && rankNodeMap == [] && numRanks == 0
      modifies this
      ensures rankNodeMap == RankNodeMap(layout) && numRanks == |rankNodeMap|
      ensures sceneItems == old(sceneItems) && sceneSize == old(sceneSize)
      ensures edgePoints == old(edgePoints) && flowNodeEdgeIndicesMap == old(flowNodeEdgeIndicesMap)
    {
      SortedNodesInGraph(layout);
      var sorted := SortedNodes(layout);
      var positionRankMap: seq<PositionRank> := [];
      var rank: nat := 0;
      for i := 0 to |sorted|
        invariant Ranking(positionRankMap, rankNodeMap) == Bucketize(layout, sorted[..i])
        invariant rank == |rankNodeMap| && numRanks == rank
        invariant sceneItems == old(sceneItems) && sceneSize == old(sceneSize)
        invariant edgePoints == old(edgePoints) && flowNodeEdgeIndicesMap == old(flowNodeEdgeIndicesMap)
      {
        var node := sorted[i];
        var x := layout.nodes[node].x;
        BucketizeStep(layout, sorted, i);
        var j := FindPosition(positionRankMap, x);
        if j < 0 {
          positionRankMap := positionRankMap + [PositionRank(x, rank)];
          rankNodeMap := rankNodeMap + [RankNodeItem(rank, [node])];
          numRanks := rank + 1;
          rank := rank + 1;
        } else {
          var k := FindRank(rankNodeMap, positionRankMap[j].rank);
          if k >= 0 {
            rankNodeMap := rankNodeMap[k := rankNodeMap[k].(nodes := rankNodeMap[k].nodes + [node])];
          }
        }
      }
      assert sorted[..|sorted|] == sorted;
    }

    /** Computes the ranks, then routes the pieces gap by gap, one pass for
        each of the first `numRanks - 1` ranks. */
    method MakeEdgePoints()
      requires layout.Valid() && rankNodeMap == [] && numRanks == 0 && edgePoints == []
      modifies this
      ensures rankNodeMap == RankNodeMap(layout) && numRanks == |rankNodeMap|
      ensures edgePoints == Pieces(flowDiagram, layout)
      ensures sceneItems == old(sceneItems) && sceneSize == old(sceneSize)
      ensures flowNodeEdgeIndicesMap == old(flowNodeEdgeIndicesMap)
    {
      MakeRankNodeMap();
      RankNodeMapFits(layout);
      var rank := 0;
      while rank < numRanks - 1
        invariant rankNodeMap == RankNodeMap(layout) && numRanks == |rankNodeMap| && RanksOk(layout, rankNodeMap)
        invariant 0 <= rank <= Passes(rankNodeMap)
        invariant edgePoints == EdgePointsUpTo(layout, flowDiagram.flows, rankNodeMap, rank)
        invariant sceneItems == old(sceneItems) && sceneSize == old(sceneSize)
        invariant flowNodeEdgeIndicesMap == old(flowNodeEdgeIndicesMap)
        decreases numRanks - rank
      {
        edgePoints := GapItems(edgePoints, layout, flowDiagram.flows, rankNodeMap, rank);
        rank := rank + 1;
      }
    }

    /** Appends one item per routed piece whose flow is declared. */
    method MakeEdges()
      requires WellFormed(edgePoints)
      modifies this
      ensures edgePoints == old(edgePoints) && flowNodeEdgeIndicesMap == old(flowNodeEdgeIndicesMap)
      ensures sceneItems == old(sceneItems) + EdgeItems(edgePoints, flowDiagram.flows, config)
      ensures sceneSize == old(sceneSize) && rankNodeMap == old(rankNodeMap) && numRanks == old(numRanks)
    {
      var pieces := edgePoints;
      for i := 0 to |pieces|
        invariant sceneItems == old(sceneItems) + EdgeItems(pieces[..i], flowDiagram.flows, config)
        invariant sceneSize == old(sceneSize) && rankNodeMap == old(rankNodeMap) && numRanks == old(numRanks)
        invariant edgePoints == old(edgePoints) && flowNodeEdgeIndicesMap == old(flowNodeEdgeIndicesMap)
      {
        assert pieces[..i + 1][..i] == pieces[..i];
        var item := EdgeItem(pieces[i], flowDiagram.flows, config);
        if item.Some? {
          sceneItems := sceneItems + [item.value];
        }
      }
      assert pieces[..|pieces|] == pieces;
    }

    /** Lays the diagram out from an empty drawer. */
    method MakeDiagram()
      requires Valid() && sceneItems == []
      modifies this
      ensures Valid()
      ensures edgePoints == Pieces(flowDiagram, layout) && rankNodeMap == RankNodeMap(layout)
      ensures sceneItems == SceneOf(flowDiagram, config, layout, edgePoints) && sceneSize == SceneSizeOf(layout)
    {
      MakeSceneSize();
      MakeNodes();
      MakeFlows();
      MakeEdgePoints();
      MakeEdges();
      if sceneItems == [] {
        PiecesKnown(flowDiagram, layout);
        SceneEmpty(flowDiagram, config, layout, edgePoints);
        NoNodesNoRanks(flowDiagram, layout);
      }
    }

    /** The diagram of the layout, built on the first request and handed out
        unchanged afterwards; the flow-to-edge index map is always empty. */
    method Diagram() returns (d: DrawnDiagram)
      requires Valid()
      modifies this
      ensures Valid()
      ensures old(sceneItems) != [] ==> unchanged(this)
      ensures edgePoints == Pieces(flowDiagram, layout)
      ensures d.sceneItems == SceneOf(flowDiagram, config, layout, edgePoints)
      ensures d.sceneSize == SceneSizeOf(layout)
      ensures d.flowNodeEdgeMap == []
      ensures d == DrawnDiagram(sceneItems, sceneSize, flowNodeEdgeIndicesMap)
    {
      if |sceneItems| == 0 {
        MakeDiagram();
      }
      d := DrawnDiagram(sceneItems, sceneSize, flowNodeEdgeIndicesMap);
    }
  }
}
