/** The scene items the drawer emits: one item per laid-out node, one
    marker-definition item per flow and one polyline item per routed edge
    piece. An item's rendered markup is reduced to the data it is built from
    (`Content`); its `size` and `position` (the centre) place it in the scene. */
module Scene {
  import opened DiagramTypes
  import opened LayoutGraph
  import opened Geometry
  import opened EdgeIds
  import opened RankMap
  import opened EdgeRouting

  datatype SceneItemType = Node | Flow | Definition

  datatype Stroke = Stroke(width: real, color: string, style: string)

  datatype Content =
    | NodeBody(nodeId: string)
      /** The arrow-head marker of a flow and its highlighted twin. */
    | ArrowMarkers(markerId: string, hoverMarkerId: string, headSize: real, fill: Option<string>, hoverFill: string)
      /** A polyline in the item's own frame, whose origin is the item's top-left corner. */
    | Polyline(points: seq<Point>, stroke: Stroke, markerEnd: Option<string>)

  datatype SceneItem = SceneItem(
    key: string,
    id: string,
    kind: SceneItemType,
    size: Size,
    position: Point,
    zIndex: int,
    clickable: bool,
    hoverable: bool,
    content: Content)

  // ---------------------------------------------------------------------------
  // JavaScript `||` defaults
  // ---------------------------------------------------------------------------

  /** `n || d` on an optional number: a missing value and 0 are falsy. */
  function OrReal(n: Option<real>, d: real): real {
    if n.Some? && n.value != 0.0 then n.value else d
  }

  /** `s || d` on an optional string: a missing value and "" are falsy. */
  function OrString(s: Option<string>, d: string): string {
    if s.Some? && s.value != "" then s.value else d
  }

  // ---------------------------------------------------------------------------
  // Node items
  // ---------------------------------------------------------------------------

  /** A graph node with no diagram node of its id is a joint, drawn 10 by 10. */
  const JointSize := Size(10.0, 10.0)

  /** A diagram node without a render function is drawn 200 by 100. */
  const DefaultNodeSize := Size(200.0, 100.0)

  function NodeSize(nodes: seq<FlowDiagramNode>, v: string): Size {
    match FindNode(nodes, v)
    case None => JointSize
    case Some(node) => node.render.GetOr(DefaultNodeSize)
  }

  /** A joint gets the joint size; a declared node gets its rendered size, or
      the default size when it has no render function. */
  lemma NodeSizeRules(nodes: seq<FlowDiagramNode>, v: string)
    ensures (forall i :: 0 <= i < |nodes| ==> nodes[i].id != v) ==> NodeSize(nodes, v) == JointSize
    ensures forall i :: 0 <= i < |nodes| && nodes[i].id == v && (forall k :: 0 <= k < i ==> nodes[k].id != v) ==>
              NodeSize(nodes, v) == (if nodes[i].render.Some? then nodes[i].render.value else DefaultNodeSize)
  {
    FindNodeSpec(nodes, v);
    forall i | 0 <= i < |nodes| && nodes[i].id == v && (forall k :: 0 <= k < i ==> nodes[k].id != v)
      ensures NodeSize(nodes, v) == (if nodes[i].render.Some? then nodes[i].render.value else DefaultNodeSize)
    {
      FindNodeFirst(nodes, v, i);
    }
  }

  function NodeItem(g: Graph, nodes: seq<FlowDiagramNode>, v: string): SceneItem
    requires v in g.nodes
  {
    SceneItem(v, v, Node, NodeSize(nodes, v), Point(g.nodes[v].x, g.nodes[v].y), 8, true, true, NodeBody(v))
  }

  /** `makeNodes`: the items of the graph nodes `vs`, in that order. */
  function NodeItems(g: Graph, nodes: seq<FlowDiagramNode>, vs: seq<string>): (r: seq<SceneItem>)
    requires InGraph(g, vs)
    ensures |r| == |vs|
  {
    if vs == [] then []
    else NodeItems(g, nodes, vs[..|vs| - 1]) + [NodeItem(g, nodes, vs[|vs| - 1])]
  }

  /** Item i is node vs[i], centred on its layout position, drawn above
      edges and definitions, clickable and hoverable. */
  lemma {:induction false} NodeItemsSpec(g: Graph, nodes: seq<FlowDiagramNode>, vs: seq<string>)
    requires InGraph(g, vs)
    ensures var r := NodeItems(g, nodes, vs);
      && |r| == |vs|
      && forall i :: 0 <= i < |vs| ==>
           && r[i].id == vs[i] && r[i].kind == Node && r[i].zIndex == 8
           && r[i].position == Point(g.nodes[vs[i]].x, g.nodes[vs[i]].y)
           && r[i].size == NodeSize(nodes, vs[i])
           && r[i].clickable && r[i].hoverable && r[i].content == NodeBody(vs[i])
  {
    if vs != [] {
      NodeItemsSpec(g, nodes, vs[..|vs| - 1]);
    }
  }

  // ---------------------------------------------------------------------------
  // Marker-definition items
  // ---------------------------------------------------------------------------

  function MarkerId(flowId: string): string {
    "arrow-" + flowId
  }

  /** How a polyline's `markerEnd` refers to a marker. */
  function MarkerRef(markerId: string): string {
    "url(#" + markerId + ")"
  }

  /** The item holding a flow's two arrow markers; it spans the whole scene.
      The marker size falls back to 9. */
  function DefsItem(flow: FlowDiagramFlow, canvas: Size, config: DiagramConfig): SceneItem {
    var id := flow.id + "-defs";
    SceneItem(id, id, Definition, canvas, Point(0.0, 0.0), 0, false, false,
              ArrowMarkers(MarkerId(flow.id), MarkerId(flow.id) + "-hover",
                           OrReal(flow.style.arrowHeadSize, 9.0), flow.style.strokeColor, config.highlightColor))
  }

  /** `makeFlows`: one definition item per declared flow, in order. */
  function DefsItems(flows: seq<FlowDiagramFlow>, canvas: Size, config: DiagramConfig): (r: seq<SceneItem>)
    ensures |r| == |flows|
  {
    if flows == [] then []
    else DefsItems(flows[..|flows| - 1], canvas, config) + [DefsItem(flows[|flows| - 1], canvas, config)]
  }

  /** Item i defines the markers of flow i and covers the scene. */
  lemma {:induction false} DefsItemsSpec(flows: seq<FlowDiagramFlow>, canvas: Size, config: DiagramConfig)
    ensures var r := DefsItems(flows, canvas, config);
      && |r| == |flows|
      && forall i :: 0 <= i < |flows| ==>
           && r[i].id == flows[i].id + "-defs" && r[i].kind == Definition
           && r[i].size == canvas && r[i].zIndex == 0 && !r[i].clickable
           && r[i].content.ArrowMarkers? && r[i].content.markerId == MarkerId(flows[i].id)
  {
    if flows != [] {
      DefsItemsSpec(flows[..|flows| - 1], canvas, config);
    }
  }

  // ---------------------------------------------------------------------------
  // Edge items
  // ---------------------------------------------------------------------------

  function Abs(x: real): real {
    if x < 0.0 then -x else x
  }

  /** The points moved into a frame whose origin is (left, top). */
  function Shift(points: seq<Point>, left: real, top: real): (r: seq<Point>)
    ensures |r| == |points|
  {
    seq(|points|, i requires 0 <= i < |points| => Point(points[i].x - left, points[i].y - top))
  }

  /** The margin kept around a piece for its arrow head. */
  function ArrowWidth(flow: FlowDiagramFlow, config: DiagramConfig): real {
    OrReal(flow.style.arrowHeadSize, config.defaultEdgeArrowSize)
  }

  /** The item drawing one routed piece: the bounding box of its points
      widened by the arrow width on every side, the points relative to the
      box, and an arrow head on Target pieces only. A piece of an undeclared
      flow is not drawn. */
  function EdgeItem(edge: EdgePointsItem, declared: seq<FlowDiagramFlow>, config: DiagramConfig): Option<SceneItem>
    requires edge.points != []
  {
    match FindFlow(declared, Some(edge.flow))
    case None => None
    case Some(flow) =>
      var aw := ArrowWidth(flow, config);
      var stroke := Stroke(OrReal(flow.style.strokeWidth, config.defaultEdgeStrokeWidth),
                           OrString(flow.style.strokeColor, config.defaultEdgeStrokeColor),
                           OrString(flow.style.strokeStyle, config.defaultEdgeStrokeStyle));
      var xs := Xs(edge.points);
      var ys := Ys(edge.points);
      var width := Abs(MaxOf(xs) - MinOf(xs)) + 2.0 * aw;
      var height := Abs(MaxOf(ys) - MinOf(ys)) + 2.0 * aw;
      var left := MinOf(xs) - aw;
      var top := MinOf(ys) - aw;
      var marker := if edge.layer == Target then Some(MarkerRef(MarkerId(flow.id))) else None;
      Some(SceneItem(edge.id + "-edge", "edge-" + edge.id, Flow, Size(width, height),
                     Point(left + width / 2.0, top + height / 2.0), 2, false, false,
                     Polyline(Shift(edge.points, left, top), stroke, marker)))
  }

  /** A piece is drawn exactly when its flow is declared; its item is named
      after the piece, and only a Target piece ends in its flow's arrow. */
  lemma EdgeItemDrawn(edge: EdgePointsItem, declared: seq<FlowDiagramFlow>, config: DiagramConfig)
    requires edge.points != []
    ensures EdgeItem(edge, declared, config).Some? <==> Declared(declared, edge.flow)
    ensures EdgeItem(edge, declared, config).Some? ==>
      var it := EdgeItem(edge, declared, config).value;
      && it.id == "edge-" + edge.id && it.kind == Flow && it.zIndex == 2
      && it.content.Polyline?
      && it.content.markerEnd == (if edge.layer == Target then Some(MarkerRef(MarkerId(edge.flow))) else None)
  {
    FindFlowFirst(declared, Some(edge.flow));
    DeclaredMeans(declared, edge.flow);
  }

  /** The polyline, placed at the item's top-left corner, runs through the
      piece's own points; every point keeps the arrow width from each side
      of the item, and the points touch all four inset sides. */
  lemma EdgeItemFits(edge: EdgePointsItem, declared: seq<FlowDiagramFlow>, config: DiagramConfig)
    requires edge.points != [] && Declared(declared, edge.flow)
    ensures EdgeItem(edge, declared, config).Some?
    ensures
      var it := EdgeItem(edge, declared, config).value;
      var aw := ArrowWidth(FindFlow(declared, Some(edge.flow)).value, config);
      var pts := it.content.points;
      && it.content.Polyline? && |pts| == |edge.points|
      && (forall i :: 0 <= i < |pts| ==>
            && it.position.x - it.size.width / 2.0 + pts[i].x == edge.points[i].x
            && it.position.y - it.size.height / 2.0 + pts[i].y == edge.points[i].y
            && aw <= pts[i].x <= it.size.width - aw
            && aw <= pts[i].y <= it.size.height - aw)
      && (exists i :: 0 <= i < |pts| && pts[i].x == aw)
      && (exists i :: 0 <= i < |pts| && pts[i].x == it.size.width - aw)
      && (exists i :: 0 <= i < |pts| && pts[i].y == aw)
      && (exists i :: 0 <= i < |pts| && pts[i].y == it.size.height - aw)
  {
    EdgeItemDrawn(edge, declared, config);
    var xs, ys := Xs(edge.points), Ys(edge.points);
    var i1 :| 0 <= i1 < |xs| && xs[i1] == MinOf(xs);
    var i2 :| 0 <= i2 < |xs| && xs[i2] == MaxOf(xs);
    var i3 :| 0 <= i3 < |ys| && ys[i3] == MinOf(ys);
    var i4 :| 0 <= i4 < |ys| && ys[i4] == MaxOf(ys);
    forall i | 0 <= i < |edge.points|
      ensures MinOf(xs) <= edge.points[i].x <= MaxOf(xs) && MinOf(ys) <= edge.points[i].y <= MaxOf(ys)
    {
      assert xs[i] in xs && ys[i] in ys;
    }
  }

  /** With a non-negative arrow width every point lies inside the item. */
  lemma EdgeItemInside(edge: EdgePointsItem, declared: seq<FlowDiagramFlow>, config: DiagramConfig)
    requires edge.points != [] && Declared(declared, edge.flow)
    requires forall f :: f in declared && f.id == edge.flow ==> ArrowWidth(f, config) >= 0.0
    ensures EdgeItem(edge, declared, config).Some?
    ensures
      var it := EdgeItem(edge, declared, config).value;
      forall p :: p in it.content.points ==> 0.0 <= p.x <= it.size.width && 0.0 <= p.y <= it.size.height
  {
    EdgeItemFits(edge, declared, config);
    FindFlowFirst(declared, Some(edge.flow));
  }

  /** `makeEdges`: the items of the pieces, in order, skipping pieces of
      undeclared flows. */
  function EdgeItems(items: seq<EdgePointsItem>, declared: seq<FlowDiagramFlow>, config: DiagramConfig): seq<SceneItem>
    requires WellFormed(items)
  {
    if items == [] then []
    else
      var last := EdgeItem(items[|items| - 1], declared, config);
      EdgeItems(items[..|items| - 1], declared, config) + (if last.Some? then [last.value] else [])
  }

  /** When every piece belongs to a declared flow, item i draws piece i. */
  lemma {:induction false} EdgeItemsAllDrawn(items: seq<EdgePointsItem>, declared: seq<FlowDiagramFlow>, config: DiagramConfig)
    requires WellFormed(items) && KnownFlows(items, declared)
    ensures |EdgeItems(items, declared, config)| == |items|
    ensures forall i {:trigger EdgeItems(items, declared, config)[i]} :: 0 <= i < |items| ==> EdgeItem(items[i], declared, config) == Some(EdgeItems(items, declared, config)[i])
  {
    if items != [] {
      var prefix, last := items[..|items| - 1], items[|items| - 1];
      assert forall i :: 0 <= i < |prefix| ==> prefix[i] == items[i];
      EdgeItemsAllDrawn(prefix, declared, config);
      EdgeItemDrawn(last, declared, config);
      var it := EdgeItem(last, declared, config).value;
      assert EdgeItems(items, declared, config) == EdgeItems(prefix, declared, config) + [it];
    }
  }

  /** Every edge item draws some piece. */
  lemma {:induction false} EdgeItemsFromPieces(items: seq<EdgePointsItem>, declared: seq<FlowDiagramFlow>, config: DiagramConfig)
    requires WellFormed(items)
    ensures |EdgeItems(items, declared, config)| <= |items|
    ensures forall k :: 0 <= k < |EdgeItems(items, declared, config)| ==>
      exists i :: 0 <= i < |items| && EdgeItem(items[i], declared, config) == Some(EdgeItems(items, declared, config)[k])
  {
    if items != [] {
      var prefix := items[..|items| - 1];
      EdgeItemsFromPieces(prefix, declared, config);
      var r := EdgeItems(items, declared, config);
      var rp := EdgeItems(prefix, declared, config);
      forall k | 0 <= k < |r|
        ensures exists i :: 0 <= i < |items| && EdgeItem(items[i], declared, config) == Some(r[k])
      {
        if k < |rp| {
          var i :| 0 <= i < |prefix| && EdgeItem(prefix[i], declared, config) == Some(rp[k]);
          assert items[i] == prefix[i];
        } else {
          assert EdgeItem(items[|items| - 1], declared, config) == Some(r[k]);
        }
      }
    }
  }

  /** `makeSceneSize`: the laid-out graph's size, 0 where the layout
      reports none. */
  function SceneSizeOf(g: Graph): Size {
    Size(OrReal(g.width, 0.0), OrReal(g.height, 0.0))
  }
}
