/** Value types shared by the layout engine and the navigation state machine:
    the flow-diagram input format, points and sizes, and the layout
    configuration. Dates are integers (milliseconds since an epoch). */
module DiagramTypes {

  datatype Option<+T> = None | Some(value: T) {
    function GetOr(default: T): T {
      match this
      case Some(v) => v
      case None => default
    }
  }

  /** JavaScript's `i || 0` on an integer: only 0 is falsy among integers,
      so the expression is the identity (in particular on -1). */
  function OrZero(i: int): (r: int)
    ensures r == i
  {
    if i != 0 then i else 0
  }

  /** `date.isBetween(a, b, null, "[]")` of dayjs's isBetween plugin: both
      ends are inclusive, and the two bounds may come in either order. */
  predicate IsBetween(date: int, a: int, b: int) {
    (a <= date <= b) || (b <= date <= a)
  }

  /** The window is the closed interval between the smaller and the larger
      bound, whichever order they are given in. */
  lemma IsBetweenOrderFree(date: int, a: int, b: int)
    ensures IsBetween(date, a, b) <==> IsBetween(date, b, a)
    ensures IsBetween(date, a, b) <==> (if a <= b then a else b) <= date <= (if a <= b then b else a)
  {
  }

  datatype Point = Point(x: real, y: real)

  datatype Size = Size(width: real, height: real)

  /** The per-flow drawing style. Every member is optional; the drawer falls
      back to a default for a member that is missing or JavaScript-falsy. */
  datatype FlowStyle = FlowStyle(
    strokeColor: Option<string>,
    strokeStyle: Option<string>,
    strokeWidth: Option<real>,
    arrowHeadSize: Option<real>)

  datatype FlowDiagramFlow = FlowDiagramFlow(id: string, flowLabel: string, flowType: Option<string>, style: FlowStyle)

  datatype FlowDiagramEdge = FlowDiagramEdge(flow: string, fromNode: string, toNode: string)

  /** A node may own one subdiagram or a list of time-sliced subdiagrams. */
  datatype Subdiagram = NoSubdiagram | Single(diagram: FlowDiagram) | Many(diagrams: seq<FlowDiagram>)

  /** `render` is the size reported by the node's render function, when it has one. */
  datatype FlowDiagramNode = FlowDiagramNode(
    id: string,
    nodeType: Option<string>,
    title: Option<string>,
    icon: Option<string>,
    subdiagram: Subdiagram,
    render: Option<Size>)

  datatype FlowDiagram = FlowDiagram(
    id: string,
    title: string,
    startDate: Option<int>,
    endDate: Option<int>,
    nodes: seq<FlowDiagramNode>,
    flows: seq<FlowDiagramFlow>,
    edges: seq<FlowDiagramEdge>)

  datatype DiagramLayout = LeftRight | RightLeft | TopBottom | BottomTop

  datatype DiagramConfig = DiagramConfig(
    horizontalSpacing: real,
    verticalSpacing: real,
    highlightColor: string,
    backgroundColor: string,
    defaultEdgeStrokeWidth: real,
    defaultEdgeArrowSize: real,
    defaultEdgeStrokeColor: string,
    defaultEdgeStrokeStyle: string,
    layout: DiagramLayout)

  /** The configuration used when the embedding application supplies none. */
  const DefaultDiagramConfig := DiagramConfig(80.0, 50.0, "#DF323D", "#F7F7F7", 2.0, 16.0, "#000", "0", LeftRight)

  /** The first node of a diagram with the given id. */
  function FindNode(nodes: seq<FlowDiagramNode>, id: string): Option<FlowDiagramNode> {
    if nodes == [] then None
    else if nodes[0].id == id then Some(nodes[0])
    else FindNode(nodes[1..], id)
  }

  /** A node found has the id and is in the list; None means no node has it. */
  lemma {:induction false} FindNodeSpec(nodes: seq<FlowDiagramNode>, id: string)
    ensures FindNode(nodes, id).Some? ==> FindNode(nodes, id).value in nodes && FindNode(nodes, id).value.id == id
    ensures FindNode(nodes, id).None? ==> forall n :: n in nodes ==> n.id != id
  {
    if nodes != [] && nodes[0].id != id {
      FindNodeSpec(nodes[1..], id);
      assert forall n :: n in nodes ==> n == nodes[0] || n in nodes[1..];
    }
  }

  /** Index i is the first node with the id: the lookup finds that node. */
  lemma {:induction false} FindNodeFirst(nodes: seq<FlowDiagramNode>, id: string, i: nat)
    requires i < |nodes| && nodes[i].id == id
    requires forall k :: 0 <= k < i ==> nodes[k].id != id
    ensures FindNode(nodes, id) == Some(nodes[i])
  {
    if i > 0 {
      FindNodeFirst(nodes[1..], id, i - 1);
    }
  }

  /** The diagram the layout engine produces for a flow diagram and a
      configuration. The layout is a deterministic function of these two
      inputs, so the navigation state machine identifies a laid-out diagram
      by them. */
  datatype DiagramOut = Drawn(source: FlowDiagram, config: DiagramConfig)

  function DrawOption(d: Option<FlowDiagram>, config: DiagramConfig): (r: Option<DiagramOut>)
    ensures r.Some? <==> d.Some?
    ensures d.Some? ==> r.value.source == d.value && r.value.config == config
  {
    match d
    case None => None
    case Some(fd) => Some(Drawn(fd, config))
  }
}
