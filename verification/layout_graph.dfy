/** The laid-out graph the drawer works on: what the layered layout library
    reports for each graph node (centre, size, incoming and outgoing edges)
    and for the whole graph (its size). An edge carries the flow id as its
    multi-edge name; the graph library leaves the name out when it is empty. */
module LayoutGraph {
  import opened DiagramTypes

  datatype GraphEdge = GraphEdge(v: string, w: string, name: Option<string>)

  datatype GraphNode = GraphNode(
    x: real, y: real, width: real, height: real,
    inEdges: seq<GraphEdge>, outEdges: seq<GraphEdge>)

  /** `nodeIds` is the library's node order; `nodes` gives each node's layout. */
  datatype Graph = Graph(nodeIds: seq<string>, nodes: map<string, GraphNode>, width: Option<real>, height: Option<real>)
  {
    ghost predicate Valid() {
      && (forall i, j :: 0 <= i < j < |nodeIds| ==> nodeIds[i] != nodeIds[j])
      && (forall v :: v in nodeIds <==> v in nodes)
    }
  }

  /** Index of the first edge with the given name, or |edges| when none has it. */
  function FirstWithName(edges: seq<GraphEdge>, name: Option<string>): (k: nat)
    ensures k <= |edges|
    ensures k < |edges| ==> edges[k].name == name
    ensures forall j :: 0 <= j < k ==> edges[j].name != name
  {
    if edges == [] then 0
    else
      var prefix := edges[..|edges| - 1];
      var k := FirstWithName(prefix, name);
      if k < |prefix| then k
      else if edges[|edges| - 1].name == name then |prefix|
      else |edges|
  }

  /** Some edge of the list carries this name. */
  predicate HasName(edges: seq<GraphEdge>, name: Option<string>)
    decreases |edges|
  {
    edges != [] && (edges[|edges| - 1].name == name || HasName(edges[..|edges| - 1], name))
  }

  /** HasName is membership of the name among the edges' names. */
  lemma {:induction false} HasNameMeans(edges: seq<GraphEdge>, name: Option<string>)
    ensures HasName(edges, name) <==> exists i :: 0 <= i < |edges| && edges[i].name == name
    decreases |edges|
  {
    if edges != [] {
      var prefix := edges[..|edges| - 1];
      HasNameMeans(prefix, name);
      if HasName(prefix, name) {
        var i :| 0 <= i < |prefix| && prefix[i].name == name;
        assert edges[i] == prefix[i];
      }
      if exists i :: 0 <= i < |edges| && edges[i].name == name {
        var i :| 0 <= i < |edges| && edges[i].name == name;
        if i < |prefix| {
          assert prefix[i] == edges[i];
        }
      }
    }
  }

  lemma HasNameAppend(edges: seq<GraphEdge>, e: GraphEdge)
    ensures forall n :: HasName(edges + [e], n) <==> HasName(edges, n) || e.name == n
  {
    assert (edges + [e])[..|edges|] == edges;
  }

  lemma {:induction false} FirstWithNameFound(edges: seq<GraphEdge>, n: Option<string>)
    ensures FirstWithName(edges, n) < |edges| <==> HasName(edges, n)
    decreases |edges|
  {
    if edges != [] {
      FirstWithNameFound(edges[..|edges| - 1], n);
    }
  }

  /** The reduce of `makeUniqueFlowEdges`: keep an edge unless one with the
      same name (flow) was kept before. Names compare as JavaScript values, so
      all unnamed edges share one entry. */
  function UniqueFlowEdgeList(edges: seq<GraphEdge>): (r: seq<GraphEdge>)
    ensures |r| <= |edges|
  {
    if edges == [] then []
    else
      var prefix := edges[..|edges| - 1];
      var e := edges[|edges| - 1];
      var reduced := UniqueFlowEdgeList(prefix);
      if HasName(reduced, e.name) then reduced else reduced + [e]
  }

  /** The kept edges have pairwise different names, and every name of the
      input is kept. */
  lemma {:induction false} UniqueFlowEdgeListNames(edges: seq<GraphEdge>)
    ensures forall i, j :: 0 <= i < j < |UniqueFlowEdgeList(edges)| ==> UniqueFlowEdgeList(edges)[i].name != UniqueFlowEdgeList(edges)[j].name
    ensures forall n :: HasName(UniqueFlowEdgeList(edges), n) <==> HasName(edges, n)
  {
    if edges != [] {
      var prefix := edges[..|edges| - 1];
      var e := edges[|edges| - 1];
      var reduced := UniqueFlowEdgeList(prefix);
      UniqueFlowEdgeListNames(prefix);
      assert edges == prefix + [e];
      HasNameAppend(prefix, e);
      HasNameAppend(reduced, e);
      if HasName(reduced, e.name) {
        assert UniqueFlowEdgeList(edges) == reduced;
        forall n ensures HasName(reduced, n) <==> HasName(edges, n) {
          assert HasName(edges, n) <==> HasName(prefix, n) || e.name == n;
        }
      } else {
        assert UniqueFlowEdgeList(edges) == reduced + [e];
        HasNameMeans(reduced, e.name);
      }
    }
  }

  /** The kept edges are, in input order, the first edge of each name. */
  lemma {:induction false} UniqueFlowEdgeListKeepsFirst(edges: seq<GraphEdge>)
    ensures forall k :: 0 <= k < |UniqueFlowEdgeList(edges)| ==>
      && FirstWithName(edges, UniqueFlowEdgeList(edges)[k].name) < |edges|
      && UniqueFlowEdgeList(edges)[k] == edges[FirstWithName(edges, UniqueFlowEdgeList(edges)[k].name)]
    ensures forall i, j :: 0 <= i < j < |UniqueFlowEdgeList(edges)| ==>
      FirstWithName(edges, UniqueFlowEdgeList(edges)[i].name) < FirstWithName(edges, UniqueFlowEdgeList(edges)[j].name)
  {
    if edges != [] {
      var prefix := edges[..|edges| - 1];
      var e := edges[|edges| - 1];
      var reduced := UniqueFlowEdgeList(prefix);
      UniqueFlowEdgeListKeepsFirst(prefix);
      UniqueFlowEdgeListNames(prefix);
      assert edges == prefix + [e];
      forall k | 0 <= k < |reduced|
        ensures FirstWithName(edges, reduced[k].name) == FirstWithName(prefix, reduced[k].name) < |prefix|
      {
        assert FirstWithName(prefix, reduced[k].name) < |prefix|;
        assert edges[..|edges| - 1] == prefix;
      }
      if !HasName(reduced, e.name) {
        FirstWithNameFound(prefix, e.name);
        assert FirstWithName(edges, e.name) == |prefix|;
      }
    }
  }

  /** `makeUniqueFlowEdges`: undefined stays undefined. */
  function MakeUniqueFlowEdges(edges: Option<seq<GraphEdge>>): (r: Option<seq<GraphEdge>>)
    ensures r.None? <==> edges.None?
    ensures edges.Some? ==> r.value == UniqueFlowEdgeList(edges.value)
  {
    match edges
    case None => None
    case Some(es) => Some(UniqueFlowEdgeList(es))
  }

  /** The unique-flow outgoing (incoming) edges of a graph node. The library
      returns a list, never undefined, for a node of the graph. */
  function UniqueOutEdges(g: Graph, v: string): seq<GraphEdge>
    requires v in g.nodes
  {
    MakeUniqueFlowEdges(Some(g.nodes[v].outEdges)).value
  }

  function UniqueInEdges(g: Graph, v: string): seq<GraphEdge>
    requires v in g.nodes
  {
    MakeUniqueFlowEdges(Some(g.nodes[v].inEdges)).value
  }
}
