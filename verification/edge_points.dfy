/** The rank loop of the edge router: every gap between a rank and the next
    is routed in turn into one shared list of pieces. */
module EdgePoints {
  import opened DiagramTypes
  import opened LayoutGraph
  import opened EdgeIds
  import opened RankMap
  import opened EdgeRouting

  /** Every rank holds at least one node, and its nodes are in the graph. */
  ghost predicate RanksOk(g: Graph, rm: seq<RankNodeItem>) {
    forall j :: 0 <= j < |rm| ==> rm[j].nodes != [] && InGraph(g, rm[j].nodes)
  }

  /** Rank j is the j-th item. */
  ghost predicate Indexed(rm: seq<RankNodeItem>) {
    forall j :: 0 <= j < |rm| ==> rm[j].rank == j
  }

  /** The ranks the bucketing produces satisfy both. */
  lemma RankNodeMapFits(g: Graph)
    requires g.Valid()
    ensures RanksOk(g, RankNodeMap(g)) && Indexed(RankNodeMap(g))
  {
    var rm := RankNodeMap(g);
    RankNodeMapOrder(g);
    forall j | 0 <= j < |rm| ensures InGraph(g, rm[j].nodes) {
      forall i | 0 <= i < |rm[j].nodes| ensures rm[j].nodes[i] in g.nodes {
        assert rm[j].nodes[i] in rm[j].nodes;
      }
    }
  }

  lemma WellFormedGrow(a: seq<EdgePointsItem>, b: seq<EdgePointsItem>, declared: seq<FlowDiagramFlow>, layer: EdgeLayer, rank: nat)
    requires Grows(a, b) && NewPieces(a, b, declared, layer, rank) && WellFormed(a)
    ensures WellFormed(b)
  {
  }

  lemma KnownFlowsGrow(a: seq<EdgePointsItem>, b: seq<EdgePointsItem>, declared: seq<FlowDiagramFlow>, layer: EdgeLayer, rank: nat)
    requires Grows(a, b) && NewPieces(a, b, declared, layer, rank) && KnownFlows(a, declared)
    ensures KnownFlows(b, declared)
  {
  }

  lemma KnownFlowsSameLength(a: seq<EdgePointsItem>, b: seq<EdgePointsItem>, declared: seq<FlowDiagramFlow>)
    requires Grows(a, b) && |a| == |b| && KnownFlows(a, declared)
    ensures KnownFlows(b, declared)
  {
  }

  /** The gap after a rank: its staged flows, its right edge, the left edge
      of the next rank (0 when there is none) and a quarter of the space
      between them as the staging width. */
  function GapOf(g: Graph, rank: nat, nodes: seq<string>, nextX: real): (gap: Gap)
    requires InGraph(g, nodes)
    ensures gap.rank == rank && gap.nextX == nextX
    ensures gap.xStart + 4.0 * gap.delta == nextX
  {
    var xStart := RightSide(g, nodes, |nodes|);
    Gap(rank, RankFlows(g, nodes, |nodes|), xStart, nextX, (nextX - xStart) / 4.0)
  }

  function NextX(g: Graph, rm: seq<RankNodeItem>, j: int): real
    requires RanksOk(g, rm) && j < |rm|
  {
    if j < 0 then 0.0 else LeftMost(g, rm[j].nodes)
  }

  /** The Target pieces of a gap, drawn only when the next rank is found. */
  function TargetPart(items: seq<EdgePointsItem>, declared: seq<FlowDiagramFlow>, gap: Gap,
                      g: Graph, rm: seq<RankNodeItem>, j: int): seq<EdgePointsItem>
    requires RanksOk(g, rm) && j < |rm|
  {
    if j < 0 then items
    else TargetLayer(items, declared, gap, g, rm[j].nodes, |rm[j].nodes|)
  }

  lemma TargetPartGrows(items: seq<EdgePointsItem>, declared: seq<FlowDiagramFlow>, gap: Gap,
                        g: Graph, rm: seq<RankNodeItem>, j: int)
    requires RanksOk(g, rm) && j < |rm|
    ensures var r := TargetPart(items, declared, gap, g, rm, j);
      Grows(items, r) && NewPieces(items, r, declared, Target, gap.rank) && (UniqueKeys(items) ==> UniqueKeys(r))
  {
    if j < 0 {
      GrowsRefl(items);
    } else {
      TargetLayerGrows(items, declared, gap, g, rm[j].nodes, |rm[j].nodes|);
      TargetLayerNew(items, declared, gap, g, rm[j].nodes, |rm[j].nodes|);
      TargetLayerUnique(items, declared, gap, g, rm[j].nodes, |rm[j].nodes|);
    }
  }

  /** The Source pieces of a rank, and the Target pieces of the next,
      keep every piece at two points or more. */
  lemma SourceLayerWellFormed(items: seq<EdgePointsItem>, declared: seq<FlowDiagramFlow>, gap: Gap,
                              g: Graph, nodes: seq<string>)
    requires InGraph(g, nodes) && WellFormed(items)
    ensures WellFormed(SourceLayer(items, declared, gap, g, nodes, |nodes|))
  {
    SourceLayerGrows(items, declared, gap, g, nodes, |nodes|);
    SourceLayerNew(items, declared, gap, g, nodes, |nodes|);
    WellFormedGrow(items, SourceLayer(items, declared, gap, g, nodes, |nodes|), declared, Source, gap.rank);
  }

  lemma TargetPartWellFormed(items: seq<EdgePointsItem>, declared: seq<FlowDiagramFlow>, gap: Gap,
                             g: Graph, rm: seq<RankNodeItem>, j: int)
    requires RanksOk(g, rm) && j < |rm| && WellFormed(items)
    ensures WellFormed(TargetPart(items, declared, gap, g, rm, j))
  {
    TargetPartGrows(items, declared, gap, g, rm, j);
    WellFormedGrow(items, TargetPart(items, declared, gap, g, rm, j), declared, Target, gap.rank);
  }

  /** One pass of the rank loop: Source pieces, joints, Target pieces,
      splits, for the rank found under the given number. Every piece keeps
      two points or more. */
  function GapItems(items: seq<EdgePointsItem>, g: Graph, declared: seq<FlowDiagramFlow>,
                    rm: seq<RankNodeItem>, rank: nat): (r: seq<EdgePointsItem>)
    requires RanksOk(g, rm) && WellFormed(items)
    ensures WellFormed(r)
  {
    var i := FindRank(rm, rank);
    if i < 0 then items
    else
      var nodes := rm[i].nodes;
      var j := FindRank(rm, rank + 1);
      var gap := GapOf(g, rank, nodes, NextX(g, rm, j));
      var s1 := SourceLayer(items, declared, gap, g, nodes, |nodes|);
      SourceLayerWellFormed(items, declared, gap, g, nodes);
      var s2 := JoinFlows(s1, rank, gap.flows, |gap.flows|);
      var s3 := TargetPart(s2, declared, gap, g, rm, j);
      TargetPartWellFormed(s2, declared, gap, g, rm, j);
      SplitFlows(s3, rank, gap.flows, |gap.flows|)
  }

  /** A pass keeps every piece there was, adds only pieces of declared
      flows, and never a second piece under an id and layer in use. */
  lemma GapItemsGrows(items: seq<EdgePointsItem>, g: Graph, declared: seq<FlowDiagramFlow>,
                      rm: seq<RankNodeItem>, rank: nat)
    requires RanksOk(g, rm) && WellFormed(items)
    ensures Grows(items, GapItems(items, g, declared, rm, rank))
  {
    var i := FindRank(rm, rank);
    if i >= 0 {
      var nodes := rm[i].nodes;
      var j := FindRank(rm, rank + 1);
      var gap := GapOf(g, rank, nodes, NextX(g, rm, j));
      var s1 := SourceLayer(items, declared, gap, g, nodes, |nodes|);
      SourceLayerWellFormed(items, declared, gap, g, nodes);
      var s2 := JoinFlows(s1, rank, gap.flows, |gap.flows|);
      var s3 := TargetPart(s2, declared, gap, g, rm, j);
      TargetPartWellFormed(s2, declared, gap, g, rm, j);
      var s4 := SplitFlows(s3, rank, gap.flows, |gap.flows|);
      assert s4 == GapItems(items, g, declared, rm, rank);
      SourceLayerGrows(items, declared, gap, g, nodes, |nodes|);
      TargetPartGrows(s2, declared, gap, g, rm, j);
      JoinFlowsGrows(s1, rank, gap.flows, |gap.flows|);
      SplitFlowsGrows(s3, rank, gap.flows, |gap.flows|);
      GrowsTransitive(items, s1, s2);
      GrowsTransitive(items, s2, s3);
      GrowsTransitive(items, s3, s4);
    } else {
      GrowsRefl(items);
    }
  }

  lemma GapItemsKnown(items: seq<EdgePointsItem>, g: Graph, declared: seq<FlowDiagramFlow>,
                      rm: seq<RankNodeItem>, rank: nat)
    requires RanksOk(g, rm) && WellFormed(items) && KnownFlows(items, declared)
    ensures KnownFlows(GapItems(items, g, declared, rm, rank), declared)
  {
    var i := FindRank(rm, rank);
    if i >= 0 {
      var nodes := rm[i].nodes;
      var j := FindRank(rm, rank + 1);
      var gap := GapOf(g, rank, nodes, NextX(g, rm, j));
      var s1 := SourceLayer(items, declared, gap, g, nodes, |nodes|);
      SourceLayerWellFormed(items, declared, gap, g, nodes);
      var s2 := JoinFlows(s1, rank, gap.flows, |gap.flows|);
      var s3 := TargetPart(s2, declared, gap, g, rm, j);
      TargetPartWellFormed(s2, declared, gap, g, rm, j);
      var s4 := SplitFlows(s3, rank, gap.flows, |gap.flows|);
      assert s4 == GapItems(items, g, declared, rm, rank);
      SourceLayerGrows(items, declared, gap, g, nodes, |nodes|);
      SourceLayerNew(items, declared, gap, g, nodes, |nodes|);
      TargetPartGrows(s2, declared, gap, g, rm, j);
      JoinFlowsGrows(s1, rank, gap.flows, |gap.flows|);
      SplitFlowsGrows(s3, rank, gap.flows, |gap.flows|);
      KnownFlowsGrow(items, s1, declared, Source, rank);
      KnownFlowsSameLength(s1, s2, declared);
      KnownFlowsGrow(s2, s3, declared, Target, rank);
      KnownFlowsSameLength(s3, s4, declared);
    }
  }

  lemma GapItemsUnique(items: seq<EdgePointsItem>, g: Graph, declared: seq<FlowDiagramFlow>,
                       rm: seq<RankNodeItem>, rank: nat)
    requires RanksOk(g, rm) && WellFormed(items) && UniqueKeys(items)
    ensures UniqueKeys(GapItems(items, g, declared, rm, rank))
  {
    var i := FindRank(rm, rank);
    if i >= 0 {
      var nodes := rm[i].nodes;
      var j := FindRank(rm, rank + 1);
      var gap := GapOf(g, rank, nodes, NextX(g, rm, j));
      var s1 := SourceLayer(items, declared, gap, g, nodes, |nodes|);
      SourceLayerWellFormed(items, declared, gap, g, nodes);
      var s2 := JoinFlows(s1, rank, gap.flows, |gap.flows|);
      var s3 := TargetPart(s2, declared, gap, g, rm, j);
      TargetPartWellFormed(s2, declared, gap, g, rm, j);
      var s4 := SplitFlows(s3, rank, gap.flows, |gap.flows|);
      assert s4 == GapItems(items, g, declared, rm, rank);
      SourceLayerUnique(items, declared, gap, g, nodes, |nodes|);
      TargetPartGrows(s2, declared, gap, g, rm, j);
      JoinFlowsUnique(s1, rank, gap.flows, |gap.flows|);
      SplitFlowsUnique(s3, rank, gap.flows, |gap.flows|);
    }
  }

  /** The pieces after the first n passes of the rank loop. */
  function EdgePointsUpTo(g: Graph, declared: seq<FlowDiagramFlow>, rm: seq<RankNodeItem>, n: nat): (r: seq<EdgePointsItem>)
    requires RanksOk(g, rm)
    ensures WellFormed(r)
  {
    if n == 0 then []
    else GapItems(EdgePointsUpTo(g, declared, rm, n - 1), g, declared, rm, n - 1)
  }

  /** After any number of passes every piece belongs to a declared flow and
      no two pieces share id and layer. */
  lemma {:induction false} EdgePointsUpToKnown(g: Graph, declared: seq<FlowDiagramFlow>, rm: seq<RankNodeItem>, n: nat)
    requires RanksOk(g, rm)
    ensures KnownFlows(EdgePointsUpTo(g, declared, rm, n), declared)
  {
    if n > 0 {
      EdgePointsUpToKnown(g, declared, rm, n - 1);
      GapItemsKnown(EdgePointsUpTo(g, declared, rm, n - 1), g, declared, rm, n - 1);
    }
  }

  lemma {:induction false} EdgePointsUpToUnique(g: Graph, declared: seq<FlowDiagramFlow>, rm: seq<RankNodeItem>, n: nat)
    requires RanksOk(g, rm)
    ensures UniqueKeys(EdgePointsUpTo(g, declared, rm, n))
  {
    if n > 0 {
      EdgePointsUpToUnique(g, declared, rm, n - 1);
      GapItemsUnique(EdgePointsUpTo(g, declared, rm, n - 1), g, declared, rm, n - 1);
    }
  }

  /** The number of passes: one per gap, `numRanks - 1`, none without ranks. */
  function Passes(rm: seq<RankNodeItem>): nat {
    if |rm| > 0 then |rm| - 1 else 0
  }

  /** `makeEdgePoints` from empty pieces: every piece has two points or
      more; with no ranks there are no pieces. */
  function AllEdgePoints(g: Graph, declared: seq<FlowDiagramFlow>, rm: seq<RankNodeItem>): (r: seq<EdgePointsItem>)
    requires RanksOk(g, rm)
    ensures WellFormed(r)
    ensures rm == [] ==> r == []
  {
    EdgePointsUpTo(g, declared, rm, Passes(rm))
  }

  lemma AllEdgePointsKeys(g: Graph, declared: seq<FlowDiagramFlow>, rm: seq<RankNodeItem>)
    requires RanksOk(g, rm)
    ensures KnownFlows(AllEdgePoints(g, declared, rm), declared) && UniqueKeys(AllEdgePoints(g, declared, rm))
  {
    EdgePointsUpToKnown(g, declared, rm, Passes(rm));
    EdgePointsUpToUnique(g, declared, rm, Passes(rm));
  }
}
