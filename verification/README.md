# flow-diagram-explorer core, modelled in Dafny

This project models the core of flow-diagram-explorer, a React component that shows flow
diagrams that are nested and sliced in time. It covers four pieces:

- **The edge router of the advanced diagram drawer** (`DiagramDrawer` in
  `src/lib/utils/diagram-drawer-advanced.tsx`). It starts from a graph already laid out left
  to right.
  - Nodes are bucketed into ranks by equal x.
  - Each node's out-edges and in-edges are reduced to one edge per flow.
  - Every gap between two adjacent ranks is routed in three layers:
    - Source pieces run from evenly spaced exit points to one staging column per flow.
    - Each flow's Source pieces get a joint appended, at the centroid of their ends.
    - Target pieces run from staging columns to evenly spaced entry points.
    - Each flow's Target pieces get a split prepended, at the centroid of their starts.
  - The scene is node items, then one marker-definition item per flow, then one polyline item
    per routed piece.
  - The drawer is a class whose methods fill its fields in place. `diagram()` builds the scene
    only while the scene is empty.
- **The navigation state machine** (`src/lib/components/DiagramReducer/diagram-reducer.tsx`).
  - Initialisation computes the global date bounds.
  - The visible diagram is resolved from a forest of time-windowed diagrams, a drill-down path
    and a date.
  - Three transitions: MoveDown, MoveUpToNode and ChangeDate.
- **The time-line selection** (`src/lib/components/DateTimeHandler/date-time-handler.tsx`).
  - The diagrams are sorted in place by start date and mapped to time frames.
  - A missing bound is filled in from the global range.
  - A date change selects the first frame that contains the date, or -1.
- **The minimap clamp** (`calcCenterPointWithinBoundaryBox` in
  `src/lib/components/Minimap/minimap.tsx`).

Modules and files:

| file | module | contents |
|---|---|---|
| `types.dfy` | `DiagramTypes` | the diagram data types, the configuration and the default configuration, node lookup |
| `sorting.dfy` | `Sorting` | the stable sort that `Array.prototype.sort` performs |
| `geometry.dfy` | `Geometry` | sums, centroid, minimum and maximum |
| `layout_graph.dfy` | `LayoutGraph` | the laid-out graph, `makeUniqueFlowEdges` |
| `rank_map.dfy` | `RankMap` | `makeRankNodeMap` |
| `edge_ids.dfy` | `EdgeIds` | `makeEdgeId` |
| `edge_routing.dfy` | `EdgeRouting` | one rank gap: Source and Target pieces, joints and splits |
| `edge_points.dfy` | `EdgePoints` | the rank loop of `makeEdgePoints` |
| `edge_routes.dfy` | `RoutedEdges`, `EdgeRoutes` | every edge is routed through its exit and entry points |
| `scene.dfy` | `Scene` | node, definition and edge scene items |
| `drawer.dfy` | `Drawer` | the `DiagramDrawer` class and the scene it builds |
| `diagram_reducer.dfy` | `DiagramReducer` | init, `findAndCreateDiagram`, the reducer |
| `date_time_handler.dfy` | `DateTimeHandler` | the time-frame list and the date-change handler |
| `minimap.dfy` | `Minimap` | the centre-point clamp |

Conventions of the model:

- Coordinates are `real`. Dates are `int`.
- The current time, which `dayjs(undefined)` stands for, is a parameter `now`.
- `date.isBetween(a, b, null, "[]")` is `DiagramTypes.IsBetween`. Both ends are inclusive, and
  the bounds may come in either order. This follows the isBetween plugin of dayjs 1.10 and
  later; the repository does not pin a version.
- The layered layout is an input: the `Graph` the drawer is constructed with. For each node it
  gives x, y, width, height and the in-edges and out-edges, each named by its flow.
- An edge name is an `Option<string>`. The graph library stores no name for an empty one.
- JavaScript's `||` defaults are written out:
  - 0, "" and a missing value fall back to the default;
  - `i || 0` on an index leaves -1 in place (`DiagramTypes.OrZero`).

Where the prose description of the system and the code differ, the model follows the code:

- Flows carry a style record, which the drawer reads (`flow.style`) although
  `src/lib/types/diagram.ts` declares none.
- Every field of the style record is optional.
- Nodes carry an optional render function, reduced to the size it reports. The drawer reads it
  (`node.render`, src/lib/utils/diagram-drawer-advanced.tsx:140 and 159), although
  `FlowDiagramNode` in src/lib/types/diagram.ts:34-40 declares none.
- The pieces of one flow that converge at a joint stay separate polyline items. They share the
  joint point; they are not merged into one strand.
- An edge whose endpoints are not in the diagram is not excluded. The drawer routes whatever the
  layout graph holds.

## Model

| member | source | states |
|---|---|---|
| DiagramTypes.OrZero | src/lib/components/DateTimeHandler/date-time-handler.tsx:52-57 | `i \|\| 0` on an integer is the identity: -1 stays -1, 0 stays 0 |
| DiagramTypes.FindNodeSpec | src/lib/components/DiagramReducer/diagram-reducer.tsx:98 | a node found carries the id and is in the list; none found means no node has the id |
| DiagramTypes.FindNodeFirst | src/lib/utils/diagram-drawer-advanced.tsx:155 | the lookup returns the first node with the id |
| DiagramTypes.DrawOption | src/lib/components/DiagramReducer/diagram-reducer.tsx:112-113 | a diagram is drawn exactly when one was resolved, from that diagram and the configuration |
| Sorting.SortBySortsAndPermutes | src/lib/utils/diagram-drawer-advanced.tsx:177 | the sort result is ascending by key and a permutation of its input |
| Sorting.SortByStable | src/lib/utils/diagram-drawer-advanced.tsx:177 | for every key, the elements with that key keep their input order |
| Sorting.SortByLength | src/lib/components/DateTimeHandler/date-time-handler.tsx:32-35 | sorting keeps the length |
| Geometry.MinOf | src/lib/utils/diagram-drawer-advanced.tsx:226-228 | `Math.min` of a non-empty list is one of its values and at most every value |
| Geometry.MaxOf | src/lib/utils/diagram-drawer-advanced.tsx:453-456 | `Math.max` of a non-empty list is one of its values and at least every value |
| Geometry.SumBoundsX | src/lib/utils/diagram-drawer-advanced.tsx:382-385 | bounds on every x bound the sum of n points by n times those bounds |
| Geometry.SumBoundsY | src/lib/utils/diagram-drawer-advanced.tsx:382-385 | bounds on every y bound the sum of n points by n times those bounds |
| Geometry.CentroidWithinBoundingBox | src/lib/utils/diagram-drawer-advanced.tsx:380-387 | the average point of a non-empty list exists and lies in the points' bounding box |
| Geometry.ExtremesBound | src/lib/utils/diagram-drawer-advanced.tsx:453-459 | every point lies between the minimum and maximum of its coordinates |
| Geometry.CentroidBetween | src/lib/utils/diagram-drawer-advanced.tsx:380-387 | any box that holds every point holds their average point |
| Geometry.CentroidOfCopies | src/lib/utils/diagram-drawer-advanced.tsx:380-387 | the average of copies of one point is that point |
| LayoutGraph.FirstWithName | src/lib/utils/diagram-drawer-advanced.tsx:209 | the index found is the first edge with the name, or the length when no edge has it |
| LayoutGraph.FirstWithNameFound | src/lib/utils/diagram-drawer-advanced.tsx:209 | an edge with the name is found exactly when some edge carries it |
| LayoutGraph.UniqueFlowEdgeList | src/lib/utils/diagram-drawer-advanced.tsx:208-213 | the reduce never yields more edges than it is given |
| LayoutGraph.UniqueFlowEdgeListNames | src/lib/utils/diagram-drawer-advanced.tsx:205-215 | the kept edges have pairwise different names and cover every input name |
| LayoutGraph.UniqueFlowEdgeListKeepsFirst | src/lib/utils/diagram-drawer-advanced.tsx:205-215 | each kept edge is the first input edge with its name, and the kept edges are in input order |
| LayoutGraph.MakeUniqueFlowEdges | src/lib/utils/diagram-drawer-advanced.tsx:205-215 | undefined stays undefined; a list becomes its deduplicated list |
| RankMap.FindPosition | src/lib/utils/diagram-drawer-advanced.tsx:181 | `positionRankMap.find` gives the first entry with that x, or -1 when none has it |
| RankMap.FindRank | src/lib/utils/diagram-drawer-advanced.tsx:188 | an index found holds the rank asked for |
| RankMap.FindRankFirst | src/lib/utils/diagram-drawer-advanced.tsx:221-223 | the index found is the first with the rank; -1 means no item has it |
| RankMap.PlaceNodeJoins | src/lib/utils/diagram-drawer-advanced.tsx:187-191 | a node whose x already has a rank is appended to that rank's nodes |
| RankMap.PlaceNodeConsistent | src/lib/utils/diagram-drawer-advanced.tsx:180-193 | one loop step keeps the two lists aligned: rank i at index i, non-empty, one x per rank |
| RankMap.PlaceNodeRanked | src/lib/utils/diagram-drawer-advanced.tsx:180-193 | one loop step ranks exactly one more node, the one placed |
| RankMap.BucketizeStep | src/lib/utils/diagram-drawer-advanced.tsx:180-193 | the loop over one more node is one more step |
| RankMap.BucketizeConsistent | src/lib/utils/diagram-drawer-advanced.tsx:176-194 | the loop yields aligned lists that rank exactly the nodes given |
| RankMap.BucketizeSorted | src/lib/utils/diagram-drawer-advanced.tsx:176-194 | on nodes sorted by x, the ranks' x strictly increase and reading the ranks in order gives back the nodes |
| RankMap.RankNodeMap | src/lib/utils/diagram-drawer-advanced.tsx:176-194 | every node of a rank is a graph node |
| RankMap.SortedNodesInGraph | src/lib/utils/diagram-drawer-advanced.tsx:177 | the sorted node list is a permutation of the graph's nodes, ascending by x |
| RankMap.RankNodeMapOrder | src/lib/utils/diagram-drawer-advanced.tsx:176-194 | rank j is item j and is non-empty; the nodes read rank by rank are the graph's nodes sorted by x |
| RankMap.RankNodeMapByX | src/lib/utils/diagram-drawer-advanced.tsx:176-194 | two nodes share a rank if and only if they share x; a later rank has a larger x |
| RankMap.RankCount | src/lib/utils/diagram-drawer-advanced.tsx:185 | `numRanks` equals the number of distinct x values among the nodes |
| RankMap.RankNodeMapPartitions | src/lib/utils/diagram-drawer-advanced.tsx:176-194 | every graph node is in exactly one rank |
| RankMap.ConsistentDisjoint | src/lib/utils/diagram-drawer-advanced.tsx:180-193 | aligned lists never hold a node in two ranks |
| EdgeIds.LayerSuffix | src/lib/utils/diagram-drawer-advanced.tsx:196-203 | an id ends in its layer's name |
| EdgeIds.LayerDetermined | src/lib/utils/diagram-drawer-advanced.tsx:196-203 | ids of different layers never coincide |
| EdgeIds.EdgeIdInjective | src/lib/utils/diagram-drawer-advanced.tsx:202 | when flow ids have no ':' and source node ids no '-', the id determines source, target and flow |
| EdgeIds.EdgeIdCollision | src/lib/utils/diagram-drawer-advanced.tsx:202 | without those restrictions, edges "a-b"→"c" and "a"→"b-c" of one flow share an id |
| EdgeRouting.FindFlow | src/lib/utils/diagram-drawer-advanced.tsx:264 | a flow found has the edge's name as its id and is declared |
| EdgeRouting.FindFlowFirst | src/lib/utils/diagram-drawer-advanced.tsx:328 | the flow found is the first declared one with the name; none is found exactly when no flow has it |
| EdgeRouting.IndexOf | src/lib/utils/diagram-drawer-advanced.tsx:266 | `findIndex` gives -1 or an index holding the flow |
| EdgeRouting.IndexOfFirst | src/lib/utils/diagram-drawer-advanced.tsx:330 | the index is the first occurrence; -1 exactly when the flow is absent |
| EdgeRouting.FindItem | src/lib/utils/diagram-drawer-advanced.tsx:277-279 | an index found is a piece with that id and layer |
| EdgeRouting.FindItemNone | src/lib/utils/diagram-drawer-advanced.tsx:341-343 | -1 exactly when no piece has that id and layer |
| EdgeRouting.AddSegmentSpec | src/lib/utils/diagram-drawer-advanced.tsx:276-291 | see the paragraph after this table |
| EdgeRouting.OffsetBounds | src/lib/utils/diagram-drawer-advanced.tsx:262 | the k-th of n offsets down a positive height lies strictly inside it |
| EdgeRouting.SidePointsEvenlySpaced | src/lib/utils/diagram-drawer-advanced.tsx:255-263 | see the paragraph after this table |
| EdgeRouting.StagingFractionRange | src/lib/utils/diagram-drawer-advanced.tsx:266-271 | the corrected staging fraction lies in [0, 1]; it is 0 exactly for a flow not staged in the gap |
| EdgeRouting.StagingFractionAsWritten | src/lib/utils/diagram-drawer-advanced.tsx:330-338 | the fraction as written is undefined (NaN) exactly when the gap stages no flow |
| EdgeRouting.StagingFractionAgrees | src/lib/utils/diagram-drawer-advanced.tsx:266-271 | where the fraction as written is a number, the corrected one equals it |
| EdgeRouting.StagingFractionUndefined | src/lib/utils/diagram-drawer-advanced.tsx:330-338 | with no staged flows, a Target start column is NaN as written; the corrected one is on the next rank's left edge |
| EdgeRouting.StagingColumnsDistinct | src/lib/utils/diagram-drawer-advanced.tsx:266-271 | different staged flows get different staging columns |
| EdgeRouting.LocalFlows | src/lib/utils/diagram-drawer-advanced.tsx:237-242 | a node has no more local flows than out-edges |
| EdgeRouting.LocalFlowsSpec | src/lib/utils/diagram-drawer-advanced.tsx:237-242 | a node's local flows are distinct and are exactly its non-empty out-edge names |
| EdgeRouting.MergeFlows | src/lib/utils/diagram-drawer-advanced.tsx:243-247 | merging adds at most the local flows |
| EdgeRouting.MergeFlowsSpec | src/lib/utils/diagram-drawer-advanced.tsx:243-247 | merging keeps the list free of repeats and yields the union |
| EdgeRouting.RankFlowsSpec | src/lib/utils/diagram-drawer-advanced.tsx:232-250 | a gap's staged flows are distinct and are the local flows of the rank's nodes |
| EdgeRouting.RankFlowsMembers | src/lib/utils/diagram-drawer-advanced.tsx:232-250 | a flow is staged if and only if some node of the rank has an out-edge with that non-empty name |
| EdgeRouting.RightSide | src/lib/utils/diagram-drawer-advanced.tsx:233 | `xStartPosition` is never negative |
| EdgeRouting.RightSideBounds | src/lib/utils/diagram-drawer-advanced.tsx:249 | `xStartPosition` is at least every right side, and is one of them unless it is the initial 0 |
| EdgeRouting.LeftMostBounds | src/lib/utils/diagram-drawer-advanced.tsx:224-229 | `nextRankXPosition` is at most every left side of the next rank and is one of them |
| EdgeRouting.SourceStep | src/lib/utils/diagram-drawer-advanced.tsx:264-265 | an edge of an undeclared flow adds no Source piece |
| EdgeRouting.SourceStepGrows | src/lib/utils/diagram-drawer-advanced.tsx:259-292 | one Source segment keeps every piece; a new piece is a Source piece of a declared flow in this rank with two points |
| EdgeRouting.SourceStepUnique | src/lib/utils/diagram-drawer-advanced.tsx:276-291 | one Source segment never duplicates an id and layer |
| EdgeRouting.TargetStep | src/lib/utils/diagram-drawer-advanced.tsx:328-329 | an edge of an undeclared flow adds no Target piece |
| EdgeRouting.TargetStepGrows | src/lib/utils/diagram-drawer-advanced.tsx:323-357 | one Target segment keeps every piece; a new piece is a Target piece of a declared flow in this rank with two points |
| EdgeRouting.TargetStepUnique | src/lib/utils/diagram-drawer-advanced.tsx:340-355 | one Target segment never duplicates an id and layer |
| EdgeRouting.SourceEdgesGrows | src/lib/utils/diagram-drawer-advanced.tsx:259-293 | a node's Source segments keep every piece and add only declared Source pieces of this rank |
| EdgeRouting.SourceEdgesUnique | src/lib/utils/diagram-drawer-advanced.tsx:259-293 | a node's Source segments keep ids and layers unique |
| EdgeRouting.TargetEdgesGrows | src/lib/utils/diagram-drawer-advanced.tsx:323-357 | a node's Target segments keep every piece and add only declared Target pieces of this rank |
| EdgeRouting.TargetEdgesUnique | src/lib/utils/diagram-drawer-advanced.tsx:323-357 | a node's Target segments keep ids and layers unique |
| EdgeRouting.SourceLayerGrows | src/lib/utils/diagram-drawer-advanced.tsx:252-295 | the Source layer of a rank keeps every piece |
| EdgeRouting.SourceLayerNew | src/lib/utils/diagram-drawer-advanced.tsx:252-295 | the Source layer adds only declared Source pieces of this rank with two points |
| EdgeRouting.SourceLayerUnique | src/lib/utils/diagram-drawer-advanced.tsx:252-295 | the Source layer keeps ids and layers unique |
| EdgeRouting.TargetLayerGrows | src/lib/utils/diagram-drawer-advanced.tsx:315-360 | the Target layer of the next rank keeps every piece |
| EdgeRouting.TargetLayerNew | src/lib/utils/diagram-drawer-advanced.tsx:315-360 | the Target layer adds only declared Target pieces of this rank with two points |
| EdgeRouting.TargetLayerUnique | src/lib/utils/diagram-drawer-advanced.tsx:315-360 | the Target layer keeps ids and layers unique |
| EdgeRouting.JoinInputs | src/lib/utils/diagram-drawer-advanced.tsx:299-310 | the collected ends are no more than the pieces |
| EdgeRouting.JoinInputsEmpty | src/lib/utils/diagram-drawer-advanced.tsx:299-307 | there are no ends exactly when no Source piece of the rank and flow exists |
| EdgeRouting.GroupIndices | src/lib/utils/diagram-drawer-advanced.tsx:299-307 | every index listed is a piece of the rank, flow and layer |
| EdgeRouting.GroupIndicesSpec | src/lib/utils/diagram-drawer-advanced.tsx:299-307 | the indices ascend strictly, so each is listed once, and every piece of the group is listed |
| EdgeRouting.JoinInputsExactly | src/lib/utils/diagram-drawer-advanced.tsx:299-310 | the collected ends are the last points of the grouped Source pieces, one per piece, in item order, and nothing else |
| EdgeRouting.SplitInputsExactly | src/lib/utils/diagram-drawer-advanced.tsx:364-373 | the collected starts are the first points of the grouped Target pieces, one per piece, in item order, and nothing else |
| EdgeRouting.JoinInputsMembers | src/lib/utils/diagram-drawer-advanced.tsx:309 | every grouped Source piece contributes its last point |
| EdgeRouting.SplitInputs | src/lib/utils/diagram-drawer-advanced.tsx:364-373 | the collected starts are no more than the pieces |
| EdgeRouting.SplitInputsEmpty | src/lib/utils/diagram-drawer-advanced.tsx:364-372 | there are no starts exactly when no Target piece of the rank and flow exists |
| EdgeRouting.SplitInputsMembers | src/lib/utils/diagram-drawer-advanced.tsx:373 | every grouped Target piece contributes its first point |
| EdgeRouting.JoinFlow | src/lib/utils/diagram-drawer-advanced.tsx:298-312 | a joint keeps the number of pieces and every piece's two points or more |
| EdgeRouting.SplitFlow | src/lib/utils/diagram-drawer-advanced.tsx:363-375 | a split keeps the number of pieces and every piece's two points or more |
| EdgeRouting.JoinFlows | src/lib/utils/diagram-drawer-advanced.tsx:298-312 | the joints of a gap keep the number of pieces and their shape |
| EdgeRouting.SplitFlows | src/lib/utils/diagram-drawer-advanced.tsx:363-375 | the splits of a gap keep the number of pieces and their shape |
| EdgeRouting.JoinFlowGrows | src/lib/utils/diagram-drawer-advanced.tsx:311 | a joint only adds a point to pieces and keeps ids and layers unique |
| EdgeRouting.SplitFlowGrows | src/lib/utils/diagram-drawer-advanced.tsx:374 | a split only adds a point to pieces and keeps ids and layers unique |
| EdgeRouting.JoinFlowsGrows | src/lib/utils/diagram-drawer-advanced.tsx:298-312 | the joints of a gap only add points |
| EdgeRouting.JoinFlowsUnique | src/lib/utils/diagram-drawer-advanced.tsx:298-312 | the joints of a gap keep ids and layers unique |
| EdgeRouting.SplitFlowsGrows | src/lib/utils/diagram-drawer-advanced.tsx:363-375 | the splits of a gap only add points |
| EdgeRouting.SplitFlowsUnique | src/lib/utils/diagram-drawer-advanced.tsx:363-375 | the splits of a gap keep ids and layers unique |
| EdgeRouting.JoinFlowEffect | src/lib/utils/diagram-drawer-advanced.tsx:298-312 | see the paragraph after this table |
| EdgeRouting.SplitFlowEffect | src/lib/utils/diagram-drawer-advanced.tsx:363-375 | the mirror of the joint: the centroid of the grouped Target pieces' starts is prepended to each of them; all other pieces are untouched |
| EdgeRouting.JoinFlowUntouched | src/lib/utils/diagram-drawer-advanced.tsx:301 | a joint leaves every piece outside its rank, flow and Source layer as it was |
| EdgeRouting.SplitFlowUntouched | src/lib/utils/diagram-drawer-advanced.tsx:366 | a split leaves every piece outside its rank, flow and Target layer as it was |
| EdgeRouting.JoinFlowKeepsOthers | src/lib/utils/diagram-drawer-advanced.tsx:298-312 | the joint of one flow keeps another flow's common end |
| EdgeRouting.SplitFlowKeepsOthers | src/lib/utils/diagram-drawer-advanced.tsx:363-375 | the split of one flow keeps another flow's common start |
| EdgeRouting.JoinFlowShares | src/lib/utils/diagram-drawer-advanced.tsx:308-311 | after its joint, a flow's Source pieces end at one point |
| EdgeRouting.SplitFlowShares | src/lib/utils/diagram-drawer-advanced.tsx:373-374 | after its split, a flow's Target pieces start at one point |
| EdgeRouting.JoinFlowsConverge | src/lib/utils/diagram-drawer-advanced.tsx:298-312 | after all joints of a gap, each staged flow's Source pieces end at one point |
| EdgeRouting.SplitFlowsConverge | src/lib/utils/diagram-drawer-advanced.tsx:363-375 | after all splits of a gap, each staged flow's Target pieces start at one point |
| EdgePoints.RankNodeMapFits | src/lib/utils/diagram-drawer-advanced.tsx:176-194 | the ranks computed hold graph nodes, are non-empty and have rank j at index j |
| EdgePoints.GapOf | src/lib/utils/diagram-drawer-advanced.tsx:249-251 | the four staging widths span the gap from the rank's right edge to the next rank's left edge |
| EdgePoints.TargetPartGrows | src/lib/utils/diagram-drawer-advanced.tsx:315-360 | the Target part keeps every piece, adds declared Target pieces of the rank, keeps keys unique |
| EdgePoints.SourceLayerWellFormed | src/lib/utils/diagram-drawer-advanced.tsx:252-295 | after the Source layer every piece has two points or more |
| EdgePoints.TargetPartWellFormed | src/lib/utils/diagram-drawer-advanced.tsx:315-360 | after the Target layer every piece has two points or more |
| EdgePoints.GapItems | src/lib/utils/diagram-drawer-advanced.tsx:221-376 | one pass of the rank loop leaves every piece with two points or more |
| EdgePoints.GapItemsGrows | src/lib/utils/diagram-drawer-advanced.tsx:221-376 | one pass keeps every piece, with all its points |
| EdgePoints.GapItemsKnown | src/lib/utils/diagram-drawer-advanced.tsx:221-376 | after one pass every piece still belongs to a declared flow |
| EdgePoints.GapItemsUnique | src/lib/utils/diagram-drawer-advanced.tsx:221-376 | after one pass ids and layers are still unique |
| EdgePoints.EdgePointsUpTo | src/lib/utils/diagram-drawer-advanced.tsx:220-377 | after any number of passes every piece has two points or more |
| EdgePoints.EdgePointsUpToKnown | src/lib/utils/diagram-drawer-advanced.tsx:220-377 | after any number of passes every piece belongs to a declared flow |
| EdgePoints.EdgePointsUpToUnique | src/lib/utils/diagram-drawer-advanced.tsx:220-377 | after any number of passes no two pieces share id and layer |
| EdgePoints.AllEdgePoints | src/lib/utils/diagram-drawer-advanced.tsx:217-220 | the routed pieces have two points or more; with no ranks there are none |
| EdgePoints.AllEdgePointsKeys | src/lib/utils/diagram-drawer-advanced.tsx:217-378 | the routed pieces belong to declared flows and have unique ids per layer |
| EdgeRoutes.SourceStepRoutes | src/lib/utils/diagram-drawer-advanced.tsx:259-292 | the step for an out-edge of a declared flow leaves a Source piece with its id through its exit point |
| EdgeRoutes.SourceEdgesRoute | src/lib/utils/diagram-drawer-advanced.tsx:259-293 | after a node's first m Source steps, each of those edges is routed |
| EdgeRoutes.TargetStepRoutes | src/lib/utils/diagram-drawer-advanced.tsx:323-357 | the step for an in-edge of a declared flow leaves a Target piece with its id through its entry point |
| EdgeRoutes.TargetEdgesRoute | src/lib/utils/diagram-drawer-advanced.tsx:323-357 | after a node's first m Target steps, each of those edges is routed |
| EdgeRoutes.NodeExitsRouted | src/lib/utils/diagram-drawer-advanced.tsx:252-295 | a node's Source segments route all its unique-flow out-edges |
| EdgeRoutes.NodeEntriesRouted | src/lib/utils/diagram-drawer-advanced.tsx:316-359 | a node's Target segments route all its unique-flow in-edges |
| EdgeRoutes.SourceLayerRoutes | src/lib/utils/diagram-drawer-advanced.tsx:252-295 | after the Source layer every node of the rank has its exits routed |
| EdgeRoutes.TargetLayerRoutes | src/lib/utils/diagram-drawer-advanced.tsx:315-360 | after the Target layer every node of the next rank has its entries routed |
| EdgeRoutes.FindIndexed | src/lib/utils/diagram-drawer-advanced.tsx:221-223 | in the computed ranks, rank r is found at index r |
| EdgeRoutes.GapExitsRoute | src/lib/utils/diagram-drawer-advanced.tsx:221-312 | a pass over a gap routes the exits of the rank's nodes |
| EdgeRoutes.GapEntriesRoute | src/lib/utils/diagram-drawer-advanced.tsx:315-375 | a pass over a gap routes the entries of the next rank's nodes |
| EdgeRoutes.ExitsRoutedUpTo | src/lib/utils/diagram-drawer-advanced.tsx:220-377 | after n passes the nodes of ranks 0..n-1 have their exits routed |
| EdgeRoutes.EntriesRoutedUpTo | src/lib/utils/diagram-drawer-advanced.tsx:220-377 | after n passes the nodes of ranks 1..n have their entries routed |
| EdgeRoutes.AllEdgesRouted | src/lib/utils/diagram-drawer-advanced.tsx:217-378 | every out-edge of a declared flow leaving a rank other than the last has its Source piece through its exit point; every in-edge entering a rank other than the first has its Target piece through its entry point |
| Scene.NodeSizeRules | src/lib/utils/diagram-drawer-advanced.tsx:155-159 | an undeclared graph node is a 10×10 joint; a declared one takes its rendered size, or 200×100 without a render function |
| Scene.NodeItems | src/lib/utils/diagram-drawer-advanced.tsx:154 | one item per graph node |
| Scene.NodeItemsSpec | src/lib/utils/diagram-drawer-advanced.tsx:153-174 | item i is node i, sized by the node rules and centred on its layout position; it has z-index 8 and is clickable and hoverable |
| Scene.DefsItems | src/lib/utils/diagram-drawer-advanced.tsx:390 | one definition item per flow |
| Scene.DefsItemsSpec | src/lib/utils/diagram-drawer-advanced.tsx:389-441 | item i defines flow i's arrow markers, covers the scene, has z-index 0 and is not clickable |
| Scene.Shift | src/lib/utils/diagram-drawer-advanced.tsx:463 | moving into the item's frame keeps the number of points |
| Scene.EdgeItemDrawn | src/lib/utils/diagram-drawer-advanced.tsx:445-446 | a piece is drawn if and only if its flow is declared, as item `edge-<id>` at z-index 2; only a Target piece gets the flow's arrow head |
| Scene.EdgeItemFits | src/lib/utils/diagram-drawer-advanced.tsx:452-459 | the polyline, placed at the item's top-left corner, runs through the piece's points; every point keeps the arrow width from the item's border, and the points touch that margin on all four sides |
| Scene.EdgeItemInside | src/lib/utils/diagram-drawer-advanced.tsx:452-463 | with a non-negative arrow width every polyline point lies inside the item |
| Scene.EdgeItemsAllDrawn | src/lib/utils/diagram-drawer-advanced.tsx:443-486 | when every piece's flow is declared, there is one edge item per piece, in order |
| Scene.EdgeItemsFromPieces | src/lib/utils/diagram-drawer-advanced.tsx:443-486 | every edge item draws some piece, and there are no more items than pieces |
| Drawer.NodeIdsInGraph | src/lib/utils/diagram-drawer-advanced.tsx:154 | every node the layout lists has a layout |
| Drawer.Pieces | src/lib/utils/diagram-drawer-advanced.tsx:217-378 | the pieces of a layout have two points or more |
| Drawer.NoNodesNoRanks | src/lib/utils/diagram-drawer-advanced.tsx:217-222 | an empty layout has no ranks and no pieces |
| Drawer.PiecesKnown | src/lib/utils/diagram-drawer-advanced.tsx:264-291 | every routed piece belongs to a declared flow and keys are unique |
| Drawer.SceneNodesFirst | src/lib/utils/diagram-drawer-advanced.tsx:499 | the scene starts with one node item per graph node, in the layout's order |
| Drawer.SceneDefsNext | src/lib/utils/diagram-drawer-advanced.tsx:500 | the flows' definition items follow the node items, one per flow, in order |
| Drawer.SceneDefAt | src/lib/utils/diagram-drawer-advanced.tsx:500 | flow i's definition item sits right after the node items |
| Drawer.SceneEdgesLast | src/lib/utils/diagram-drawer-advanced.tsx:501-502 | when every piece's flow is declared, the scene ends with one item per piece, in order |
| Drawer.SceneEdgeAt | src/lib/utils/diagram-drawer-advanced.tsx:502 | piece i is drawn at its place after the node and definition items |
| Drawer.SceneEdgeSlot | src/lib/utils/diagram-drawer-advanced.tsx:502 | the edge items follow the node and definition items |
| Drawer.SceneEmpty | src/lib/utils/diagram-drawer-advanced.tsx:506-507 | the scene is empty if and only if there are no graph nodes, no flows and no pieces |
| Drawer.MarkersResolve | src/lib/utils/diagram-drawer-advanced.tsx:468 | every arrow head an edge item asks for is defined by a definition item of the same scene |
| Drawer.EdgeMarkersDefined | src/lib/utils/diagram-drawer-advanced.tsx:396 | the marker an edge item asks for is its flow's marker definition |
| Drawer.DiagramDrawer.constructor | src/lib/utils/diagram-drawer-advanced.tsx:90-101 | a new drawer has empty scene, ranks and pieces, and scene size 0×0 |
| Drawer.DiagramDrawer.MakeSceneSize | src/lib/utils/diagram-drawer-advanced.tsx:488-493 | the scene size is the layout's size, 0 where the layout has none; nothing else changes |
| Drawer.DiagramDrawer.MakeNodes | src/lib/utils/diagram-drawer-advanced.tsx:153-174 | one node item per graph node is appended to the scene; nothing else changes |
| Drawer.DiagramDrawer.MakeFlows | src/lib/utils/diagram-drawer-advanced.tsx:389-441 | one definition item per flow is appended; nothing else changes |
| Drawer.DiagramDrawer.MakeRankNodeMap | src/lib/utils/diagram-drawer-advanced.tsx:176-194 | the loop fills `rankNodeMap` with the ranks and `numRanks` with their count |
| Drawer.DiagramDrawer.MakeEdgePoints | src/lib/utils/diagram-drawer-advanced.tsx:217-378 | the fields hold the ranks and the routed pieces after `numRanks - 1` passes |
| Drawer.DiagramDrawer.MakeEdges | src/lib/utils/diagram-drawer-advanced.tsx:443-486 | one item per piece of a declared flow is appended, in order |
| Drawer.DiagramDrawer.MakeDiagram | src/lib/utils/diagram-drawer-advanced.tsx:495-503 | from an empty drawer, the fields end up holding the scene, size, ranks and pieces of the layout |
| Drawer.DiagramDrawer.Diagram | src/lib/utils/diagram-drawer-advanced.tsx:505-514 | the scene is built only while it is empty, and afterwards nothing changes; the scene and size handed out are those of the layout; the flow-to-edge map is always empty |
| DiagramReducer.EarliestStartSpec | src/lib/components/DiagramReducer/diagram-reducer.tsx:65-68 | no start exactly when no diagram has one; otherwise a start of some diagram, at most every start |
| DiagramReducer.LatestEndSpec | src/lib/components/DiagramReducer/diagram-reducer.tsx:69-71 | no end exactly when no diagram has one; otherwise an end of some diagram, at least every end |
| DiagramReducer.DiagramReducerInit | src/lib/components/DiagramReducer/diagram-reducer.tsx:48-87 | see the paragraph after this table |
| DiagramTypes.IsBetweenOrderFree | src/lib/components/DiagramReducer/diagram-reducer.tsx:95 | `isBetween` with "[]" holds exactly on the closed interval from the smaller bound to the larger, in either order |
| DiagramReducer.FutureOpenWindowActive | src/lib/components/DiagramReducer/diagram-reducer.tsx:107 | a diagram starting after now with no end is active exactly from now to its start |
| DiagramReducer.FindActiveSpec | src/lib/components/DiagramReducer/diagram-reducer.tsx:95 | the first diagram whose closed window, in either order, contains the date, a missing bound being now; none when no window does |
| DiagramReducer.FindAndCreateDiagram | src/lib/components/DiagramReducer/diagram-reducer.tsx:89-114 | the path-walk loop draws exactly the diagram resolved from the forest, date and path, or nothing |
| DiagramReducer.AbsentStaysAbsent | src/lib/components/DiagramReducer/diagram-reducer.tsx:97 | once no diagram is resolved, none is for the rest of the path |
| DiagramReducer.WalkAppend | src/lib/components/DiagramReducer/diagram-reducer.tsx:96-111 | walking one more id is one more hop |
| DiagramReducer.ResolveIgnoresRoot | src/lib/components/DiagramReducer/diagram-reducer.tsx:96-97 | the first path element never affects the result |
| DiagramReducer.ResolveRoot | src/lib/components/DiagramReducer/diagram-reducer.tsx:95-97 | a one-element path resolves to the first active top-level diagram |
| DiagramReducer.ResolveExtend | src/lib/components/DiagramReducer/diagram-reducer.tsx:96-111 | extending a path by an id performs exactly one more hop |
| DiagramReducer.CollapseAdjacentProperties | src/lib/components/DiagramReducer/diagram-reducer.tsx:136-141 | see the paragraph after this table |
| DiagramReducer.CollapseAdjacentFixedPoints | src/lib/components/DiagramReducer/diagram-reducer.tsx:136-141 | the collapse leaves a path unchanged if and only if it has no adjacent duplicates |
| DiagramReducer.CollapseAdjacentIdempotent | src/lib/components/DiagramReducer/diagram-reducer.tsx:136-141 | collapsing twice is collapsing once |
| DiagramReducer.ReduceConsistent | src/lib/components/DiagramReducer/diagram-reducer.tsx:116-172 | every transition keeps the fixed part and shows the diagram resolved from its path and date |
| DiagramReducer.MoveDownEffect | src/lib/components/DiagramReducer/diagram-reducer.tsx:118-131 | MoveDown appends the id unchecked, keeps the date, and shows the old diagram after one more hop |
| DiagramReducer.MoveUpToNodeEffect | src/lib/components/DiagramReducer/diagram-reducer.tsx:134-153 | MoveUpToNode ignores its payload; the path never grows and keeps its first element; the date stays; applying it twice equals once |
| DiagramReducer.ChangeDateRoundTrip | src/lib/components/DiagramReducer/diagram-reducer.tsx:156-168 | changing the date away and back restores a consistent state exactly |
| DiagramReducer.InitConsistency | src/lib/components/DiagramReducer/diagram-reducer.tsx:73-85 | the initial state shows the resolved diagram if and only if the forest is empty or its first diagram is the one active at the global start |
| DateTimeHandler.FindIndex | src/lib/components/DateTimeHandler/date-time-handler.tsx:52-56 | `findIndex` gives the first frame whose closed window contains the date, or -1 when none does |
| DateTimeHandler.SelectionShowsFirstContaining | src/lib/components/DateTimeHandler/date-time-handler.tsx:51-63 | after `\|\| 0` the index is still the first containing frame, and -1 (no frame shown) exactly when none contains the date |
| DateTimeHandler.TimeFramesMatchDiagrams | src/lib/components/DateTimeHandler/date-time-handler.tsx:36-44 | one frame per diagram with its id, a missing bound replaced by the global bound |
| DateTimeHandler.SortByStartProperties | src/lib/components/DateTimeHandler/date-time-handler.tsx:32-35 | the sorted diagrams are a permutation, ascending by raw start date (missing = now), ties in input order |
| DateTimeHandler.FramesAscendingWhenStartsDefined | src/lib/components/DateTimeHandler/date-time-handler.tsx:32-44 | when every diagram has a start, the frames are ascending by start |
| DateTimeHandler.FramesNotAscendingWithMissingStart | src/lib/components/DateTimeHandler/date-time-handler.tsx:32-44 | a diagram without a start sorts at now, but its frame starts at the global start, so the frames need not ascend |
| DateTimeHandler.DateTimeHandler.constructor | src/lib/components/DateTimeHandler/date-time-handler.tsx:23-27 | before any effect or date change: no date, no frames, index 0 |
| DateTimeHandler.DateTimeHandler.BuildTimeFrames | src/lib/components/DateTimeHandler/date-time-handler.tsx:31-46 | the caller's array is sorted in place by start date, and the frames are built from the sorted array |
| DateTimeHandler.DateTimeHandler.HandleDateChange | src/lib/components/DateTimeHandler/date-time-handler.tsx:48-61 | the date is set and the index becomes the selected frame's index, -1 included |
| Minimap.ClampKeepsViewInside | src/lib/components/Minimap/minimap.tsx:21-28 | when the view fits, the result lies in [w/2, W−w/2] × [h/2, H−h/2] |
| Minimap.ClampFixesExactlyTheAllowedRegion | src/lib/components/Minimap/minimap.tsx:26-27 | a centre inside the allowed region is returned unchanged; when the view fits, only such centres are |
| Minimap.ClampIdempotent | src/lib/components/Minimap/minimap.tsx:21-28 | clamping twice is clamping once |
| Minimap.OversizedViewPinsToHalfView | src/lib/components/Minimap/minimap.tsx:22-27 | a view wider (taller) than the box pins x (y) to half the view's width (height) |
| Minimap.AxesIndependent | src/lib/components/Minimap/minimap.tsx:26-27 | each result coordinate depends only on that axis's inputs |

The longer rows:

- `EdgeRouting.AddSegmentSpec`:
  - adding a segment keeps every piece, and a piece with the id and layer then passes through both
    ends;
  - a new piece `[start, end]` is created exactly when none had that id and layer, so no id and
    layer is ever duplicated.
- `EdgeRouting.SidePointsEvenlySpaced`:
  - exit points sit on the right side of the node and entry points on the left;
  - an exit point and the entry point of the same index are level;
  - for a node of positive height the points are strictly between its top and bottom;
  - consecutive points are one (n+1)-th of the height apart.
- `EdgeRouting.JoinFlowEffect`:
  - pieces outside the rank, the flow or the Source layer are untouched;
  - each grouped piece keeps its points and gains one more;
  - that point is the centroid of the collected ends (`JoinInputsExactly` says which they are),
    so it is the same for all grouped pieces and lies in the bounding box of those ends;
  - with no grouped pieces nothing changes.
- `DiagramReducer.DiagramReducerInit`:
  - the global bounds are the earliest start and the latest end, or now when there is none;
  - the current date is the global start;
  - for an empty forest the path is `[""]` and no diagram is shown;
  - otherwise the path is `[forest[0].id]` and the shown diagram is drawn from `forest[0]`,
    whatever the date.
- `DiagramReducer.CollapseAdjacentProperties`: the collapsed path
  - has no adjacent duplicates;
  - is never longer;
  - keeps the first and last elements;
  - holds the same ids.

## Left out

- The layered layout (`makeGraph`, `makeAdditionalFlowNodes` and the call into the layout
  library, src/lib/utils/diagram-drawer-advanced.tsx:124-151). This is a foreign library. Its
  result is the `Graph` the drawer is constructed with. The edges' `from`/`to` fields that
  `makeAdditionalFlowNodes` reads are therefore not modelled either.
- JSX and SVG markup. Each scene item keeps only the data its markup is built from: sizes,
  positions, z-index, the node id, the markers with their sizes and colours, the polyline points
  and stroke, and the marker decision. The marker path geometry is not modelled.
- The `pointSum` and `pointScale` helpers. `src/lib/utils/geometry.ts` is not part of this model.
  `Geometry.Centroid` assumes that `pointScale(sum, points.length)` (line 386) divides each
  coordinate of the sum by the count, which is what `calcAveragePoint` is named for. This is an
  assumption, not read from the code. Taken by its name alone, the helper would multiply by the
  count instead.
- NaN. Floating-point arithmetic is modelled as exact real arithmetic. The one place where the
  drawer produces NaN is recorded under Findings. The centroid of an empty list is `None`; the
  drawer never uses it.
- The unused helpers `compareNodeArrays` and `sortNodesByYCoordinate`, and the never-filled
  `additionalFlowNodes` and `additionalFlowNodesMap` fields.
- The drawer that the reducer and the time-line handler call. `src/lib/utils/diagram-drawer.tsx`
  is not part of this model. Its result is an opaque `DiagramOut`: the diagram and configuration
  it is drawn from.
- dayjs. Dates are integers, and the current time is the parameter `now`. Invalid date strings
  are not modelled.
- DiagramReducer.Active and DateTimeHandler.Contains assume that isBetween accepts its bounds in
  either order, as dayjs 1.10 and later do. An older plugin would treat a reversed window as
  empty. A reversed window arises for a diagram that starts after now and has no end.
- React rendering and hooks: the `Timeline`/`Map`/`Scene` output of the time-line handler, and
  the minimap's mouse, drag and effect handlers. Only `calcCenterPointWithinBoundaryBox` is
  modelled from src/lib/components/Minimap/minimap.tsx.
- `src/lib/components/Scene/scene.tsx`, `src/lib/hooks/usePan.ts`,
  `src/lib/components/FlowDiagramExplorer/flow-diagram-explorer.tsx` and `src/demo/App.tsx`.
  These are rendering, mouse handling and wiring. The default configuration of
  flow-diagram-explorer.tsx is kept as the constant `DiagramTypes.DefaultDiagramConfig`.
- DateTimeHandler.DateTimeHandler.BuildTimeFrames: the frames carry the opaque drawn diagram, not
  a built scene, for the same reason as the reducer.

## Findings

| source | as written | input that shows it | evidently intended | confidence | as-written member | corrected member |
|---|---|---|---|---|---|---|
| src/lib/utils/diagram-drawer-advanced.tsx:330-338 | The Target start column is `nextRankXPosition - ((flowIndex + 1) / flows.length) * delta`, where `flows` are the flows leaving the current rank. | A rank none of whose nodes has a named out-edge, followed by a rank with a node whose in-edge belongs to a declared flow. `flows.length` is then 0, the fraction is 0/0, and the Target piece starts at x = NaN. | A gap that stages no flow puts the Target start on the next rank's left edge, with fraction 0. Every fraction then lies in [0, 1] and agrees with the code wherever the code yields a number. | not executed; the layout must produce such a rank pair | EdgeRouting.StagingFractionUndefined | EdgeRouting.StagingFractionRange |
