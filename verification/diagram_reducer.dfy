/** The navigation state machine: which diagram of a forest of time-windowed,
    nested flow diagrams is visible for a drill-down path and a date, and how
    the three navigation actions change the path, the date and the visible
    diagram.

    The current time that the date library substitutes for a missing date is
    the parameter `now`. */
module DiagramReducer {
  import opened DiagramTypes

  datatype Fixed = Fixed(
    flowDiagrams: seq<FlowDiagram>,
    diagramConfig: DiagramConfig,
    globalStartDate: int,
    globalEndDate: int)

  datatype State = State(
    fixed: Fixed,
    currentPath: seq<string>,
    currentDate: int,
    currentDiagram: Option<DiagramOut>)

  datatype Action = MoveDown(id: string) | MoveUpToNode(nodeId: string) | ChangeDate(date: int)

  // ---------------------------------------------------------------------------
  // Global date bounds

  /** One step of the initialisation loop: a defined start replaces the
      running value when there is none yet or when it is earlier. */
  function Earlier(acc: Option<int>, d: Option<int>): Option<int> {
    if d.Some? && (acc.None? || d.value < acc.value) then d else acc
  }

  function Later(acc: Option<int>, d: Option<int>): Option<int> {
    if d.Some? && (acc.None? || d.value > acc.value) then d else acc
  }

  /** The earliest defined start date of a list of diagrams, if any. */
  function EarliestStart(diagrams: seq<FlowDiagram>): Option<int> {
    if diagrams == [] then None
    else Earlier(EarliestStart(diagrams[..|diagrams| - 1]), diagrams[|diagrams| - 1].startDate)
  }

  /** None exactly when no diagram has a start date; otherwise one of the
      start dates, and no later than any of them. */
  lemma {:induction false} EarliestStartSpec(diagrams: seq<FlowDiagram>)
    ensures var r := EarliestStart(diagrams);
      && (r.None? <==> forall i :: 0 <= i < |diagrams| ==> diagrams[i].startDate.None?)
      && (r.Some? ==> exists i :: 0 <= i < |diagrams| && diagrams[i].startDate == r)
      && (r.Some? ==> forall i :: 0 <= i < |diagrams| && diagrams[i].startDate.Some? ==> r.value <= diagrams[i].startDate.value)
  {
    if diagrams != [] {
      var prefix := diagrams[..|diagrams| - 1];
      EarliestStartSpec(prefix);
      assert forall i :: 0 <= i < |prefix| ==> prefix[i] == diagrams[i];
    }
  }

  /** The latest defined end date of a list of diagrams, if any. */
  function LatestEnd(diagrams: seq<FlowDiagram>): Option<int> {
    if diagrams == [] then None
    else Later(LatestEnd(diagrams[..|diagrams| - 1]), diagrams[|diagrams| - 1].endDate)
  }

  /** None exactly when no diagram has an end date; otherwise one of the
      end dates, and no earlier than any of them. */
  lemma {:induction false} LatestEndSpec(diagrams: seq<FlowDiagram>)
    ensures var r := LatestEnd(diagrams);
      && (r.None? <==> forall i :: 0 <= i < |diagrams| ==> diagrams[i].endDate.None?)
      && (r.Some? ==> exists i :: 0 <= i < |diagrams| && diagrams[i].endDate == r)
      && (r.Some? ==> forall i :: 0 <= i < |diagrams| && diagrams[i].endDate.Some? ==> r.value >= diagrams[i].endDate.value)
  {
    if diagrams != [] {
      var prefix := diagrams[..|diagrams| - 1];
      LatestEndSpec(prefix);
      assert forall i :: 0 <= i < |prefix| ==> prefix[i] == diagrams[i];
    }
  }

  /** The initial state: global bounds from all top-level diagrams, the date
      at the global start, the path holding the first diagram's id, and the
      first diagram laid out whatever its window. An empty forest gives the
      path [""] and no diagram. */
  method DiagramReducerInit(flowDiagrams: seq<FlowDiagram>, diagramConfig: DiagramConfig, now: int) returns (state: State)
    ensures state.fixed == Fixed(flowDiagrams, diagramConfig,
                                 EarliestStart(flowDiagrams).GetOr(now), LatestEnd(flowDiagrams).GetOr(now))
    ensures state.currentDate == state.fixed.globalStartDate
    ensures |flowDiagrams| == 0 ==> state.currentPath == [""] && state.currentDiagram == None
    ensures |flowDiagrams| > 0 ==>
      state.currentPath == [flowDiagrams[0].id] && state.currentDiagram == Some(Drawn(flowDiagrams[0], diagramConfig))
  {
    var startDate: Option<int> := None;
    var endDate: Option<int> := None;
    var id := "";
    var diagram: Option<DiagramOut> := None;
    if |flowDiagrams| > 0 {
      id := flowDiagrams[0].id;
      startDate := flowDiagrams[0].startDate;
      endDate := flowDiagrams[0].endDate;
      var i := 0;
      while i < |flowDiagrams|
        invariant 0 <= i <= |flowDiagrams|
        invariant startDate == if i == 0 then flowDiagrams[0].startDate else EarliestStart(flowDiagrams[..i])
        invariant endDate == if i == 0 then flowDiagrams[0].endDate else LatestEnd(flowDiagrams[..i])
      {
        var d := flowDiagrams[i];
        if d.startDate.Some? && (startDate.None? || d.startDate.value < startDate.value) {
          startDate := d.startDate;
        }
        if d.endDate.Some? && (endDate.None? || d.endDate.value > endDate.value) {
          endDate := d.endDate;
        }
        assert flowDiagrams[..i + 1][..i] == flowDiagrams[..i];
        i := i + 1;
      }
      assert flowDiagrams[..i] == flowDiagrams;
      diagram := Some(Drawn(flowDiagrams[0], diagramConfig));
    }
    state := State(
      Fixed(flowDiagrams, diagramConfig, startDate.GetOr(now), endDate.GetOr(now)),
      [id],
      startDate.GetOr(now),
      diagram);
  }

  // ---------------------------------------------------------------------------
  // Resolution of the visible diagram

  /** The closed window between start and end contains `date`; a missing
      bound is `now`. */
  predicate Active(d: FlowDiagram, date: int, now: int) {
    IsBetween(date, d.startDate.GetOr(now), d.endDate.GetOr(now))
  }

  /** A diagram that starts in the future and has no end has the window
      [now, start], given in reverse: it is active exactly on those dates. */
  lemma FutureOpenWindowActive(d: FlowDiagram, date: int, now: int)
    requires d.startDate.Some? && d.startDate.value > now && d.endDate.None?
    ensures Active(d, date, now) <==> now <= date <= d.startDate.value
  {
  }

  /** The first candidate whose window contains `date`. */
  function FindActive(candidates: seq<FlowDiagram>, date: int, now: int): Option<FlowDiagram> {
    if candidates == [] then None
    else if Active(candidates[0], date, now) then Some(candidates[0])
    else FindActive(candidates[1..], date, now)
  }

  /** None exactly when no candidate is active; otherwise the candidate at
      some index, active, with no active candidate before it. */
  lemma {:induction false} FindActiveSpec(candidates: seq<FlowDiagram>, date: int, now: int)
    ensures var r := FindActive(candidates, date, now);
      && (r.None? <==> forall i :: 0 <= i < |candidates| ==> !Active(candidates[i], date, now))
      && (r.Some? ==> exists i :: 0 <= i < |candidates| && candidates[i] == r.value && Active(r.value, date, now)
                                  && forall j :: 0 <= j < i ==> !Active(candidates[j], date, now))
  {
    if candidates != [] && !Active(candidates[0], date, now) {
      var r := FindActive(candidates[1..], date, now);
      FindActiveSpec(candidates[1..], date, now);
      assert forall i :: 0 < i < |candidates| ==> candidates[i] == candidates[1..][i - 1];
      if r.Some? {
        var i :| 0 <= i < |candidates[1..]| && candidates[1..][i] == r.value && Active(r.value, date, now)
                 && forall j :: 0 <= j < i ==> !Active(candidates[1..][j], date, now);
        assert candidates[i + 1] == r.value;
      }
    }
  }

  /** A single subdiagram is treated as a one-element list. */
  function Subdiagrams(s: Subdiagram): seq<FlowDiagram> {
    match s
    case NoSubdiagram => []
    case Single(d) => [d]
    case Many(ds) => ds
  }

  /** One hop of the path walk: descend into the node's subdiagram active at
      `date` when the current diagram has such a node with a subdiagram,
      otherwise keep the current diagram. An absent diagram stays absent. */
  function WalkStep(current: Option<FlowDiagram>, id: string, date: int, now: int): Option<FlowDiagram> {
    if current.None? then None
    else
      match FindNode(current.value.nodes, id)
      case Some(node) =>
        if node.subdiagram != NoSubdiagram then FindActive(Subdiagrams(node.subdiagram), date, now) else current
      case None => current
  }

  function Walk(current: Option<FlowDiagram>, ids: seq<string>, date: int, now: int): Option<FlowDiagram> {
    if ids == [] then current
    else WalkStep(Walk(current, ids[..|ids| - 1], date, now), ids[|ids| - 1], date, now)
  }

  /** The diagram visible for a path and a date: the first top-level diagram
      active at the date, then one hop per path element after the first. */
  function Resolve(flowDiagrams: seq<FlowDiagram>, date: int, path: seq<string>, now: int): Option<FlowDiagram> {
    Walk(FindActive(flowDiagrams, date, now), if path == [] then [] else path[1..], date, now)
  }

  method FindAndCreateDiagram(flowDiagrams: seq<FlowDiagram>, date: int, path: seq<string>,
                              diagramConfig: DiagramConfig, now: int) returns (diagram: Option<DiagramOut>)
    ensures diagram == DrawOption(Resolve(flowDiagrams, date, path, now), diagramConfig)
  {
    var first := FindActive(flowDiagrams, date, now);
    var currentDiagram := first;
    var index := 0;
    while index < |path|
      invariant 0 <= index <= |path|
      invariant currentDiagram == Walk(first, if index == 0 then [] else path[1..index], date, now)
    {
      if index > 0 && currentDiagram.Some? {
        var node := FindNode(currentDiagram.value.nodes, path[index]);
        if node.Some? && node.value.subdiagram != NoSubdiagram {
          var subdiagrams: seq<FlowDiagram>;
          match node.value.subdiagram {
            case Many(ds) => subdiagrams := ds;
            case Single(d) => subdiagrams := [d];
          }
          currentDiagram := FindActive(subdiagrams, date, now);
        }
      }
      assert index > 0 ==> path[1..index + 1][..index - 1] == path[1..index];
      index := index + 1;
    }
    assert path != [] ==> path[1..index] == path[1..];
    diagram := if currentDiagram.Some? then Some(Drawn(currentDiagram.value, diagramConfig)) else None;
  }

  /** An absent diagram stays absent for the rest of the walk. */
  lemma {:induction false} AbsentStaysAbsent(ids: seq<string>, date: int, now: int)
    ensures Walk(None, ids, date, now) == None
  {
    if ids != [] {
      AbsentStaysAbsent(ids[..|ids| - 1], date, now);
    }
  }

  lemma {:induction false} WalkAppend(current: Option<FlowDiagram>, ids: seq<string>, id: string, date: int, now: int)
    ensures Walk(current, ids + [id], date, now) == WalkStep(Walk(current, ids, date, now), id, date, now)
  {
    assert (ids + [id])[..|ids|] == ids;
  }

  /** The walk never looks at the first path element. */
  lemma ResolveIgnoresRoot(flowDiagrams: seq<FlowDiagram>, date: int, a: string, b: string, rest: seq<string>, now: int)
    ensures Resolve(flowDiagrams, date, [a] + rest, now) == Resolve(flowDiagrams, date, [b] + rest, now)
  {
    assert ([a] + rest)[1..] == rest == ([b] + rest)[1..];
  }

  /** A one-element path resolves to the first active top-level diagram. */
  lemma ResolveRoot(flowDiagrams: seq<FlowDiagram>, date: int, root: string, now: int)
    ensures Resolve(flowDiagrams, date, [root], now) == FindActive(flowDiagrams, date, now)
  {
    assert [root][1..] == [];
  }

  /** Extending a non-empty path by one id performs exactly one more hop. */
  lemma ResolveExtend(flowDiagrams: seq<FlowDiagram>, date: int, path: seq<string>, id: string, now: int)
    requires path != []
    ensures Resolve(flowDiagrams, date, path + [id], now) == WalkStep(Resolve(flowDiagrams, date, path, now), id, date, now)
  {
    assert (path + [id])[1..] == path[1..] + [id];
    WalkAppend(FindActive(flowDiagrams, date, now), path[1..], id, date, now);
  }

  // ---------------------------------------------------------------------------
  // Transitions

  /** The reduce in MoveUpToNode: drop every id equal to the one just kept. */
  function CollapseAdjacent(path: seq<string>): seq<string> {
    if path == [] then []
    else
      var reduced := CollapseAdjacent(path[..|path| - 1]);
      var id := path[|path| - 1];
      if reduced == [] || reduced[|reduced| - 1] != id then reduced + [id] else reduced
  }

  predicate NoAdjacentDuplicates(path: seq<string>) {
    forall i :: 0 < i < |path| ==> path[i - 1] != path[i]
  }

  lemma {:induction false} CollapseAdjacentProperties(path: seq<string>)
    ensures NoAdjacentDuplicates(CollapseAdjacent(path))
    ensures |CollapseAdjacent(path)| <= |path|
    ensures path != [] ==> CollapseAdjacent(path) != [] && CollapseAdjacent(path)[0] == path[0]
    ensures path != [] ==> CollapseAdjacent(path)[|CollapseAdjacent(path)| - 1] == path[|path| - 1]
    ensures forall id :: id in CollapseAdjacent(path) <==> id in path
  {
    if path != [] {
      var prefix := path[..|path| - 1];
      CollapseAdjacentProperties(prefix);
      assert path == prefix + [path[|path| - 1]];
    }
  }

  /** A path without adjacent duplicates is left unchanged, and only such a path. */
  lemma {:induction false} CollapseAdjacentFixedPoints(path: seq<string>)
    ensures CollapseAdjacent(path) == path <==> NoAdjacentDuplicates(path)
  {
    CollapseAdjacentProperties(path);
    if path != [] && NoAdjacentDuplicates(path) {
      var prefix := path[..|path| - 1];
      assert NoAdjacentDuplicates(prefix);
      CollapseAdjacentFixedPoints(prefix);
      CollapseAdjacentProperties(prefix);
      if |prefix| > 0 {
        assert prefix[|prefix| - 1] == path[|path| - 2];
      }
      assert path == prefix + [path[|path| - 1]];
    }
  }

  lemma CollapseAdjacentIdempotent(path: seq<string>)
    ensures CollapseAdjacent(CollapseAdjacent(path)) == CollapseAdjacent(path)
  {
    CollapseAdjacentProperties(path);
    CollapseAdjacentFixedPoints(CollapseAdjacent(path));
  }

  function Reduce(state: State, action: Action, now: int): State {
    var fixed := state.fixed;
    match action
    case MoveDown(id) =>
      var newPath := state.currentPath + [id];
      state.(currentPath := newPath,
             currentDiagram := DrawOption(Resolve(fixed.flowDiagrams, state.currentDate, newPath, now), fixed.diagramConfig))
    case MoveUpToNode(_) =>
      var newPath := CollapseAdjacent(state.currentPath);
      state.(currentPath := newPath,
             currentDiagram := DrawOption(Resolve(fixed.flowDiagrams, state.currentDate, newPath, now), fixed.diagramConfig))
    case ChangeDate(date) =>
      state.(currentDate := date,
             currentDiagram := DrawOption(Resolve(fixed.flowDiagrams, date, state.currentPath, now), fixed.diagramConfig))
  }

  /** The visible diagram is the one resolved from the path and the date. */
  predicate Consistent(state: State, now: int) {
    state.currentDiagram ==
      DrawOption(Resolve(state.fixed.flowDiagrams, state.currentDate, state.currentPath, now), state.fixed.diagramConfig)
  }

  /** Every transition keeps the fixed part and leaves a consistent state. */
  lemma ReduceConsistent(state: State, action: Action, now: int)
    ensures Reduce(state, action, now).fixed == state.fixed
    ensures Consistent(Reduce(state, action, now), now)
  {
  }

  /** MoveDown appends the id without checking it and keeps the date; the new
      diagram is the old one after one more hop. */
  lemma MoveDownEffect(state: State, id: string, now: int)
    requires state.currentPath != []
    ensures var r := Reduce(state, MoveDown(id), now);
      && r.currentPath == state.currentPath + [id]
      && r.currentDate == state.currentDate
      && r.currentDiagram == DrawOption(WalkStep(Resolve(state.fixed.flowDiagrams, state.currentDate, state.currentPath, now),
                                                 id, state.currentDate, now), state.fixed.diagramConfig)
  {
    ResolveExtend(state.fixed.flowDiagrams, state.currentDate, state.currentPath, id, now);
  }

  /** MoveUpToNode ignores its payload: it collapses adjacent duplicates, so
      the path never grows, keeps its first element, and applying it twice is
      the same as once. */
  lemma MoveUpToNodeEffect(state: State, a: string, b: string, now: int)
    ensures var r := Reduce(state, MoveUpToNode(a), now);
      && r == Reduce(state, MoveUpToNode(b), now)
      && |r.currentPath| <= |state.currentPath|
      && (state.currentPath != [] ==> r.currentPath[0] == state.currentPath[0])
      && r.currentDate == state.currentDate
      && Reduce(r, MoveUpToNode(a), now) == r
  {
    CollapseAdjacentProperties(state.currentPath);
    CollapseAdjacentIdempotent(state.currentPath);
  }

  /** Changing the date away and back restores a consistent state exactly. */
  lemma ChangeDateRoundTrip(state: State, d1: int, now: int)
    requires Consistent(state, now)
    ensures Reduce(Reduce(state, ChangeDate(d1), now), ChangeDate(state.currentDate), now) == state
  {
  }

  /** The initial state is consistent exactly when the first diagram is the one
      active at the global start date (always, for an empty forest). */
  lemma InitConsistency(flowDiagrams: seq<FlowDiagram>, diagramConfig: DiagramConfig, now: int, state: State)
    requires state.fixed == Fixed(flowDiagrams, diagramConfig,
                                  EarliestStart(flowDiagrams).GetOr(now), LatestEnd(flowDiagrams).GetOr(now))
    requires state.currentDate == state.fixed.globalStartDate
    requires |flowDiagrams| == 0 ==> state.currentPath == [""] && state.currentDiagram == None
    requires |flowDiagrams| > 0 ==>
      state.currentPath == [flowDiagrams[0].id] && state.currentDiagram == Some(Drawn(flowDiagrams[0], diagramConfig))
    ensures Consistent(state, now) <==>
      (|flowDiagrams| == 0 || FindActive(flowDiagrams, state.currentDate, now) == Some(flowDiagrams[0]))
  {
    ResolveRoot(flowDiagrams, state.currentDate, state.currentPath[0], now);
    assert state.currentPath == [state.currentPath[0]];
  }
}
