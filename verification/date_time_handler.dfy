/** The time-line view of a list of top-level diagrams: the diagrams are sorted
    by start date into time frames whose missing bounds come from the global
    time range, and a date change selects the first frame whose closed window
    contains the date. The component's state lives in a class. */
module DateTimeHandler {
  import opened DiagramTypes
  import Sorting

  datatype TimeFrame = TimeFrame(id: string, startDateTime: int, endDateTime: int, diagram: DiagramOut)

  /** The sort key: the raw start date, the current time when it is missing. */
  function StartKey(now: int): FlowDiagram -> real {
    (d: FlowDiagram) => d.startDate.GetOr(now) as real
  }

  function SortByStart(diagrams: seq<FlowDiagram>, now: int): seq<FlowDiagram> {
    Sorting.SortBy(diagrams, StartKey(now))
  }

  function FrameOf(d: FlowDiagram, globalStart: int, globalEnd: int, config: DiagramConfig): TimeFrame {
    TimeFrame(d.id, d.startDate.GetOr(globalStart), d.endDate.GetOr(globalEnd), Drawn(d, config))
  }

  function TimeFrames(diagrams: seq<FlowDiagram>, globalStart: int, globalEnd: int, config: DiagramConfig): seq<TimeFrame> {
    seq(|diagrams|, i requires 0 <= i < |diagrams| => FrameOf(diagrams[i], globalStart, globalEnd, config))
  }

  /** `date.isBetween(start, end, null, "[]")`. */
  predicate Contains(frame: TimeFrame, date: int) {
    IsBetween(date, frame.startDateTime, frame.endDateTime)
  }

  /** `findIndex`: the index of the first frame containing the date, or -1. */
  function FindIndex(frames: seq<TimeFrame>, date: int): (r: int)
    ensures -1 <= r < |frames|
    ensures r == -1 <==> forall i :: 0 <= i < |frames| ==> !Contains(frames[i], date)
    ensures r >= 0 ==> Contains(frames[r], date) && forall j :: 0 <= j < r ==> !Contains(frames[j], date)
  {
    if frames == [] then -1
    else if Contains(frames[0], date) then 0
    else
      var k := FindIndex(frames[1..], date);
      if k == -1 then -1 else k + 1
  }

  /** The index a date change selects. `|| 0` leaves -1 in place. */
  function SelectedIndex(frames: seq<TimeFrame>, date: int): int {
    OrZero(FindIndex(frames, date))
  }

  class DateTimeHandler {
    const flowDiagrams: array<FlowDiagram>
    const globalStartDateTime: int
    const globalEndDateTime: int
    const diagramConfig: DiagramConfig
    var currentDate: Option<int>
    var sortedFlowDiagrams: seq<TimeFrame>
    var currentFlowDiagram: int

    /** The state before any effect or date change: no date, no frames, index 0. */
    constructor (flowDiagrams: array<FlowDiagram>, globalStartDateTime: int, globalEndDateTime: int, diagramConfig: DiagramConfig)
      ensures this.flowDiagrams == flowDiagrams && this.diagramConfig == diagramConfig
      ensures this.globalStartDateTime == globalStartDateTime && this.globalEndDateTime == globalEndDateTime
      ensures currentDate == None && sortedFlowDiagrams == [] && currentFlowDiagram == 0
    {
      this.flowDiagrams := flowDiagrams;
      this.globalStartDateTime := globalStartDateTime;
      this.globalEndDateTime := globalEndDateTime;
      this.diagramConfig := diagramConfig;
      currentDate := None;
      sortedFlowDiagrams := [];
      currentFlowDiagram := 0;
    }

    /** The effect run when the diagrams change: sorts the caller's array in
        place by start date, then maps it to time frames. */
    method BuildTimeFrames(now: int)
      modifies this`sortedFlowDiagrams, flowDiagrams
      ensures flowDiagrams[..] == SortByStart(old(flowDiagrams[..]), now)
      ensures sortedFlowDiagrams == TimeFrames(flowDiagrams[..], globalStartDateTime, globalEndDateTime, diagramConfig)
    {
      var sorted := SortByStart(flowDiagrams[..], now);
      Sorting.SortByLength(flowDiagrams[..], StartKey(now));
      for i := 0 to flowDiagrams.Length
        invariant flowDiagrams[..i] == sorted[..i]
      {
        flowDiagrams[i] := sorted[i];
      }
      assert flowDiagrams[..] == sorted;
      sortedFlowDiagrams := TimeFrames(flowDiagrams[..], globalStartDateTime, globalEndDateTime, diagramConfig);
    }

    method HandleDateChange(date: int)
      modifies this`currentDate, this`currentFlowDiagram
      ensures currentDate == Some(date)
      ensures currentFlowDiagram == SelectedIndex(sortedFlowDiagrams, date)
    {
      currentDate := Some(date);
      currentFlowDiagram := OrZero(FindIndex(sortedFlowDiagrams, date));
    }

    /** The frame rendered, or None when the skeleton is rendered instead. */
    function Shown(): Option<TimeFrame>
      reads this
    {
      if 0 <= currentFlowDiagram < |sortedFlowDiagrams| then Some(sortedFlowDiagrams[currentFlowDiagram]) else None
    }
  }

  /** After a date change the shown frame is the first one containing the
      date; when none contains it the index is -1 and nothing is shown. */
  lemma SelectionShowsFirstContaining(frames: seq<TimeFrame>, date: int)
    ensures var k := SelectedIndex(frames, date);
      && (k == -1 <==> forall i :: 0 <= i < |frames| ==> !Contains(frames[i], date))
      && (k != -1 ==> 0 <= k < |frames| && Contains(frames[k], date)
                      && forall j :: 0 <= j < k ==> !Contains(frames[j], date))
  {
  }

  /** There is one frame per diagram, with the diagram's id and its bounds,
      a missing bound replaced by the global one. */
  lemma TimeFramesMatchDiagrams(diagrams: seq<FlowDiagram>, globalStart: int, globalEnd: int, config: DiagramConfig)
    ensures var frames := TimeFrames(diagrams, globalStart, globalEnd, config);
      && |frames| == |diagrams|
      && forall i :: 0 <= i < |diagrams| ==>
           && frames[i].id == diagrams[i].id
           && frames[i].startDateTime == (if diagrams[i].startDate.Some? then diagrams[i].startDate.value else globalStart)
           && frames[i].endDateTime == (if diagrams[i].endDate.Some? then diagrams[i].endDate.value else globalEnd)
  {
  }

  /** Sorting only reorders: every input diagram is still there, and the
      result is ascending by raw start date with ties in input order. */
  lemma SortByStartProperties(diagrams: seq<FlowDiagram>, now: int)
    ensures var sorted := SortByStart(diagrams, now);
      && multiset(sorted) == multiset(diagrams)
      && (forall i, j :: 0 <= i < j < |sorted| ==> sorted[i].startDate.GetOr(now) <= sorted[j].startDate.GetOr(now))
      && forall k: real :: Sorting.WithKey(sorted, StartKey(now), k) == Sorting.WithKey(diagrams, StartKey(now), k)
  {
    var sorted := SortByStart(diagrams, now);
    Sorting.SortBySortsAndPermutes(diagrams, StartKey(now));
    forall k: real ensures Sorting.WithKey(sorted, StartKey(now), k) == Sorting.WithKey(diagrams, StartKey(now), k) {
      Sorting.SortByStable(diagrams, StartKey(now), k);
    }
    forall i, j | 0 <= i < j < |sorted| ensures sorted[i].startDate.GetOr(now) <= sorted[j].startDate.GetOr(now) {
      assert StartKey(now)(sorted[i]) <= StartKey(now)(sorted[j]);
    }
  }

  /** When every diagram has a start date, the frames come out in ascending
      order of their start. */
  lemma FramesAscendingWhenStartsDefined(diagrams: seq<FlowDiagram>, now: int, globalStart: int, globalEnd: int, config: DiagramConfig)
    requires forall d :: d in diagrams ==> d.startDate.Some?
    ensures var frames := TimeFrames(SortByStart(diagrams, now), globalStart, globalEnd, config);
      forall i, j :: 0 <= i < j < |frames| ==> frames[i].startDateTime <= frames[j].startDateTime
  {
    var sorted := SortByStart(diagrams, now);
    SortByStartProperties(diagrams, now);
    forall i | 0 <= i < |sorted| ensures sorted[i].startDate.Some? {
      assert sorted[i] in multiset(diagrams);
    }
  }

  /** A diagram without a start date sorts at the current time but its frame
      starts at the global start, so the frames need not be ascending. */
  lemma FramesNotAscendingWithMissingStart()
    ensures var a := FlowDiagram("a", "", Some(50), Some(60), [], [], []);
      var b := FlowDiagram("b", "", None, Some(60), [], [], []);
      var frames := TimeFrames(SortByStart([a, b], 100), 0, 200, DefaultDiagramConfig);
      |frames| == 2 && frames[0].id == "a" && frames[1].id == "b"
      && frames[0].startDateTime > frames[1].startDateTime
  {
    var a := FlowDiagram("a", "", Some(50), Some(60), [], [], []);
    var b := FlowDiagram("b", "", None, Some(60), [], [], []);
    assert SortByStart([b], 100) == [b];
    assert [a, b][1..] == [b];
    assert SortByStart([a, b], 100) == Sorting.Insert(a, [b], StartKey(100));
  }
}
