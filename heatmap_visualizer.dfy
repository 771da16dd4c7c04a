/**
 * The state of the heatmap visualizer component
 * (Assets/Scripts/HeatMapVisualizer.cs:10-245): the loaded events, the
 * inspector's grid size and type toggles, and the count table with its
 * normalisation maximum, which every load, refresh or clear rebuilds from
 * scratch.
 */
module HeatmapVisualizer {
  import opened GameplayEvents
  import opened HeatmapGrid
  import opened HeatmapStatistics
  import opened Analytics

  class HeatMapVisualizer {
    // Inspector settings; the editor window writes them directly.
    var gridSize: real
    var showDeaths: bool
    var showJumps: bool
    var showPositions: bool
    var showHits: bool
    var showEnemyKills: bool

    // Data and the derived count table.
    var loadedEvents: seq<GameplayEvent>
    var heatmapGrid: map<Cell, nat>
    var maxEventsInCell: int

    /** The component as Unity creates it, with the field initialisers of the source. */
    constructor ()
      ensures gridSize == 2.0
      ensures EventFilterOf() == ShowAll
      ensures loadedEvents == [] && heatmapGrid == map[] && maxEventsInCell == 1
      ensures Rebuilt()
    {
      gridSize := 2.0;
      showDeaths, showJumps, showPositions, showHits, showEnemyKills := true, true, true, true, true;
      loadedEvents := [];
      heatmapGrid := map[];
      maxEventsInCell := 1;
      new;
      GridOfEmpty(gridSize);
    }

    /** The current values of the five type toggles. */
    function EventFilterOf(): EventFilter
      reads this
    {
      EventFilter(showDeaths, showJumps, showPositions, showHits, showEnemyKills)
    }

    /**
     * The loaded events that pass the type filter: a subsequence of the
     * loaded events that keeps every occurrence of a visible event and no
     * occurrence of a hidden one.
     */
    function GetFilteredEvents(): (filtered: seq<GameplayEvent>)
      reads this
      ensures IsSubsequence(filtered, loadedEvents)
      ensures forall e ::
                multiset(filtered)[e] == if ShouldShowEvent(EventFilterOf(), e) then multiset(loadedEvents)[e] else 0
    {
      FilteredIsSubsequence(loadedEvents, EventFilterOf());
      assert forall e ::
               multiset(Filtered(loadedEvents, EventFilterOf()))[e] ==
               if ShouldShowEvent(EventFilterOf(), e) then multiset(loadedEvents)[e] else 0
      by {
        forall e {
          FilteredOccurrences(loadedEvents, EventFilterOf(), e);
        }
      }
      Filtered(loadedEvents, EventFilterOf())
    }

    /**
     * The count table and the maximum are what a rebuild from the current
     * events, toggles and grid size produces.
     */
    ghost predicate Rebuilt()
      reads this
    {
      && gridSize > 0.0
      && heatmapGrid == GridOf(GetFilteredEvents(), gridSize)
      && IsCappedMax(heatmapGrid, maxEventsInCell)
    }

    /**
     * Rebuilds the count table from scratch: every filtered event adds one
     * to the count of its cell, and the maximum follows the largest count,
     * starting from 1.
     */
    method ProcessHeatmapGrid()
      requires gridSize > 0.0
      modifies this`heatmapGrid, this`maxEventsInCell
      ensures heatmapGrid == GridOf(GetFilteredEvents(), gridSize)
      ensures forall k :: k in heatmapGrid <==>
                exists e :: e in GetFilteredEvents() && CellKey(e.position, gridSize) == k
      ensures forall k :: k in heatmapGrid ==>
                heatmapGrid[k] == CountInCell(GetFilteredEvents(), k, gridSize) >= 1
      ensures MapSum(heatmapGrid) == |GetFilteredEvents()|
      ensures IsCappedMax(heatmapGrid, maxEventsInCell)
      ensures Rebuilt()
    {
      var filteredEvents := GetFilteredEvents();
      CountIntoGrid(filteredEvents);
      GridOfEntries(filteredEvents, gridSize);
      GridOfSum(filteredEvents, gridSize);
    }

    /**
     * The clearing and the counting loop of the rebuild: afterwards the
     * table holds the counts of the given events and the maximum is their
     * capped maximum.
     */
    method CountIntoGrid(filteredEvents: seq<GameplayEvent>)
      requires gridSize > 0.0
      modifies this`heatmapGrid, this`maxEventsInCell
      ensures heatmapGrid == GridOf(filteredEvents, gridSize)
      ensures IsCappedMax(heatmapGrid, maxEventsInCell)
    {
      heatmapGrid := map[];
      maxEventsInCell := 1;
      GridOfEmpty(gridSize);
      assert filteredEvents[..0] == [];
      var i := 0;
      while i < |filteredEvents|
        invariant 0 <= i <= |filteredEvents|
        invariant heatmapGrid == GridOf(filteredEvents[..i], gridSize)
        invariant IsCappedMax(heatmapGrid, maxEventsInCell)
      {
        ghost var gridBefore, maxBefore := heatmapGrid, maxEventsInCell;
        var gameEvent := filteredEvents[i];
        var cellKey := CellKey(gameEvent.position, gridSize);

        if cellKey in heatmapGrid {
          heatmapGrid := heatmapGrid[cellKey := heatmapGrid[cellKey] + 1];
        } else {
          heatmapGrid := heatmapGrid[cellKey := 1];
        }

        if heatmapGrid[cellKey] > maxEventsInCell {
          maxEventsInCell := heatmapGrid[cellKey];
        }
        RebuildStep(filteredEvents[..i], gameEvent, gridSize, gridBefore, maxBefore, heatmapGrid, maxEventsInCell);
        assert filteredEvents[..i + 1] == filteredEvents[..i] + [gameEvent];
        i := i + 1;
      }
      assert filteredEvents[..|filteredEvents|] == filteredEvents;
    }

    /**
     * Takes the collector's events and rebuilds the table. The collector is
     * a parameter here; without one nothing changes.
     */
    method LoadDataFromManager(manager: AnalyticsManager?)
      requires gridSize > 0.0
      modifies this`loadedEvents, this`heatmapGrid, this`maxEventsInCell
      ensures manager == null ==> unchanged(this)
      ensures manager != null ==> loadedEvents == manager.localEventsList && Rebuilt()
    {
      if manager != null {
        var events := manager.GetAllEvents();
        loadedEvents := events[..];
        ProcessHeatmapGrid();
      }
    }

    /**
     * Replaces the loaded events by a copy of the caller's list and
     * rebuilds the table. The copy is a value: later writes to the
     * caller's array do not reach loadedEvents.
     */
    method LoadEvents(events: array<GameplayEvent>)
      requires gridSize > 0.0
      modifies this`loadedEvents, this`heatmapGrid, this`maxEventsInCell
      ensures loadedEvents == events[..]
      ensures Rebuilt()
    {
      loadedEvents := events[..];
      ProcessHeatmapGrid();
    }

    /** Forgets the loaded events and empties the table; the maximum returns to 1. */
    method ClearData()
      modifies this`loadedEvents, this`heatmapGrid, this`maxEventsInCell
      ensures loadedEvents == [] && heatmapGrid == map[] && maxEventsInCell == 1
      ensures gridSize > 0.0 ==> Rebuilt()
    {
      loadedEvents := [];
      heatmapGrid := map[];
      maxEventsInCell := 1;
      if gridSize > 0.0 {
        GridOfEmpty(gridSize);
      }
    }

    /**
     * Rebuilds the table for the current settings. The result depends only
     * on the events, the toggles and the grid size, none of which a rebuild
     * changes, so a second refresh leaves everything as the first one left
     * it.
     */
    method RefreshHeatmap()
      requires gridSize > 0.0
      modifies this`heatmapGrid, this`maxEventsInCell
      ensures Rebuilt()
      ensures old(Rebuilt()) ==>
        heatmapGrid == old(heatmapGrid) && maxEventsInCell == old(maxEventsInCell)
    {
      ProcessHeatmapGrid();
      if old(Rebuilt()) {
        CappedMaxUnique(heatmapGrid, maxEventsInCell, old(maxEventsInCell));
      }
    }

    /**
     * The statistics text for the loaded events: the no-data message when
     * none are loaded, otherwise the total on the first line and then one
     * line for each distinct exact event type with its number of events.
     */
    function GetStatistics(): (text: string)
      reads this
      ensures loadedEvents == [] <==> text == NoData
      ensures loadedEvents != [] ==>
                text == TotalLabel + NatToString(|loadedEvents|) + "\n" + Join("\n", GroupLines(loadedEvents))
      ensures Distinct(GroupKeys(loadedEvents))
      ensures SumOfCounts(loadedEvents, GroupKeys(loadedEvents)) == |loadedEvents|
      ensures loadedEvents != [] && SingleLineTypes(loadedEvents) ==>
                var keys := GroupKeys(loadedEvents);
                var lines := Lines(text);
                && |lines| == |keys| + 1
                && lines[0] == TotalLabel + NatToString(|loadedEvents|)
                && (forall i :: 0 <= i < |keys| ==>
                      lines[i + 1] == GroupLine(keys[i], TypeCount(loadedEvents, keys[i])))
    {
      GroupSizesAddUp(loadedEvents);
      if loadedEvents != [] && SingleLineTypes(loadedEvents) then
        StatisticsLines(loadedEvents);
        Statistics(loadedEvents)
      else
        Statistics(loadedEvents)
    }
  }

  /**
   * The visualizer holds a snapshot: events the collector records after a
   * load do not appear in the visualizer until the next load.
   */
  method SnapshotIsIndependent(
    manager: AnalyticsManager, visualizer: HeatMapVisualizer,
    eventType: string, position: Vector3, now: real, timestamp: string)
    requires visualizer.gridSize > 0.0
    modifies manager, visualizer
    ensures visualizer.loadedEvents == old(manager.localEventsList)
    ensures |manager.localEventsList| == |visualizer.loadedEvents| + 1
  {
    visualizer.LoadDataFromManager(manager);
    manager.RecordEvent(eventType, position, false, now, timestamp);
  }
}
