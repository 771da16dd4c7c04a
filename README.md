# Gameplay telemetry and heatmap aggregation, modelled in Dafny

This project models the data core of a Unity telemetry plugin:

- **The event collector** (`AnalyticsManager`). It keeps an append-only log of
  `GameplayEvent` records. Each record carries the session ID, the event type,
  the position, a timestamp and the time since the session started. The
  collector can hand out a copy of the log. It can also post one event, or
  every event in order, as a seven-field form.
- **The heatmap visualizer** (`HeatMapVisualizer`). It holds a list of loaded
  events and five per-type visibility toggles. It filters the events by their
  lower-cased type and buckets each visible event into a square grid cell
  `(floor(x / gridSize), floor(z / gridSize))`. It keeps a count per cell and
  the largest count, floored at 1, for colour normalisation. Every load,
  refresh or clear rebuilds this table from scratch. A statistics text groups
  the loaded events by exact type.

Files and modules:

- `events.dfy` (module `GameplayEvents`): the event record and `Vector3`.
- `heatmap_grid.dfy` (module `HeatmapGrid`): the type filter, the cell key,
  the count table `GridOf` with its meaning (`Tally` of the multiset of cell
  keys), the sum of counts, the capped maximum, and the lemmas about them.
- `heatmap_statistics.dfy` (module `HeatmapStatistics`): the group-by-type
  counts and the statistics text.
- `heatmap_visualizer.dfy` (module `HeatmapVisualizer`): the
  `HeatMapVisualizer` class. Its fields are the inspector settings, the
  loaded events, the count table and the maximum. Its methods load, clear,
  rebuild and refresh.
- `analytics_manager.dfy` (module `Analytics`): the `AnalyticsManager` class
  (the event log) and the upload form.

Modelling choices:

- Unity floats are Dafny `real`. The grid size must be positive for a
  rebuild. The editor slider keeps it between 0.5 and 10.
- Cell keys round down, as `Mathf.FloorToInt` does, not toward zero. A point
  at x = -0.5 with grid size 2 is in cell -1 (`NegativeCoordinatesRoundDown`).
- The event type is lower-cased before the toggles are consulted. The
  statistics text, in contrast, groups by the exact, case-sensitive type.
- A C# `List<GameplayEvent>` handed between objects is a Dafny `array`. The
  stored lists are `seq` fields. So "a copy" is visible in the contracts:
  `GetAllEvents` returns a fresh array, and `LoadEvents` stores the array's
  contents as a value.
- Starting an upload coroutine appends the request (endpoint suffix and form
  fields) to the trace field `startedUploads`. The float-to-text conversion
  of the form is the instance's `format` function, about which nothing is
  assumed.
- `Time.time`, `DateTime.UtcNow` and `Guid.NewGuid` are parameters: the
  constructor takes the session ID and the time at `Awake`, and `RecordEvent`
  takes the current time and the formatted timestamp.
- `AnalyticsManager.Instance` is not defined in the source. So
  `LoadDataFromManager` takes the collector as a parameter, and `null` stands
  for a missing instance.
- The counting loop of `ProcessHeatmapGrid` is the method `CountIntoGrid`.
  It clears and updates the same two fields that the source's loop clears
  and updates. `ProcessHeatmapGrid` passes it the filtered events.

## Model

| member | source | states |
|---|---|---|
| `HeatmapGrid.ToLower` | Assets/Scripts/HeatMapVisualizer.cs:119 | lower-casing keeps the length of the type string |
| `HeatmapGrid.ToLowerAt` | Assets/Scripts/HeatMapVisualizer.cs:119 | each character is the lower-cased input character at the same position, and none is an upper-case letter |
| `HeatmapGrid.ToLowerIdempotent` | Assets/Scripts/HeatMapVisualizer.cs:119 | lower-casing twice gives the same as lower-casing once |
| `HeatmapGrid.ShouldShowEvent` | Assets/Scripts/HeatMapVisualizer.cs:117-134 | the switch follows the table "muerte"→showDeaths, "salto"→showJumps, "posicion"→showPositions, "golpe"→showHits, "enemigos matados"→showEnemyKills on the lower-cased type; any other type is shown |
| `HeatmapGrid.ShouldShowOnlyReadsLowerType` | Assets/Scripts/HeatMapVisualizer.cs:117-134 | two events with the same lower-cased type get the same decision |
| `HeatmapGrid.HiddenOnlyByOwnToggle` | Assets/Scripts/HeatMapVisualizer.cs:117-134 | an event is hidden if and only if its lower-cased type is one of the five known types and that type's toggle is off |
| `HeatmapGrid.UpperCaseDeathIsADeath` | Assets/Scripts/HeatMapVisualizer.cs:119-122 | the type "MUERTE" is governed by showDeaths: the match ignores case |
| `HeatmapGrid.Filtered` | Assets/Scripts/HeatMapVisualizer.cs:112-115 | the filtered list is never longer than the loaded list |
| `HeatmapGrid.FilteredVisible` | Assets/Scripts/HeatMapVisualizer.cs:112-115 | every filtered event is a loaded event that passes ShouldShowEvent |
| `HeatmapGrid.FilteredIsSubsequence` | Assets/Scripts/HeatMapVisualizer.cs:112-115 | the filtered list is a subsequence of the loaded list (original order kept) |
| `HeatmapGrid.FilteredOccurrences` | Assets/Scripts/HeatMapVisualizer.cs:112-115 | each visible event occurs in the filtered list as often as in the loaded list; a hidden event does not occur |
| `HeatmapGrid.FloorOfQuotient` | Assets/Scripts/HeatMapVisualizer.cs:100-101 | n is floor(a / g) exactly when n·g ≤ a < (n+1)·g, for g > 0 |
| `HeatmapGrid.CellKey` | Assets/Scripts/HeatMapVisualizer.cs:98-103 | the key's x and y are the cells whose gridSize-wide intervals contain the point's x and z |
| `HeatmapGrid.CellKeyUnique` | Assets/Scripts/HeatMapVisualizer.cs:98-103 | any cell whose square contains the point's (x, z) is its key, so the key is the floor of x/gridSize and z/gridSize |
| `HeatmapGrid.NegativeCoordinatesRoundDown` | Assets/Scripts/HeatMapVisualizer.cs:100-101 | x = -0.5 with grid size 2 lands in cell -1: keys round down, not toward zero |
| `HeatmapGrid.CellKeyIgnoresHeight` | Assets/Scripts/HeatMapVisualizer.cs:98-103 | the y coordinate never affects the key |
| `HeatmapGrid.CountInCellPositive` | Assets/Scripts/HeatMapVisualizer.cs:75-93 | a cell's count is positive exactly when some event falls into it |
| `HeatmapGrid.GridOf` | Assets/Scripts/HeatMapVisualizer.cs:75-93 | the table the loop builds is empty exactly when there are no events; `GridOfTally`, `GridOfEntries` and `GridOfSum` give its contents |
| `HeatmapGrid.GridOfTally` | Assets/Scripts/HeatMapVisualizer.cs:75-93 | the counting fold yields every cell key with its multiplicity among the events' keys |
| `HeatmapGrid.GridOfEntries` | Assets/Scripts/HeatMapVisualizer.cs:75-93 | the table has a key exactly for the cells some event falls into, and each maps to the number of events in that cell, at least 1 and at most the number of events |
| `HeatmapGrid.GridOfSnoc` | Assets/Scripts/HeatMapVisualizer.cs:77-86 | one more event adds one to its cell's count or creates the cell with 1 |
| `HeatmapGrid.GridOfEmpty` | Assets/Scripts/HeatMapVisualizer.cs:70 | no events give the empty table |
| `HeatmapGrid.GridOfSum` | Assets/Scripts/HeatMapVisualizer.cs:73-93 | the counts of the table add up to the number of events counted |
| `HeatmapGrid.CappedMaxUnique` | Assets/Scripts/HeatMapVisualizer.cs:89-92 | max(1, largest count) is unique for a table, so the rebuilt maximum is determined by the table |
| `HeatmapGrid.CappedMaxOfEmpty` | Assets/Scripts/HeatMapVisualizer.cs:71 | for the empty table the maximum is 1 and nothing else |
| `HeatmapGrid.CappedMaxRaise` | Assets/Scripts/HeatMapVisualizer.cs:89-92 | raising one count to v and the maximum to v when v exceeds it keeps the maximum equal to max(1, largest count) |
| `HeatmapGrid.RebuildStep` | Assets/Scripts/HeatMapVisualizer.cs:75-93 | one iteration of the loop turns the table and maximum of a prefix into those of the prefix plus one event |
| `HeatmapStatistics.TypeCount` | Assets/Scripts/HeatMapVisualizer.cs:238-240 | a type's count is at most the number of events, and positive exactly when some event has that exact type |
| `HeatmapStatistics.GroupKeys` | Assets/Scripts/HeatMapVisualizer.cs:238-239 | the group keys are distinct, are exactly the types that occur, and are never more than the events |
| `HeatmapStatistics.TypeCounts` | Assets/Scripts/HeatMapVisualizer.cs:238-241 | one group per group key, in key order, each with a count of at least 1; never more groups than events |
| `HeatmapStatistics.GroupSizesAddUp` | Assets/Scripts/HeatMapVisualizer.cs:238-243 | the sizes of all groups add up to the number of loaded events |
| `HeatmapStatistics.TypeCountsSummary` | Assets/Scripts/HeatMapVisualizer.cs:238-243 | each group carries the count of its exact type, at least 1; every event's type has a group; the group sizes sum to the total |
| `HeatmapStatistics.NatToString` | Assets/Scripts/HeatMapVisualizer.cs:240 | a count is written as a non-empty string of decimal digits, with a leading zero only for 0 |
| `HeatmapStatistics.NatToStringValue` | Assets/Scripts/HeatMapVisualizer.cs:240 | reading the digits back gives the count: the written number is the count itself |
| `HeatmapStatistics.Join` | Assets/Scripts/HeatMapVisualizer.cs:243 | the joined text starts with the first part; `LinesOfJoin` states the separator placement |
| `HeatmapStatistics.Lines` | Assets/Scripts/HeatMapVisualizer.cs:243 | cutting a text at its line breaks gives at least one line |
| `HeatmapStatistics.LinesOfBreak` | Assets/Scripts/HeatMapVisualizer.cs:243 | a break-free line, a break and more text cut into that line followed by the lines of the rest |
| `HeatmapStatistics.LinesOfJoin` | Assets/Scripts/HeatMapVisualizer.cs:243 | break-free parts joined with line breaks cut back into exactly those parts: the separator sits between neighbours and nowhere else |
| `HeatmapStatistics.GroupLines` | Assets/Scripts/HeatMapVisualizer.cs:240-241 | one line per group key, in key order; line i is "key: count" with the number of events of exactly that type |
| `HeatmapStatistics.Statistics` | Assets/Scripts/HeatMapVisualizer.cs:233-244 | the text is the no-data message exactly when no events are loaded; otherwise its first line is "Total eventos: " followed by the number of events |
| `HeatmapStatistics.StatisticsLines` | Assets/Scripts/HeatMapVisualizer.cs:238-243 | when no type contains a line break, the lines of the text are the total "Total eventos: n", then exactly one line "type: count" per distinct exact type with the number of events of that type; these counts add up to n |
| `HeatmapStatistics.StatisticsListsEveryType` | Assets/Scripts/HeatMapVisualizer.cs:238-243 | when no type contains a line break, each event's exact type has a whole line of the text to itself, carrying the number of events of that type |
| `HeatmapVisualizer.HeatMapVisualizer.constructor` | Assets/Scripts/HeatMapVisualizer.cs:12-37 | grid size 2, all toggles on, no events, empty table, maximum 1, which is a rebuilt state |
| `HeatmapVisualizer.HeatMapVisualizer.GetFilteredEvents` | Assets/Scripts/HeatMapVisualizer.cs:112-115 | the filtered events are a subsequence of the loaded events with every occurrence of a visible event and none of a hidden one |
| `HeatmapVisualizer.HeatMapVisualizer.ProcessHeatmapGrid` | Assets/Scripts/HeatMapVisualizer.cs:68-96 | afterwards every key maps to the number of filtered events in that cell (at least 1), every filtered event's cell is a key, the counts sum to the number of filtered events, and the maximum is max(1, largest count); nothing else changes |
| `HeatmapVisualizer.HeatMapVisualizer.CountIntoGrid` | Assets/Scripts/HeatMapVisualizer.cs:70-93 | clearing and then counting the given events leaves their count table and its capped maximum in the fields |
| `HeatmapVisualizer.HeatMapVisualizer.LoadDataFromManager` | Assets/Scripts/HeatMapVisualizer.cs:39-51 | with a collector, the loaded events become its log and the table is rebuilt; without one nothing changes |
| `HeatmapVisualizer.HeatMapVisualizer.LoadEvents` | Assets/Scripts/HeatMapVisualizer.cs:53-58 | the loaded events are the argument's contents, held as a value, and the table is rebuilt |
| `HeatmapVisualizer.HeatMapVisualizer.ClearData` | Assets/Scripts/HeatMapVisualizer.cs:60-66 | no events, empty table, maximum 1 |
| `HeatmapVisualizer.HeatMapVisualizer.RefreshHeatmap` | Assets/Scripts/HeatMapVisualizer.cs:228-231 | the table is rebuilt; refreshing an already rebuilt state changes nothing, so two refreshes equal one |
| `HeatmapVisualizer.HeatMapVisualizer.GetStatistics` | Assets/Scripts/HeatMapVisualizer.cs:233-244 | the no-data message exactly when no events are loaded; otherwise the total line, a break, and the group lines (one "type: count" per distinct exact type) joined by breaks; the group keys are distinct and their counts add up to the total; when no type contains a line break, the lines of the text are exactly the total and then the group lines |
| `HeatmapVisualizer.SnapshotIsIndependent` | Assets/Scripts/HeatMapVisualizer.cs:39-51 | after a load, an event recorded by the collector does not appear in the visualizer |
| `Analytics.EventForm` | Assets/Scripts/AnalyticsManager.cs:122-131 | the form has exactly the seven keys sessionID, eventType, positionX, positionY, positionZ, timestamp, sessionDuration; sessionID, eventType and timestamp are copied verbatim, and each numeric key carries the text of its own number |
| `Analytics.EventFormDeterminesFields` | Assets/Scripts/AnalyticsManager.cs:122-131 | two events with the same form have the same session ID, type and timestamp, and the same text for each of the four numbers: the form drops no field |
| `Analytics.UploadsOf` | Assets/Scripts/AnalyticsManager.cs:141-147 | one upload per event |
| `Analytics.UploadsOfAt` | Assets/Scripts/AnalyticsManager.cs:141-147 | the i-th upload is the i-th event's form posted to GameplayEvent.php |
| `Analytics.AnalyticsManager.constructor` | Assets/Scripts/AnalyticsManager.cs:91-98 | an empty log, no uploads, the given session ID and the start time taken at Awake |
| `Analytics.AnalyticsManager.RecordEvent` | Assets/Scripts/AnalyticsManager.cs:100-118 | exactly one event is appended at the end and earlier events are unchanged; it carries the current session ID, the given type and position, the timestamp and now − sessionStartTime; an upload of that event alone starts only when uploadToServer is true |
| `Analytics.AnalyticsManager.UploadEvent` | Assets/Scripts/AnalyticsManager.cs:120-134 | one upload of the event's form to GameplayEvent.php is started |
| `Analytics.AnalyticsManager.GetAllEvents` | Assets/Scripts/AnalyticsManager.cs:136-139 | a freshly allocated list with the logged events in order, so writes to it cannot reach the log |
| `Analytics.AnalyticsManager.UploadAllEvents` | Assets/Scripts/AnalyticsManager.cs:141-147 | one upload per logged event, in log order, and the log is unchanged |

## Left out

- `HeatmapGrid.ToLower`: models ASCII lower-casing only. `String.ToLower` follows the current culture's Unicode rules; the five known types are plain ASCII.
- `HeatmapGrid.CellKey`: the key is an unbounded integer. `Mathf.FloorToInt` returns a 32-bit int, which would misbehave for coordinates beyond about 2^31 times the grid size.
- IEEE single-precision rounding of positions, the grid size and `Time.time`. All are exact reals here.
- The `Upload` coroutine: `UnityWebRequest`/`WWWForm`, the base URL, the response parsing as `uint` and the callback (Assets/Scripts/AnalyticsManager.cs:44-70). This is network I/O; the model records only which request was started.
- `OnPlayerDeath` (Assets/Scripts/AnalyticsManager.cs:74-83): network I/O with an unrelated form.
- The float-to-string formatting of the form's numeric fields. `format` stands for it, unspecified.
- `Debug.Log` output everywhere.
- Gizmo drawing: `OnDrawGizmos`, `DrawRoute` (including its ordering by timestamp and duration) and `DrawHeatmap` (Assets/Scripts/HeatMapVisualizer.cs:142-216). These are engine draw calls.
- Float-only helpers: `GetHeatmapColor`, `GetCellCenter` and `CalculateAverageY` (Assets/Scripts/HeatMapVisualizer.cs:105-110, 136-140, 218-226).
- `HeatmapEditorWindow` (Assets/Scripts/HeatMapVisualizer.cs:247-526) and `AnalyticsEditorWindow` (Assets/Scripts/Editor/AnalyticsEditorWindow.cs): editor GUI only. The JSON import of the heatmap window is an unimplemented stub.
- The empty `Start` and `Update` methods, the position-tracking settings and the `EntityType` enum of Assets/Scripts/AnalyticsManager.cs: no code in the core uses them.
- The inspector's display settings (`showHeatmap`, `showRoute`, `useSpheresForHeatmap`, colours, sphere radius, cube height). They only affect drawing.
- Aliasing of individual `GameplayEvent` objects. The source's list copies are shallow, but no code changes an event after it is created, so events are values here.
- `HeatmapStatistics.StatisticsLines`: no lemma states the order of the group lines (the order in which each type first appears), and none describes the lines when an event type itself contains a line break. In that case a group line spans several lines of text. Types are short labels chosen by the game code.
- `HeatmapVisualizer.HeatMapVisualizer.GetStatistics`: its line-by-line reading of the text (how many lines, and what each says) is stated only when no event type contains a line break. Otherwise a type's line spans several lines of text. The text itself, as the total and the joined group lines, is stated for every log.
- `HeatmapStatistics.StatisticsListsEveryType`: holds only when no event type contains a line break, for the same reason.
- Null strings and lists. In the model no string or list is null. In the source, `RecordEvent` accepts a null type (Assets/Scripts/AnalyticsManager.cs:100-105). `ShouldShowEvent` then throws on `ToLower` (Assets/Scripts/HeatMapVisualizer.cs:119). That happens inside a rebuild after the table has been cleared and the maximum reset (lines 70-73), so the source leaves a half-rebuilt state where the model promises `Rebuilt()`. The null check of `loadedEvents` in `GetStatistics` (line 235) and a null `GroupBy` key are also not modelled.
- `HeatmapVisualizer.HeatMapVisualizer.LoadDataFromManager` and `HeatmapVisualizer.SnapshotIsIndependent`: list identity between the two objects is not modelled. The source stores the `List` that `GetAllEvents` returns (line 43) and later clears that list in place (line 62). Here the visualizer stores its contents as a value, so `SnapshotIsIndependent` holds whatever `GetAllEvents` returns. That the visualizer cannot empty the collector's log rests on the `fresh` ensures of `Analytics.AnalyticsManager.GetAllEvents`.
