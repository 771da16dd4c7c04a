/**
 * The pure part of the heatmap visualizer
 * (Assets/Scripts/HeatMapVisualizer.cs): the event-type filter, the cell
 * key of a position, and the count table that the grid rebuild must
 * produce, with the facts about it that the rebuild promises (every cell
 * holds the number of its events, the counts add up to the number of
 * filtered events, and the normalisation maximum is max(1, largest count)).
 */
module HeatmapGrid {
  import opened GameplayEvents

  // ---------------------------------------------------------------------
  // Event-type filter (HeatMapVisualizer.ShouldShowEvent)
  // ---------------------------------------------------------------------

  predicate IsUpper(c: char) { 'A' <= c <= 'Z' }

  /** ASCII lower-casing of one character. */
  function LowerChar(c: char): char
  {
    if IsUpper(c) then (c as int + 32) as char else c
  }

  /**
   * String.ToLower, restricted to ASCII: every upper-case letter is
   * replaced by its lower-case form, every other character is kept.
   */
  function ToLower(s: string): (r: string)
    ensures |r| == |s|
  {
    if s == [] then [] else [LowerChar(s[0])] + ToLower(s[1..])
  }

  /**
   * Each character of the result is the lower-cased character at the same
   * position, and the result holds no upper-case letter.
   */
  lemma {:induction false} ToLowerAt(s: string, i: int)
    requires 0 <= i < |s|
    ensures ToLower(s)[i] == LowerChar(s[i])
    ensures !IsUpper(ToLower(s)[i])
  {
    if i > 0 {
      ToLowerAt(s[1..], i - 1);
    }
  }

  /** Lower-casing a lower-cased string changes nothing. */
  lemma ToLowerIdempotent(s: string)
    ensures ToLower(ToLower(s)) == ToLower(s)
  {
    var t := ToLower(s);
    forall i | 0 <= i < |t|
      ensures ToLower(t)[i] == t[i]
    {
      ToLowerAt(s, i);
      ToLowerAt(t, i);
    }
  }

  /** The five visibility toggles of the visualizer's inspector. */
  datatype EventFilter = EventFilter(
    showDeaths: bool,
    showJumps: bool,
    showPositions: bool,
    showHits: bool,
    showEnemyKills: bool)

  /** The filter in which every toggle is on (the inspector's defaults). */
  const ShowAll := EventFilter(true, true, true, true, true)

  /**
   * The event types the filter knows, in lower case, each with the toggle
   * that controls it.
   */
  function FlagTable(f: EventFilter): map<string, bool>
  {
    map[
      "muerte" := f.showDeaths,
      "salto" := f.showJumps,
      "posicion" := f.showPositions,
      "golpe" := f.showHits,
      "enemigos matados" := f.showEnemyKills
    ]
  }

  /**
   * Whether an event is drawn: its lower-cased type selects a toggle; a
   * type the filter does not know is always visible.
   */
  function ShouldShowEvent(f: EventFilter, e: GameplayEvent): (shown: bool)
    ensures var t := ToLower(e.eventType); shown == (t !in FlagTable(f) || FlagTable(f)[t])
  {
    match ToLower(e.eventType)
    case "muerte" => f.showDeaths
    case "salto" => f.showJumps
    case "posicion" => f.showPositions
    case "golpe" => f.showHits
    case "enemigos matados" => f.showEnemyKills
    case _ => true
  }

  /** The decision depends on the lower-cased type and nothing else. */
  lemma ShouldShowOnlyReadsLowerType(f: EventFilter, a: GameplayEvent, b: GameplayEvent)
    requires ToLower(a.eventType) == ToLower(b.eventType)
    ensures ShouldShowEvent(f, a) == ShouldShowEvent(f, b)
  {
  }

  /** An event is hidden only when its type is known and its toggle is off. */
  lemma HiddenOnlyByOwnToggle(f: EventFilter, e: GameplayEvent)
    ensures !ShouldShowEvent(f, e) <==>
      (ToLower(e.eventType) == "muerte" && !f.showDeaths) ||
      (ToLower(e.eventType) == "salto" && !f.showJumps) ||
      (ToLower(e.eventType) == "posicion" && !f.showPositions) ||
      (ToLower(e.eventType) == "golpe" && !f.showHits) ||
      (ToLower(e.eventType) == "enemigos matados" && !f.showEnemyKills)
  {
  }

  /** The comparison ignores case: "MUERTE" is governed by showDeaths. */
  lemma UpperCaseDeathIsADeath(f: EventFilter, e: GameplayEvent)
    requires e.eventType == "MUERTE"
    ensures ShouldShowEvent(f, e) == f.showDeaths
  {
    var t := ToLower(e.eventType);
    forall i | 0 <= i < |t|
      ensures t[i] == "muerte"[i]
    {
      ToLowerAt(e.eventType, i);
    }
    assert t == "muerte";
  }

  // ---------------------------------------------------------------------
  // Filtering (HeatMapVisualizer.GetFilteredEvents)
  // ---------------------------------------------------------------------

  /** The events that pass the filter, in their original order. */
  function Filtered(events: seq<GameplayEvent>, f: EventFilter): (r: seq<GameplayEvent>)
    ensures |r| <= |events|
  {
    if events == [] then []
    else if ShouldShowEvent(f, events[0]) then [events[0]] + Filtered(events[1..], f)
    else Filtered(events[1..], f)
  }

  /** Every event that passes is one of the input events, and a visible one. */
  lemma {:induction false} FilteredVisible(events: seq<GameplayEvent>, f: EventFilter)
    ensures forall e :: e in Filtered(events, f) ==> e in events && ShouldShowEvent(f, e)
  {
    if events != [] {
      FilteredVisible(events[1..], f);
    }
  }

  /** `a` can be obtained from `b` by deleting elements. */
  predicate IsSubsequence<T(==)>(a: seq<T>, b: seq<T>)
    decreases |b|
  {
    a == [] || (b != [] &&
      if a[0] == b[0] then IsSubsequence(a[1..], b[1..]) else IsSubsequence(a, b[1..]))
  }

  /** Filtering keeps the original order. */
  lemma {:induction false} FilteredIsSubsequence(events: seq<GameplayEvent>, f: EventFilter)
    ensures IsSubsequence(Filtered(events, f), events)
  {
    if events != [] {
      FilteredIsSubsequence(events[1..], f);
      FilteredVisible(events, f);
      var r := Filtered(events, f);
      if !ShouldShowEvent(f, events[0]) && r != [] {
        assert r[0] in r;
      }
    }
  }

  /**
   * Filtering keeps every occurrence of a visible event and drops every
   * occurrence of a hidden one.
   */
  lemma {:induction false} FilteredOccurrences(events: seq<GameplayEvent>, f: EventFilter, e: GameplayEvent)
    ensures multiset(Filtered(events, f))[e] == if ShouldShowEvent(f, e) then multiset(events)[e] else 0
  {
    if events != [] {
      FilteredOccurrences(events[1..], f, e);
      assert events == [events[0]] + events[1..];
    }
  }

  // ---------------------------------------------------------------------
  // Cell keys (HeatMapVisualizer.GetCellKey)
  // ---------------------------------------------------------------------

  /** Unity's Vector2Int; its `y` holds the index along the world z axis. */
  datatype Cell = Cell(x: int, y: int)

  /** Multiplying by a positive factor keeps strict and non-strict order. */
  lemma ScaleMonotone(a: real, b: real, g: real)
    requires g > 0.0
    ensures a <= b <==> a * g <= b * g
    ensures a < b <==> a * g < b * g
  {
    assert b * g - a * g == (b - a) * g;
  }

  /** n is the floor of a / g exactly when a lies in [n*g, (n+1)*g). */
  lemma FloorOfQuotient(a: real, g: real, n: int)
    requires g > 0.0
    ensures n == (a / g).Floor <==> n as real * g <= a < (n + 1) as real * g
  {
    var q := a / g;
    assert q * g == a;
    ScaleMonotone(n as real, q, g);
    ScaleMonotone(q, (n + 1) as real, g);
    var f := q.Floor;
    assert f as real <= q < (f + 1) as real;
    if n as real <= q < (n + 1) as real {
      assert n < f + 1 && f < n + 1;
    }
  }

  /**
   * The grid cell a position falls into: the floor of x / gridSize and
   * the floor of z / gridSize, i.e. the cell whose square of side
   * gridSize contains the point's (x, z) projection.
   */
  function CellKey(p: Vector3, gridSize: real): (k: Cell)
    requires gridSize > 0.0
    ensures k.x as real * gridSize <= p.x < (k.x + 1) as real * gridSize
    ensures k.y as real * gridSize <= p.z < (k.y + 1) as real * gridSize
  {
    FloorOfQuotient(p.x, gridSize, (p.x / gridSize).Floor);
    FloorOfQuotient(p.z, gridSize, (p.z / gridSize).Floor);
    Cell((p.x / gridSize).Floor, (p.z / gridSize).Floor)
  }

  /** A point lies in exactly one cell: any cell whose square holds it is its key. */
  lemma CellKeyUnique(p: Vector3, gridSize: real, c: Cell)
    requires gridSize > 0.0
    requires c.x as real * gridSize <= p.x < (c.x + 1) as real * gridSize
    requires c.y as real * gridSize <= p.z < (c.y + 1) as real * gridSize
    ensures CellKey(p, gridSize) == c
  {
    FloorOfQuotient(p.x, gridSize, c.x);
    FloorOfQuotient(p.z, gridSize, c.y);
  }

  /**
   * Keys round down, not toward zero: a point just left of the origin lies
   * in cell -1, not in cell 0.
   */
  lemma NegativeCoordinatesRoundDown(p: Vector3)
    requires p.x == -0.5 && p.z == 0.0
    ensures CellKey(p, 2.0) == Cell(-1, 0)
  {
    CellKeyUnique(p, 2.0, Cell(-1, 0));
  }

  /** The height of a point never affects its cell. */
  lemma CellKeyIgnoresHeight(p: Vector3, y: real, gridSize: real)
    requires gridSize > 0.0
    ensures CellKey(p.(y := y), gridSize) == CellKey(p, gridSize)
  {
  }

  // ---------------------------------------------------------------------
  // The count table (HeatMapVisualizer.ProcessHeatmapGrid)
  // ---------------------------------------------------------------------

  /** The cell key of every event, in event order. */
  function CellKeys(events: seq<GameplayEvent>, gridSize: real): (keys: seq<Cell>)
    requires gridSize > 0.0
    ensures |keys| == |events|
  {
    if events == [] then []
    else CellKeys(events[..|events| - 1], gridSize) + [CellKey(events[|events| - 1].position, gridSize)]
  }

  /** The i-th key is the key of the i-th event. */
  lemma {:induction false} CellKeysAt(events: seq<GameplayEvent>, gridSize: real, i: int)
    requires gridSize > 0.0
    requires 0 <= i < |events|
    ensures CellKeys(events, gridSize)[i] == CellKey(events[i].position, gridSize)
  {
    var init := events[..|events| - 1];
    if i < |init| {
      CellKeysAt(init, gridSize, i);
    }
  }

  /** The number of events whose position falls into cell k. */
  function CountInCell(events: seq<GameplayEvent>, k: Cell, gridSize: real): nat
    requires gridSize > 0.0
  {
    multiset(CellKeys(events, gridSize))[k]
  }

  /** A cell has a positive count exactly when some event falls into it. */
  lemma CountInCellPositive(events: seq<GameplayEvent>, k: Cell, gridSize: real)
    requires gridSize > 0.0
    ensures CountInCell(events, k, gridSize) > 0 <==> exists e :: e in events && CellKey(e.position, gridSize) == k
  {
    var keys := CellKeys(events, gridSize);
    if CountInCell(events, k, gridSize) > 0 {
      assert k in keys;
      var i :| 0 <= i < |keys| && keys[i] == k;
      CellKeysAt(events, gridSize, i);
      assert events[i] in events;
    }
    if e :| e in events && CellKey(e.position, gridSize) == k {
      var i :| 0 <= i < |events| && events[i] == e;
      CellKeysAt(events, gridSize, i);
      assert keys[i] == k;
    }
  }

  /** Appending one event to the input appends its key to the keys. */
  lemma CellKeysSnoc(events: seq<GameplayEvent>, e: GameplayEvent, gridSize: real)
    requires gridSize > 0.0
    ensures multiset(CellKeys(events + [e], gridSize)) ==
      multiset(CellKeys(events, gridSize)) + multiset{CellKey(e.position, gridSize)}
  {
    var s := events + [e];
    assert s[..|s| - 1] == events;
  }

  /** A multiset of cells as a count table: each cell with its multiplicity. */
  function Tally(m: multiset<Cell>): map<Cell, nat>
  {
    map c | c in m :: m[c]
  }

  /** Adding one cell to the multiset adds one to that cell's entry, or creates it with 1. */
  lemma TallyAdd(m: multiset<Cell>, k: Cell)
    ensures var t := Tally(m);
      Tally(m + multiset{k}) == t[k := if k in t then t[k] + 1 else 1]
  {
    var t := Tally(m);
    var lhs := Tally(m + multiset{k});
    var rhs := t[k := if k in t then t[k] + 1 else 1];
    assert lhs.Keys == rhs.Keys;
    assert forall c :: c in lhs ==> lhs[c] == rhs[c];
  }

  /**
   * The count table the rebuild must produce, as a fold over the events:
   * each event adds one to its cell's entry, or creates the entry with 1.
   * GridOfTally below states what the table means: each cell with the
   * number of events whose key it is.
   */
  function GridOf(events: seq<GameplayEvent>, gridSize: real): (grid: map<Cell, nat>)
    requires gridSize > 0.0
    ensures events == [] <==> grid == map[]
  {
    if events == [] then map[]
    else
      var grid := GridOf(events[..|events| - 1], gridSize);
      var k := CellKey(events[|events| - 1].position, gridSize);
      grid[k := if k in grid then grid[k] + 1 else 1]
  }

  /** The fold yields the multiset of the events' cell keys, as a count table. */
  lemma {:induction false} GridOfTally(events: seq<GameplayEvent>, gridSize: real)
    requires gridSize > 0.0
    ensures GridOf(events, gridSize) == Tally(multiset(CellKeys(events, gridSize)))
  {
    if events != [] {
      var init := events[..|events| - 1];
      var last := events[|events| - 1];
      assert events == init + [last];
      GridOfTally(init, gridSize);
      CellKeysSnoc(init, last, gridSize);
      TallyAdd(multiset(CellKeys(init, gridSize)), CellKey(last.position, gridSize));
    }
  }

  /**
   * The table has an entry for the cell of every event, and only for
   * those cells; each entry is the count of its cell, between 1 and the
   * number of events.
   */
  lemma GridOfEntries(events: seq<GameplayEvent>, gridSize: real)
    requires gridSize > 0.0
    ensures forall k ::
      k in GridOf(events, gridSize) <==> exists e :: e in events && CellKey(e.position, gridSize) == k
    ensures forall k :: k in GridOf(events, gridSize) ==>
      1 <= GridOf(events, gridSize)[k] == CountInCell(events, k, gridSize) <= |events|
  {
    GridOfTally(events, gridSize);
    var keys := CellKeys(events, gridSize);
    forall k ensures k in GridOf(events, gridSize) <==> exists e :: e in events && CellKey(e.position, gridSize) == k {
      CountInCellPositive(events, k, gridSize);
    }
    assert forall k :: multiset(keys)[k] <= |multiset(keys)|;
  }

  /**
   * Appending one event to the input adds one to its cell's count, or
   * creates that cell with count 1: the step the rebuild loop takes.
   */
  lemma GridOfSnoc(events: seq<GameplayEvent>, e: GameplayEvent, gridSize: real)
    requires gridSize > 0.0
    ensures var k := CellKey(e.position, gridSize);
      var grid := GridOf(events, gridSize);
      GridOf(events + [e], gridSize) == grid[k := if k in grid then grid[k] + 1 else 1]
  {
    var s := events + [e];
    assert s[..|s| - 1] == events;
  }

  /** The empty input gives the empty table. */
  lemma GridOfEmpty(gridSize: real)
    requires gridSize > 0.0
    ensures GridOf([], gridSize) == map[]
  {
  }

  // ---------------------------------------------------------------------
  // Sum of the counts
  // ---------------------------------------------------------------------

  /** The sum of all values of a count table. */
  ghost function MapSum(m: map<Cell, nat>): nat
    decreases |m|
  {
    if m == map[] then 0
    else
      var k :| k in m;
      m[k] + MapSum(m - {k})
  }

  /** The sum can be split at any key, whichever key the definition picked. */
  lemma {:induction false} MapSumRemove(m: map<Cell, nat>, k: Cell)
    requires k in m
    ensures MapSum(m) == m[k] + MapSum(m - {k})
    decreases |m|
  {
    var j :| j in m && MapSum(m) == m[j] + MapSum(m - {j});
    if j != k {
      assert m - {j} - {k} == m - {k} - {j};
      MapSumRemove(m - {j}, k);
      MapSumRemove(m - {k}, j);
    }
  }

  /** Adding one to a cell, or creating it with 1, adds one to the sum. */
  lemma MapSumIncrement(m: map<Cell, nat>, k: Cell)
    ensures MapSum(m[k := if k in m then m[k] + 1 else 1]) == MapSum(m) + 1
  {
    var m' := m[k := if k in m then m[k] + 1 else 1];
    MapSumRemove(m', k);
    assert m' - {k} == m - {k};
    if k in m {
      MapSumRemove(m, k);
    } else {
      assert m - {k} == m;
    }
  }

  /** The counts of the table add up to the number of events counted. */
  lemma {:induction false} GridOfSum(events: seq<GameplayEvent>, gridSize: real)
    requires gridSize > 0.0
    ensures MapSum(GridOf(events, gridSize)) == |events|
  {
    if events == [] {
      GridOfEmpty(gridSize);
    } else {
      var init := events[..|events| - 1];
      var last := events[|events| - 1];
      assert events == init + [last];
      GridOfSum(init, gridSize);
      GridOfSnoc(init, last, gridSize);
      MapSumIncrement(GridOf(init, gridSize), CellKey(last.position, gridSize));
    }
  }

  // ---------------------------------------------------------------------
  // Normalisation maximum (HeatMapVisualizer.maxEventsInCell)
  // ---------------------------------------------------------------------

  /**
   * mx is the largest count of the table, or 1 when every count is
   * smaller than 1 (in particular when the table is empty).
   */
  predicate IsCappedMax(grid: map<Cell, nat>, mx: int)
  {
    && 1 <= mx
    && (forall k :: k in grid ==> grid[k] <= mx)
    && (mx == 1 || exists k :: k in grid && grid[k] == mx)
  }

  /** The capped maximum of a table is unique. */
  lemma CappedMaxUnique(grid: map<Cell, nat>, a: int, b: int)
    requires IsCappedMax(grid, a) && IsCappedMax(grid, b)
    ensures a == b
  {
    if a != 1 {
      var k :| k in grid && grid[k] == a;
    }
    if b != 1 {
      var k :| k in grid && grid[k] == b;
    }
  }

  /** The capped maximum of the empty table is 1. */
  lemma CappedMaxOfEmpty(mx: int)
    ensures IsCappedMax(map[], mx) <==> mx == 1
  {
  }

  /**
   * Raising one count to v keeps the capped maximum up to date when the
   * maximum is raised to v whenever v exceeds it.
   */
  lemma CappedMaxRaise(grid: map<Cell, nat>, mx: int, k: Cell, v: nat)
    requires IsCappedMax(grid, mx)
    requires k in grid ==> grid[k] <= v
    ensures IsCappedMax(grid[k := v], if v > mx then v else mx)
  {
    var grid' := grid[k := v];
    var mx' := if v > mx then v else mx;
    if mx' != 1 {
      if v > mx {
        assert grid'[k] == mx';
      } else {
        var j :| j in grid && grid[j] == mx;
        if j == k {
          assert grid'[k] == mx';
        } else {
          assert grid'[j] == mx';
        }
      }
    }
  }

  /**
   * One step of the rebuild loop: counting one more event in its cell and
   * raising the maximum when that cell's count exceeds it yields the table
   * and the capped maximum of the longer prefix.
   */
  lemma RebuildStep(prefix: seq<GameplayEvent>, e: GameplayEvent, gridSize: real,
                    grid: map<Cell, nat>, mx: int, grid': map<Cell, nat>, mx': int)
    requires gridSize > 0.0
    requires grid == GridOf(prefix, gridSize) && IsCappedMax(grid, mx)
    requires var k := CellKey(e.position, gridSize);
      && grid' == grid[k := if k in grid then grid[k] + 1 else 1]
      && mx' == if grid'[k] > mx then grid'[k] else mx
    ensures grid' == GridOf(prefix + [e], gridSize)
    ensures IsCappedMax(grid', mx')
  {
    var k := CellKey(e.position, gridSize);
    GridOfSnoc(prefix, e, gridSize);
    CappedMaxRaise(grid, mx, k, if k in grid then grid[k] + 1 else 1);
  }
}
