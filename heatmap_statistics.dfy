/**
 * The statistics text of the heatmap visualizer
 * (HeatMapVisualizer.GetStatistics, Assets/Scripts/HeatMapVisualizer.cs):
 * the loaded events grouped by their exact, case-sensitive event type, in
 * the order in which each type first appears, each group with its size.
 */
module HeatmapStatistics {
  import opened GameplayEvents

  /** The number of events whose type is exactly t. */
  function TypeCount(events: seq<GameplayEvent>, t: string): (n: nat)
    ensures n <= |events|
    ensures n > 0 <==> exists e :: e in events && e.eventType == t
  {
    if events == [] then 0
    else
      var init := events[..|events| - 1];
      var last := events[|events| - 1];
      assert events == init + [last];
      TypeCount(init, t) + if last.eventType == t then 1 else 0
  }

  /** No element occurs twice. */
  predicate Distinct<T(==)>(s: seq<T>)
  {
    forall i, j :: 0 <= i < j < |s| ==> s[i] != s[j]
  }

  /**
   * The group keys: every event type that occurs, each once, in the order
   * of its first occurrence.
   */
  function GroupKeys(events: seq<GameplayEvent>): (keys: seq<string>)
    ensures Distinct(keys)
    ensures |keys| <= |events|
    ensures forall t :: t in keys <==> exists e :: e in events && e.eventType == t
  {
    if events == [] then []
    else
      var init := events[..|events| - 1];
      var last := events[|events| - 1];
      assert events == init + [last];
      var keys := GroupKeys(init);
      if last.eventType in keys then keys else keys + [last.eventType]
  }

  /** The groups of the statistics: each type with the number of its events. */
  function TypeCounts(events: seq<GameplayEvent>): (groups: seq<(string, nat)>)
    ensures |groups| == |GroupKeys(events)| <= |events|
    ensures forall i :: 0 <= i < |groups| ==> groups[i].0 == GroupKeys(events)[i] && groups[i].1 >= 1
  {
    var keys := GroupKeys(events);
    assert forall i :: 0 <= i < |keys| ==> TypeCount(events, keys[i]) >= 1 by {
      forall i | 0 <= i < |keys| ensures TypeCount(events, keys[i]) >= 1 {
        assert keys[i] in keys;
      }
    }
    seq(|keys|, i requires 0 <= i < |keys| => (keys[i], TypeCount(events, keys[i])))
  }

  /** The sum of the counts of the given types. */
  function SumOfCounts(events: seq<GameplayEvent>, types: seq<string>): nat
  {
    if types == [] then 0
    else SumOfCounts(events, types[..|types| - 1]) + TypeCount(events, types[|types| - 1])
  }

  /** The sum of the second components of the groups. */
  function GroupTotal(groups: seq<(string, nat)>): nat
  {
    if groups == [] then 0 else GroupTotal(groups[..|groups| - 1]) + groups[|groups| - 1].1
  }

  /** Over distinct types, one more event adds one exactly when its type is among them. */
  lemma {:induction false} SumOfCountsSnoc(events: seq<GameplayEvent>, e: GameplayEvent, types: seq<string>)
    requires Distinct(types)
    ensures SumOfCounts(events + [e], types) ==
      SumOfCounts(events, types) + if e.eventType in types then 1 else 0
  {
    var s := events + [e];
    assert s[..|s| - 1] == events;
    if types != [] {
      var init := types[..|types| - 1];
      assert types == init + [types[|types| - 1]];
      SumOfCountsSnoc(events, e, init);
    }
  }

  /** The group totals are the per-type counts of the group keys. */
  lemma {:induction false} GroupTotalIsSumOfCounts(events: seq<GameplayEvent>, types: seq<string>)
    ensures GroupTotal(seq(|types|, i requires 0 <= i < |types| => (types[i], TypeCount(events, types[i]))))
      == SumOfCounts(events, types)
  {
    if types != [] {
      var init := types[..|types| - 1];
      var g := seq(|types|, i requires 0 <= i < |types| => (types[i], TypeCount(events, types[i])));
      var g' := seq(|init|, i requires 0 <= i < |init| => (init[i], TypeCount(events, init[i])));
      assert g[..|g| - 1] == g';
      GroupTotalIsSumOfCounts(events, init);
    }
  }

  /** Every event is in exactly one group: the group sizes add up to the number of events. */
  lemma {:induction false} GroupSizesAddUp(events: seq<GameplayEvent>)
    ensures SumOfCounts(events, GroupKeys(events)) == |events|
  {
    if events != [] {
      var init := events[..|events| - 1];
      var last := events[|events| - 1];
      assert events == init + [last];
      var keys := GroupKeys(init);
      GroupSizesAddUp(init);
      SumOfCountsSnoc(init, last, keys);
      if last.eventType !in keys {
        var keys' := keys + [last.eventType];
        assert keys'[..|keys'| - 1] == keys;
        assert TypeCount(init, last.eventType) == 0;
      }
    }
  }

  /**
   * The groups of the statistics text: one per event type that occurs,
   * each with the number of events of that type, and the counts add up
   * to the number of events.
   */
  lemma TypeCountsSummary(events: seq<GameplayEvent>)
    ensures forall i :: 0 <= i < |TypeCounts(events)| ==>
      TypeCounts(events)[i].1 == TypeCount(events, TypeCounts(events)[i].0) >= 1
    ensures forall e :: e in events ==> exists i :: 0 <= i < |TypeCounts(events)| && TypeCounts(events)[i].0 == e.eventType
    ensures GroupTotal(TypeCounts(events)) == |events|
  {
    var keys := GroupKeys(events);
    forall e | e in events
      ensures exists i :: 0 <= i < |TypeCounts(events)| && TypeCounts(events)[i].0 == e.eventType
    {
      assert e.eventType in keys;
      var i :| 0 <= i < |keys| && keys[i] == e.eventType;
      assert TypeCounts(events)[i].0 == e.eventType;
    }
    forall i | 0 <= i < |keys|
      ensures TypeCount(events, keys[i]) >= 1
    {
      assert keys[i] in keys;
    }
    GroupTotalIsSumOfCounts(events, keys);
    GroupSizesAddUp(events);
  }

  /** The decimal digits of a natural number, as int.ToString writes them. */
  function NatToString(n: nat): (s: string)
    ensures |s| >= 1
    ensures forall i :: 0 <= i < |s| ==> '0' <= s[i] <= '9'
    ensures s[0] == '0' <==> n == 0
    decreases n
  {
    var digit := ['0' + (n % 10) as char];
    if n < 10 then digit else NatToString(n / 10) + digit
  }

  /** The number a string of decimal digits denotes, most significant digit first. */
  function DigitsValue(s: string): nat
  {
    if s == [] then 0
    else
      var d := (s[|s| - 1] as int) - ('0' as int);
      DigitsValue(s[..|s| - 1]) * 10 + (if 0 <= d then d else 0)
  }

  /** Reading the digits back gives the number: no count is misprinted. */
  lemma {:induction false} NatToStringValue(n: nat)
    ensures DigitsValue(NatToString(n)) == n
    decreases n
  {
    var s := NatToString(n);
    if n >= 10 {
      NatToStringValue(n / 10);
      assert s[..|s| - 1] == NatToString(n / 10);
    }
  }

  /** The strings joined, with the separator between neighbours (string.Join). */
  function Join(separator: string, parts: seq<string>): (r: string)
    ensures parts != [] ==> parts[0] <= r
  {
    if parts == [] then ""
    else if |parts| == 1 then parts[0]
    else parts[0] + separator + Join(separator, parts[1..])
  }

  /** The text cut at every line break: its lines, in order, without the breaks. */
  function Lines(text: string): (lines: seq<string>)
    ensures |lines| >= 1
  {
    if text == [] then [""]
    else
      var rest := Lines(text[1..]);
      if text[0] == '\n' then [""] + rest
      else [[text[0]] + rest[0]] + rest[1..]
  }

  /** A piece without a line break runs into the first line of what follows it. */
  lemma {:induction false} LinesOfUnbroken(a: string, rest: string)
    requires '\n' !in a
    ensures Lines(a + rest) == [a + Lines(rest)[0]] + Lines(rest)[1..]
  {
    var r := Lines(rest);
    if a == [] {
      assert a + rest == rest;
      assert a + r[0] == r[0];
      assert [r[0]] + r[1..] == r;
    } else {
      assert a[0] in a;
      assert (a + rest)[1..] == a[1..] + rest;
      LinesOfUnbroken(a[1..], rest);
      var tail := Lines(a[1..] + rest);
      assert tail[1..] == r[1..];
      assert [a[0]] + (a[1..] + r[0]) == a + r[0];
    }
  }

  /** A line, a break and more text: that line, then the lines of the rest. */
  lemma LinesOfBreak(a: string, rest: string)
    requires '\n' !in a
    ensures Lines(a + "\n" + rest) == [a] + Lines(rest)
  {
    LinesOfUnbroken(a, "\n" + rest);
    assert ("\n" + rest)[1..] == rest;
    assert a + "\n" + rest == a + ("\n" + rest);
    assert Lines("\n" + rest) == [""] + Lines(rest);
    assert a + "" == a;
  }

  /** Cutting lines joined by line breaks at the breaks gives the lines back. */
  lemma {:induction false} LinesOfJoin(parts: seq<string>)
    requires parts != []
    requires forall i :: 0 <= i < |parts| ==> '\n' !in parts[i]
    ensures Lines(Join("\n", parts)) == parts
  {
    if |parts| == 1 {
      LinesOfUnbroken(parts[0], "");
      assert parts[0] + "" == parts[0];
    } else {
      LinesOfJoin(parts[1..]);
      LinesOfBreak(parts[0], Join("\n", parts[1..]));
      assert [parts[0]] + parts[1..] == parts;
    }
  }

  const NoData := "No hay datos cargados."
  const TotalLabel := "Total eventos: "

  /** The line of one group: its type, a colon and its count. */
  function GroupLine(t: string, count: nat): string
  {
    t + ": " + NatToString(count)
  }

  /** The lines of the groups, one per group, in group order. */
  function GroupLines(events: seq<GameplayEvent>): (lines: seq<string>)
    ensures |lines| == |GroupKeys(events)|
    ensures forall i :: 0 <= i < |lines| ==>
              lines[i] == GroupLine(GroupKeys(events)[i], TypeCount(events, GroupKeys(events)[i]))
  {
    var groups := TypeCounts(events);
    seq(|groups|, i requires 0 <= i < |groups| => GroupLine(groups[i].0, groups[i].1))
  }

  /**
   * The statistics text: a fixed message when nothing is loaded, otherwise
   * the total on the first line followed by one "type: count" line per group.
   */
  function Statistics(events: seq<GameplayEvent>): (text: string)
    ensures events == [] <==> text == NoData
    ensures events != [] ==> TotalLabel + NatToString(|events|) + "\n" <= text
  {
    if events == [] then NoData
    else
      var text := TotalLabel + NatToString(|events|) + "\n" + Join("\n", GroupLines(events));
      assert text[14] == ' ' != NoData[14];
      text
  }

  /** No event type contains a line break. */
  predicate SingleLineTypes(events: seq<GameplayEvent>)
  {
    forall e :: e in events ==> '\n' !in e.eventType
  }

  /**
   * The lines of the statistics text: the total first, then exactly one line
   * for each distinct exact type, with the number of events of that type;
   * these numbers add up to the total.
   */
  lemma StatisticsLines(events: seq<GameplayEvent>)
    requires events != []
    requires SingleLineTypes(events)
    ensures var keys := GroupKeys(events);
      var lines := Lines(Statistics(events));
      && Distinct(keys)
      && |lines| == |keys| + 1
      && lines[0] == TotalLabel + NatToString(|events|)
      && (forall i :: 0 <= i < |keys| ==> lines[i + 1] == GroupLine(keys[i], TypeCount(events, keys[i])))
      && SumOfCounts(events, keys) == |events|
  {
    var keys := GroupKeys(events);
    var groupLines := GroupLines(events);
    assert events[0].eventType in keys;
    forall i | 0 <= i < |groupLines|
      ensures '\n' !in groupLines[i]
    {
      assert keys[i] in keys;
      var d := NatToString(TypeCount(events, keys[i]));
      assert groupLines[i] == keys[i] + ": " + d;
      assert forall j :: 0 <= j < |d| ==> d[j] != '\n';
    }
    var total := TotalLabel + NatToString(|events|);
    assert '\n' !in total by {
      var d := NatToString(|events|);
      assert forall j :: 0 <= j < |d| ==> d[j] != '\n';
    }
    LinesOfJoin(groupLines);
    LinesOfBreak(total, Join("\n", groupLines));
    GroupSizesAddUp(events);
  }

  /**
   * Every event type that occurs has a line of its own in the statistics
   * text, carrying the exact number of events of that type.
   */
  lemma StatisticsListsEveryType(events: seq<GameplayEvent>, e: GameplayEvent)
    requires e in events
    requires SingleLineTypes(events)
    ensures GroupLine(e.eventType, TypeCount(events, e.eventType)) in Lines(Statistics(events))
  {
    var keys := GroupKeys(events);
    StatisticsLines(events);
    assert e.eventType in keys;
    var i :| 0 <= i < |keys| && keys[i] == e.eventType;
    assert Lines(Statistics(events))[i + 1] == GroupLine(e.eventType, TypeCount(events, e.eventType));
  }
}
