/**
 * The weekly heating schedule of web/js/dataFunctions.js. Times are minutes of the week and
 * temperatures hundredths of a degree, the units of the wire; an hour there is 60 here.
 */
module Schedule {
  import opened Options

  const SLOTS: nat := 48
  const DAYS: nat := 7
  const WEEK: int := 10080

  function DayStart(d: int): int {
    1440 * d
  }

  function SlotStart(s: int): int {
    30 * s
  }

  datatype Point = Point(time: int, temp: int)

  /** A chart: its 48 bars, and the days it is switched on or off for. */
  datatype Group = Group(enabledDays: map<nat, bool>, values: seq<Point>)

  // ----- what a list of change points means -----

  /** The temperature in force at time t if `before` was in force until the list. */
  function InForce(ps: seq<Point>, t: int, before: int): int {
    if ps == [] then before
    else InForce(ps[1..], t, if ps[0].time <= t then ps[0].temp else before)
  }

  function Last(ps: seq<Point>): Point
    requires ps != []
  {
    ps[|ps| - 1]
  }

  /** The week repeats: before the first point the last one applies. */
  function TempAt(ps: seq<Point>, t: int): int
    requires ps != []
  {
    InForce(ps, t, Last(ps).temp)
  }

  ghost predicate Increasing(ps: seq<Point>) {
    forall i, j :: 0 <= i < j < |ps| ==> ps[i].time < ps[j].time
  }

  ghost predicate OnGrid(ps: seq<Point>) {
    forall i :: 0 <= i < |ps| ==> 0 <= ps[i].time < WEEK && ps[i].time % 30 == 0
  }

  /** Points as they come off the wire: in any order, at any time from 0 on. */
  ghost predicate InTime(ps: seq<Point>) {
    forall i :: 0 <= i < |ps| ==> ps[i].time >= 0
  }

  /** A schedule as the device stores it. */
  ghost predicate WellFormed(ps: seq<Point>) {
    ps != [] && Increasing(ps) && OnGrid(ps)
  }

  /** No point is superfluous and the week starts with one. */
  ghost predicate Canonical(ps: seq<Point>) {
    && WellFormed(ps) && ps[0].time == 0
    && forall i :: 0 < i < |ps| ==> ps[i - 1].temp != ps[i].temp
  }

  lemma {:induction false} InForceConcat(a: seq<Point>, b: seq<Point>, t: int, before: int)
    ensures InForce(a + b, t, before) == InForce(b, t, InForce(a, t, before))
    decreases |a|
  {
    if a == [] {
      assert a + b == b;
    } else {
      assert (a + b)[1..] == a[1..] + b;
      InForceConcat(a[1..], b, t, if a[0].time <= t then a[0].temp else before);
    }
  }

  lemma {:induction false} InForceLater(ps: seq<Point>, t: int, before: int)
    requires forall i :: 0 <= i < |ps| ==> ps[i].time > t
    ensures InForce(ps, t, before) == before
    decreases |ps|
  {
    if ps != [] {
      InForceLater(ps[1..], t, before);
    }
  }

  /** In an increasing list the last point not after t decides. */
  lemma {:induction false} InForceAt(ps: seq<Point>, t: int, before: int, k: nat)
    requires Increasing(ps) && k < |ps| && ps[k].time <= t && (k + 1 < |ps| ==> t < ps[k + 1].time)
    ensures InForce(ps, t, before) == ps[k].temp
    decreases |ps|
  {
    if k == 0 {
      InForceLater(ps[1..], t, ps[0].temp);
    } else {
      InForceAt(ps[1..], t, if ps[0].time <= t then ps[0].temp else before, k - 1);
    }
  }

  // ----- change points out of bars: getDataFromBars -----

  /** The states whose temperature differs from the one before; None stands for undefined. */
  function Changes(states: seq<Point>, last: Option<int>): seq<Point> {
    if states == [] then []
    else if last == Some(states[0].temp) then Changes(states[1..], last)
    else [states[0]] + Changes(states[1..], Some(states[0].temp))
  }

  lemma {:induction false} ChangesSnoc(states: seq<Point>, s: Point, last: Option<int>)
    ensures Changes(states + [s], last) ==
            Changes(states, last) + (if (if states == [] then last else Some(Last(states).temp)) == Some(s.temp) then [] else [s])
    decreases |states|
  {
    if states == [] {
      assert (states + [s])[1..] == [];
    } else {
      assert (states + [s])[1..] == states[1..] + [s];
      var last' := if last == Some(states[0].temp) then last else Some(states[0].temp);
      ChangesSnoc(states[1..], s, last');
    }
  }

  method GetDataFromBars(states: seq<Point>) returns (data: seq<Point>)
    ensures data == Changes(states, None)
  {
    data := [];
    var lastTemp: Option<int> := None;
    for i := 0 to |states|
      invariant data == Changes(states[..i], None)
      invariant lastTemp == if i == 0 then None else Some(states[i - 1].temp)
    {
      ChangesSnoc(states[..i], states[i], None);
      assert states[..i + 1] == states[..i] + [states[i]];
      if Some(states[i].temp) != lastTemp {
        data := data + [states[i]];
        lastTemp := Some(states[i].temp);
      }
    }
    assert states[..|states|] == states;
  }

  /** The change points mean what the states mean. */
  lemma {:induction false} ChangesInForce(states: seq<Point>, last: int, t: int)
    requires Increasing(states)
    ensures InForce(Changes(states, Some(last)), t, last) == InForce(states, t, last)
    decreases |states|
  {
    if states != [] {
      if states[0].time <= t {
        ChangesInForce(states[1..], states[0].temp, t);
      } else {
        ChangesAreStates(states, Some(last));
        InForceLater(states, t, last);
        InForceLater(Changes(states, Some(last)), t, last);
      }
    }
  }

  /** Change points are some of the states, in their order. */
  lemma {:induction false} ChangesAreStates(states: seq<Point>, last: Option<int>)
    ensures forall i :: 0 <= i < |Changes(states, last)| ==> Changes(states, last)[i] in states
    ensures Increasing(states) ==> Increasing(Changes(states, last))
    decreases |states|
  {
    if states != [] {
      var last' := if last == Some(states[0].temp) then last else Some(states[0].temp);
      ChangesAreStates(states[1..], last');
    }
  }

  lemma {:induction false} ChangesDiffer(states: seq<Point>, last: Option<int>)
    ensures var c := Changes(states, last);
            (forall i :: 0 < i < |c| ==> c[i - 1].temp != c[i].temp) && (c != [] ==> last != Some(c[0].temp))
    decreases |states|
  {
    if states != [] {
      var last' := if last == Some(states[0].temp) then last else Some(states[0].temp);
      ChangesDiffer(states[1..], last');
    }
  }

  // ----- bars out of the points of one day: prepareDataForBars -----

  /** The index the loop has reached after slot i. */
  function BarIndex(data: seq<Point>, i: nat): (k: nat)
    requires data != []
    ensures k < |data|
  {
    var k := if i == 0 then 0 else BarIndex(data, i - 1);
    if k + 1 < |data| && data[k + 1].time <= SlotStart(i) then k + 1 else k
  }

  function Bars(data: seq<Point>): (bars: seq<Point>)
    requires data != []
    ensures |bars| == SLOTS
  {
    seq(SLOTS, i requires 0 <= i < SLOTS => Point(SlotStart(i), data[BarIndex(data, i)].temp))
  }

  method PrepareDataForBars(data: seq<Point>) returns (states: seq<Point>)
    requires data != []
    ensures states == Bars(data)
  {
    states := [];
    var dataIndex := 0;
    for i := 0 to SLOTS
      invariant |states| == i && BarsSoFar(states, data)
      invariant dataIndex == if i == 0 then 0 else BarIndex(data, i - 1)
    {
      hide BarsSoFar;
      ghost var before := states;
      if dataIndex + 1 < |data| && data[dataIndex + 1].time <= SlotStart(i) {
        dataIndex := dataIndex + 1;
      }
      states := states + [Point(SlotStart(i), data[dataIndex].temp)];
      OneMoreBar(before, data);
    }
  }

  ghost predicate BarsSoFar(states: seq<Point>, data: seq<Point>)
    requires data != []
  {
    forall j :: 0 <= j < |states| ==> states[j] == Point(SlotStart(j), data[BarIndex(data, j)].temp)
  }

  lemma OneMoreBar(states: seq<Point>, data: seq<Point>)
    requires data != [] && BarsSoFar(states, data)
    ensures var i := |states|; BarsSoFar(states + [Point(SlotStart(i), data[BarIndex(data, i)].temp)], data)
  {
    hide BarIndex, SlotStart;
  }

  /** Slot i shows the last point not after it. */
  ghost predicate Current(data: seq<Point>, i: nat)
    requires data != []
  {
    var k := BarIndex(data, i);
    data[k].time <= SlotStart(i) && (k + 1 < |data| ==> SlotStart(i) < data[k + 1].time)
  }

  /** On the half-hour grid the loop keeps up: no slot has two points. */
  lemma {:induction false} BarIndexKeepsUp(data: seq<Point>, i: nat)
    requires WellFormed(data) && data[0].time == 0
    ensures Current(data, i)
  {
    if i > 0 {
      BarIndexKeepsUp(data, i - 1);
    }
    var k := BarIndex(data, i);
    if k + 1 < |data| {
      GridStep(data[k].time, data[k + 1].time, i);
    }
  }

  /** Point k and the next one both come after slot i and not after slot i + 1. */
  ghost predicate Crowded(data: seq<Point>, i: nat, k: nat) {
    k + 1 < |data| && SlotStart(i) < data[k].time && data[k + 1].time <= SlotStart(i + 1)
  }

  /**
   * Off the grid the index is late: the first n slots are all current if and only if no two
   * points lie between two of them.
   */
  lemma {:induction false} CurrentIffNotCrowded(data: seq<Point>, n: nat)
    requires data != [] && Increasing(data) && data[0].time == 0
    ensures (forall i: nat :: i < n ==> Current(data, i)) <==> (forall i: nat, k: nat :: i + 1 < n ==> !Crowded(data, i, k))
  {
    if n > 1 {
      CurrentIffNotCrowded(data, n - 1);
      if forall i: nat :: i < n - 1 ==> Current(data, i) {
        NextCurrent(data, n - 2);
      }
    }
  }

  lemma NextCurrent(data: seq<Point>, i: nat)
    requires data != [] && Increasing(data) && Current(data, i)
    ensures Current(data, i + 1) <==> (forall k: nat :: !Crowded(data, i, k))
  {
    hide SlotStart;
    var k := BarIndex(data, i);
    SlotsApart(i);
    if !Current(data, i + 1) {
      assert Crowded(data, i, k + 1);
    }
  }

  lemma SlotsApart(i: nat)
    ensures SlotStart(i) < SlotStart(i + 1)
  {
  }

  /** Points at 0:00, 0:10 and 0:20: at 0:30 the bar still shows the second. */
  lemma LateBar()
    ensures var data := [Point(0, 1800), Point(10, 1900), Point(20, 2000)];
            && Increasing(data) && Crowded(data, 0, 1)
            && Bars(data)[1] == Point(30, 1900) && InForce(data, 30, 0) == 2000
  {
    var data := [Point(0, 1800), Point(10, 1900), Point(20, 2000)];
    assert BarIndex(data, 0) == 0;
    assert BarIndex(data, 1) == 1;
    InForceAt(data, 30, 0, 2);
  }

  lemma GridStep(a: int, b: int, i: nat)
    requires a % 30 == 0 && b % 30 == 0 && a < b
    ensures a == SlotStart(i) ==> SlotStart(i) < b
    ensures i > 0 && SlotStart(i - 1) < b ==> SlotStart(i) <= b
  {
  }

  lemma BarsAreInForce(data: seq<Point>, i: nat, before: int)
    requires WellFormed(data) && data[0].time == 0 && i < SLOTS
    ensures Bars(data)[i] == Point(SlotStart(i), InForce(data, SlotStart(i), before))
  {
    BarIndexKeepsUp(data, i);
    InForceAt(data, SlotStart(i), before, BarIndex(data, i));
  }

  // ----- points grouped by day, missing days filled in: getStatesByDay -----

  function DayOf(p: Point): int {
    p.time / 1440
  }

  /** The points of day d, in order. */
  function DayPoints(ps: seq<Point>, d: int): seq<Point> {
    if ps == [] then []
    else (if DayOf(ps[0]) == d then [ps[0]] else []) + DayPoints(ps[1..], d)
  }

  ghost predicate InDay(q: seq<Point>, d: int) {
    forall i :: 0 <= i < |q| ==> DayStart(d) <= q[i].time < DayStart(d + 1) && q[i].time % 30 == 0
  }

  /** An entry of d3.nest: a day and its points, later its bars. */
  datatype DayEntry = DayEntry(key: nat, values: seq<Point>)

  /** The days end here: a week, or later if some point lies behind it. */
  function Horizon(ps: seq<Point>): (h: int)
    ensures h >= DAYS
    ensures forall i :: 0 <= i < |ps| ==> DayOf(ps[i]) < h
  {
    if ps == [] then DAYS
    else
      var h := Horizon(ps[1..]);
      if DayOf(ps[0]) < h then h else DayOf(ps[0]) + 1
  }

  /** d3.nest by day: the days that have points, from d on, in ascending order. */
  function NestFrom(ps: seq<Point>, d: nat): seq<DayEntry>
    decreases Horizon(ps) - d
  {
    if d >= Horizon(ps) then []
    else (if DayPoints(ps, d) == [] then [] else [DayEntry(d, DayPoints(ps, d))]) + NestFrom(ps, d + 1)
  }

  /** The last temperature of the last day up to d that has points. */
  function Latest(ps: seq<Point>, d: int): int
    decreases d
  {
    if d < 0 then 0
    else if DayPoints(ps, d) != [] then Last(DayPoints(ps, d)).temp
    else Latest(ps, d - 1)
  }

  /** The last temperature of the last day that has points. */
  function FinalTemp(ps: seq<Point>): int {
    Latest(ps, Horizon(ps) - 1)
  }

  /** The last temperature seen at the end of day d; -1 stands for the week before. */
  function EndTemp(ps: seq<Point>, d: int): int
    requires ps != [] && d >= -1
  {
    if d == -1 then FinalTemp(ps)
    else if DayPoints(ps, d) != [] then Last(DayPoints(ps, d)).temp
    else EndTemp(ps, d - 1)
  }

  /** Day d once missing days are filled in. */
  function Filled(ps: seq<Point>, d: nat): (q: seq<Point>)
    requires ps != []
    ensures q != []
  {
    if DayPoints(ps, d) != [] then DayPoints(ps, d) else [Point(DayStart(d), EndTemp(ps, d - 1))]
  }

  function Shifted(ps: seq<Point>, offset: int): (q: seq<Point>)
    ensures |q| == |ps| && forall i :: 0 <= i < |ps| ==> q[i] == Point(ps[i].time - offset, ps[i].temp)
  {
    seq(|ps|, i requires 0 <= i < |ps| => Point(ps[i].time - offset, ps[i].temp))
  }

  /** Points of a day in its own time, with a point at 0 that carries e if there is none. */
  function StartedWith(rel: seq<Point>, e: int): (q: seq<Point>)
    requires rel != []
    ensures q != []
  {
    if rel[0].time != 0 then [Point(0, e)] + rel else rel
  }

  /** Day d in its own time, started with the temperature of the day before. */
  function Started(ps: seq<Point>, d: nat): (q: seq<Point>)
    requires ps != []
    ensures q != []
  {
    StartedWith(Shifted(Filled(ps, d), DayStart(d)), EndTemp(ps, d - 1))
  }

  /** The days once the missing ones are filled in; days behind the week stay as they are. */
  function Entries(ps: seq<Point>): (entries: seq<DayEntry>)
    requires ps != []
    ensures |entries| >= DAYS
  {
    seq(DAYS, d requires 0 <= d < DAYS => DayEntry(d, Filled(ps, d))) + NestFrom(ps, DAYS)
  }

  ghost predicate NoneEmpty(entries: seq<DayEntry>) {
    entries != [] && forall i :: 0 <= i < |entries| ==> entries[i].values != []
  }

  /** The bars of entry i: it starts with the last bar before it, the first one with the last point of all. */
  function RowBars(entries: seq<DayEntry>, i: nat): (bars: seq<Point>)
    requires NoneEmpty(entries) && i < |entries|
    ensures |bars| == SLOTS
  {
    var e := if i == 0 then Last(entries[|entries| - 1].values).temp else Last(RowBars(entries, i - 1)).temp;
    Bars(StartedWith(Shifted(entries[i].values, DayStart(entries[i].key)), e))
  }

  /** The days and bars made of any points. */
  function Rows(ps: seq<Point>): (rows: seq<DayEntry>)
    requires ps != []
    ensures |rows| == |Entries(ps)|
  {
    EntriesNotEmpty(ps);
    var entries := Entries(ps);
    seq(|entries|, i requires 0 <= i < |entries| => DayEntry(entries[i].key, RowBars(entries, i)))
  }

  lemma {:induction false} NestNotEmpty(ps: seq<Point>, d: nat)
    ensures forall i :: 0 <= i < |NestFrom(ps, d)| ==> NestFrom(ps, d)[i].values != []
    decreases Horizon(ps) - d
  {
    if d < Horizon(ps) {
      NestNotEmpty(ps, d + 1);
    }
  }

  lemma EntriesNotEmpty(ps: seq<Point>)
    requires ps != []
    ensures NoneEmpty(Entries(ps))
  {
    hide Filled, NestFrom;
    NestNotEmpty(ps, DAYS);
  }

  /** What the week means: the bars of each day. */
  ghost function DayBars(ps: seq<Point>, d: nat): (bars: seq<Point>)
    requires ps != []
    ensures |bars| == SLOTS
  {
    seq(SLOTS, s requires 0 <= s < SLOTS => Point(SlotStart(s), TempAt(ps, DayStart(d) + SlotStart(s))))
  }

  lemma {:induction false} IncreasingTail(ps: seq<Point>)
    requires Increasing(ps) && ps != []
    ensures Increasing(ps[1..]) && forall i :: 0 <= i < |ps[1..]| ==> ps[1..][i].time > ps[0].time
  {
  }

  ghost predicate After(ps: seq<Point>, t: int) {
    forall i :: 0 <= i < |ps| ==> ps[i].time > t
  }

  lemma IncreasingCons(p: Point, q: seq<Point>)
    requires Increasing(q) && After(q, p.time)
    ensures Increasing([p] + q)
  {
  }

  lemma {:induction false} DayPointsAfter(ps: seq<Point>, d: int, t: int)
    requires After(ps, t)
    ensures After(DayPoints(ps, d), t)
    decreases |ps|
  {
    if ps != [] {
      DayPointsAfter(ps[1..], d, t);
    }
  }

  lemma {:induction false} DayPointsIncreasing(ps: seq<Point>, d: int)
    requires Increasing(ps)
    ensures Increasing(DayPoints(ps, d))
    decreases |ps|
  {
    if ps != [] {
      IncreasingTail(ps);
      DayPointsIncreasing(ps[1..], d);
      DayPointsAfter(ps[1..], d, ps[0].time);
      IncreasingCons(ps[0], DayPoints(ps[1..], d));
      hide Increasing, After;
      assert [] + DayPoints(ps[1..], d) == DayPoints(ps[1..], d);
    }
  }

  lemma {:induction false} DayPointsInDay(ps: seq<Point>, d: int)
    requires OnGrid(ps)
    ensures InDay(DayPoints(ps, d), d)
    decreases |ps|
  {
    if ps != [] {
      DayBounds(ps[0], d);
      DayPointsInDay(ps[1..], d);
    }
  }

  lemma DayBounds(p: Point, d: int)
    ensures DayOf(p) < d <==> p.time < DayStart(d)
    ensures DayOf(p) == d <==> DayStart(d) <= p.time < DayStart(d + 1)
  {
  }

  /** Within day d only the points of day d and what was in force before them matter. */
  lemma {:induction false} InForceByDay(ps: seq<Point>, d: int, t: int, before: int)
    requires Increasing(ps) && DayStart(d) <= t < DayStart(d + 1)
    ensures InForce(ps, t, before) == InForce(DayPoints(ps, d), t, InForce(ps, DayStart(d) - 1, before))
    decreases |ps|
  {
    if ps != [] {
      var h, rest := ps[0], ps[1..];
      IncreasingTail(ps);
      DayBounds(h, d);
      if DayOf(h) < d {
        InForceByDay(rest, d, t, h.temp);
        assert [] + DayPoints(rest, d) == DayPoints(rest, d);
      } else {
        InForceLater(rest, DayStart(d) - 1, before);
        InForceByDay(rest, d, t, if h.time <= t then h.temp else before);
        InForceLater(rest, DayStart(d) - 1, if h.time <= t then h.temp else before);
        assert ([h] + DayPoints(rest, d))[1..] == DayPoints(rest, d);
      }
    }
  }

  /** A whole increasing list in force: its last temperature. */
  lemma {:induction false} InForceAll(ps: seq<Point>, t: int, before: int)
    requires ps != [] && forall i :: 0 <= i < |ps| ==> ps[i].time <= t
    ensures InForce(ps, t, before) == Last(ps).temp
    decreases |ps|
  {
    if |ps| > 1 {
      InForceAll(ps[1..], t, ps[0].temp);
    }
  }

  /** The last temperature of a day is what is in force at its end. */
  lemma {:induction false} EndTempInForce(ps: seq<Point>, d: int)
    requires WellFormed(ps) && -1 <= d < DAYS
    ensures EndTemp(ps, d) == InForce(ps, DayStart(d + 1) - 1, Last(ps).temp)
    decreases d + 1
  {
    if d == -1 {
      InForceLater(ps, -1, Last(ps).temp);
      FinalIsLast(ps);
    } else {
      EndTempInForce(ps, d - 1);
      var t := DayStart(d + 1) - 1;
      InForceByDay(ps, d, t, Last(ps).temp);
      var q := DayPoints(ps, d);
      if q != [] {
        DayPointsInDay(ps, d);
        InForceAll(q, t, EndTemp(ps, d - 1));
      }
    }
  }

  lemma {:induction false} ShiftedInForce(ps: seq<Point>, offset: int, t: int, before: int)
    ensures InForce(Shifted(ps, offset), t, before) == InForce(ps, t + offset, before)
    decreases |ps|
  {
    if ps != [] {
      assert Shifted(ps, offset)[1..] == Shifted(ps[1..], offset);
      ShiftedInForce(ps[1..], offset, t, if ps[0].time <= t + offset then ps[0].temp else before);
    }
  }

  lemma FilledInDay(ps: seq<Point>, d: nat)
    requires WellFormed(ps) && d < DAYS
    ensures Increasing(Filled(ps, d)) && InDay(Filled(ps, d), d) && Last(Filled(ps, d)).temp == EndTemp(ps, d)
  {
    hide DayPoints, WellFormed, OnGrid;
    WellFormedParts(ps);
    DayPointsIncreasing(ps, d);
    DayPointsInDay(ps, d);
  }

  lemma WellFormedParts(ps: seq<Point>)
    requires WellFormed(ps)
    ensures ps != [] && Increasing(ps) && OnGrid(ps)
  {
  }

  lemma ShiftedInDay(q: seq<Point>, d: nat)
    requires Increasing(q) && InDay(q, d)
    ensures Increasing(Shifted(q, DayStart(d))) && InDay(Shifted(q, DayStart(d)), 0)
  {
  }

  lemma StartedWellFormed(ps: seq<Point>, d: nat)
    requires WellFormed(ps) && d < DAYS
    ensures WellFormed(Started(ps, d)) && Started(ps, d)[0].time == 0
  {
    hide WellFormed, Filled, EndTemp;
    WellFormedParts(ps);
    FilledInDay(ps, d);
    ShiftedInDay(Filled(ps, d), d);
    StartedShape(Shifted(Filled(ps, d), DayStart(d)), EndTemp(ps, d - 1));
  }

  lemma StartedShape(rel: seq<Point>, e: int)
    requires rel != [] && Increasing(rel) && InDay(rel, 0)
    ensures var q := if rel[0].time != 0 then [Point(0, e)] + rel else rel; WellFormed(q) && q[0].time == 0
  {
    var q := [Point(0, e)] + rel;
    if rel[0].time != 0 {
      forall i, j | 0 <= i < j < |q|
        ensures q[i].time < q[j].time
      {
        assert q[j] == rel[j - 1];
        assert i > 0 ==> q[i] == rel[i - 1];
        assert rel[0].time <= rel[j - 1].time;
      }
      forall i | 0 <= i < |q|
        ensures 0 <= q[i].time < WEEK && q[i].time % 30 == 0
      {
        assert i > 0 ==> q[i] == rel[i - 1];
      }
    }
  }

  /** A point at 0 carrying e, unless there is one, is the same as e in force before. */
  lemma StartedFrom(rel: seq<Point>, e: int, t: int)
    requires rel != [] && t >= 0
    ensures var q := if rel[0].time != 0 then [Point(0, e)] + rel else rel; InForce(q, t, 0) == InForce(rel, t, e)
  {
    if rel[0].time != 0 {
      assert ([Point(0, e)] + rel)[1..] == rel;
    }
  }

  lemma FilledInForce(ps: seq<Point>, d: nat, t: int)
    requires WellFormed(ps) && d < DAYS && DayStart(d) <= t < DayStart(d + 1)
    ensures InForce(Filled(ps, d), t, EndTemp(ps, d - 1)) == TempAt(ps, t)
  {
    hide DayPoints, WellFormed;
    WellFormedParts(ps);
    EndTempInForce(ps, d - 1);
    InForceByDay(ps, d, t, Last(ps).temp);
  }

  /** In force during day d: the day's own list, started with the temperature of the day before. */
  lemma StartedInForce(ps: seq<Point>, d: nat, s: nat)
    requires WellFormed(ps) && d < DAYS && s < SLOTS
    ensures InForce(Started(ps, d), SlotStart(s), 0) == TempAt(ps, DayStart(d) + SlotStart(s))
  {
    hide WellFormed, Filled, EndTemp, InForce;
    WellFormedParts(ps);
    var e, filled := EndTemp(ps, d - 1), Filled(ps, d);
    FilledInForce(ps, d, DayStart(d) + SlotStart(s));
    ShiftedInForce(filled, DayStart(d), SlotStart(s), e);
    StartedFrom(Shifted(filled, DayStart(d)), e, SlotStart(s));
  }

  lemma BarOfDay(ps: seq<Point>, d: nat, s: nat)
    requires WellFormed(ps) && d < DAYS && s < SLOTS
    ensures Bars(Started(ps, d))[s] == DayBars(ps, d)[s]
  {
    hide WellFormed, Started, Bars, TempAt, InForce, DayStart, SlotStart;
    WellFormedParts(ps);
    StartedWellFormed(ps, d);
    BarsAreInForce(Started(ps, d), s, 0);
    StartedInForce(ps, d, s);
  }

  /** The bars of a day show what is in force at each half hour. */
  lemma BarsOfDay(ps: seq<Point>, d: nat)
    requires WellFormed(ps) && d < DAYS
    ensures Bars(Started(ps, d)) == DayBars(ps, d)
  {
    hide WellFormed, Started, Bars, DayBars;
    WellFormedParts(ps);
    forall s | 0 <= s < SLOTS
      ensures Bars(Started(ps, d))[s] == DayBars(ps, d)[s]
    {
      BarOfDay(ps, d, s);
    }
  }

  /** Between two half hours nothing changes. */
  lemma {:induction false} InForceOnGrid(ps: seq<Point>, t: int, t': int, before: int)
    requires OnGrid(ps) && t % 30 == 0 && t <= t' < t + 30
    ensures InForce(ps, t', before) == InForce(ps, t, before)
    decreases |ps|
  {
    if ps != [] {
      InForceOnGrid(ps[1..], t, t', if ps[0].time <= t then ps[0].temp else before);
    }
  }

  /** The last bar of a day is the day's last temperature. */
  lemma LastBar(ps: seq<Point>, d: nat)
    requires WellFormed(ps) && d < DAYS
    ensures Last(DayBars(ps, d)).temp == EndTemp(ps, d)
  {
    EndTempInForce(ps, d);
    InForceOnGrid(ps, DayStart(d) + SlotStart(47), DayStart(d + 1) - 1, Last(ps).temp);
  }

  lemma WeekEnds(ps: seq<Point>)
    requires WellFormed(ps)
    ensures EndTemp(ps, 6) == Last(ps).temp
  {
    EndTempInForce(ps, 6);
    InForceAll(ps, WEEK - 1, Last(ps).temp);
  }

  lemma {:induction false} LastDayPoint(ps: seq<Point>, d: int)
    requires ps != [] && DayOf(Last(ps)) == d
    ensures DayPoints(ps, d) != [] && Last(DayPoints(ps, d)) == Last(ps)
    decreases |ps|
  {
    if |ps| > 1 {
      LastDayPoint(ps[1..], d);
    } else {
      assert ps[1..] == [];
    }
  }

  lemma {:induction false} NoLaterDay(ps: seq<Point>, d: int)
    requires forall i :: 0 <= i < |ps| ==> DayOf(ps[i]) < d
    ensures DayPoints(ps, d) == []
    decreases |ps|
  {
    if ps != [] {
      NoLaterDay(ps[1..], d);
    }
  }

  lemma AllBefore(ps: seq<Point>, d: nat)
    requires WellFormed(ps) && d > DayOf(Last(ps))
    ensures forall i :: 0 <= i < |ps| ==> DayOf(ps[i]) < d
  {
    hide OnGrid, DayOf;
    DayBounds(Last(ps), d);
    forall i | 0 <= i < |ps|
      ensures DayOf(ps[i]) < d
    {
      assert ps[i].time <= Last(ps).time;
      DayBounds(ps[i], d);
    }
  }

  lemma NestHead(ps: seq<Point>, d: nat)
    ensures DayPoints(ps, d) != [] && d < Horizon(ps) ==> NestFrom(ps, d) == [DayEntry(d, DayPoints(ps, d))] + NestFrom(ps, d + 1)
    ensures DayPoints(ps, d) == [] ==> NestFrom(ps, d) == NestFrom(ps, d + 1)
    ensures DayPoints(ps, d) == [] && NestFrom(ps, d) != [] ==> NestFrom(ps, d)[0].key != d
  {
    NestKeys(ps, d + 1);
  }

  lemma {:induction false} NestKeys(ps: seq<Point>, d: nat)
    ensures forall i :: 0 <= i < |NestFrom(ps, d)| ==> NestFrom(ps, d)[i].key >= d
    decreases Horizon(ps) - d
  {
    if d < Horizon(ps) {
      NestKeys(ps, d + 1);
    }
  }

  lemma {:induction false} LatestSkips(ps: seq<Point>, d: nat)
    requires d <= Horizon(ps) && NestFrom(ps, d) == []
    ensures FinalTemp(ps) == Latest(ps, d - 1)
    decreases Horizon(ps) - d
  {
    if d < Horizon(ps) {
      LatestSkips(ps, d + 1);
    }
  }

  /** The last entry of d3.nest ends with the last temperature of the last day. */
  lemma {:induction false} NestEnds(ps: seq<Point>, d: nat)
    requires d <= Horizon(ps) && NestFrom(ps, d) != []
    ensures var e := NestFrom(ps, d)[|NestFrom(ps, d)| - 1]; e.values != [] && Last(e.values).temp == FinalTemp(ps)
    decreases Horizon(ps) - d
  {
    hide DayPoints;
    if NestFrom(ps, d + 1) != [] {
      NestEnds(ps, d + 1);
    } else {
      LatestSkips(ps, d + 1);
    }
  }

  lemma {:induction false} NestHolds(ps: seq<Point>, d: nat, e: nat)
    requires d <= e < Horizon(ps) && DayPoints(ps, e) != []
    ensures NestFrom(ps, d) != []
    decreases e - d
  {
    if d < e {
      NestHolds(ps, d + 1, e);
    }
  }

  lemma SomeDay(ps: seq<Point>)
    requires ps != [] && InTime(ps)
    ensures NestFrom(ps, 0) != []
  {
    NestHolds(ps, 0, DayOf(ps[0]));
  }

  /** In an increasing list the last point belongs to the last day. */
  lemma FinalIsLast(ps: seq<Point>)
    requires WellFormed(ps)
    ensures FinalTemp(ps) == Last(ps).temp
  {
    hide WellFormed, DayPoints, DayOf;
    WellFormedParts(ps);
    LastInWeek(ps);
    LastDayPoint(ps, DayOf(Last(ps)));
    LatestFrom(ps, Horizon(ps) - 1);
  }

  lemma {:induction false} LatestFrom(ps: seq<Point>, d: int)
    requires WellFormed(ps) && 0 <= DayOf(Last(ps)) <= d
    ensures Latest(ps, d) == Latest(ps, DayOf(Last(ps)))
    decreases d
  {
    hide WellFormed, DayPoints, DayOf;
    WellFormedParts(ps);
    if d > DayOf(Last(ps)) {
      AllBefore(ps, d);
      NoLaterDay(ps, d);
      LatestFrom(ps, d - 1);
    }
  }

  lemma LastInWeek(ps: seq<Point>)
    requires WellFormed(ps)
    ensures 0 <= DayOf(Last(ps)) < DAYS
  {
  }

  /** A schedule of one week has no day behind it. */
  lemma {:induction false} HorizonOfWeek(ps: seq<Point>)
    requires forall i :: 0 <= i < |ps| ==> DayOf(ps[i]) < DAYS
    ensures Horizon(ps) == DAYS
    decreases |ps|
  {
    if ps != [] {
      HorizonOfWeek(ps[1..]);
    }
  }

  // ----- the loops of getStatesByDay -----

  ghost predicate FilledUpTo(entries: seq<DayEntry>, ps: seq<Point>, i: nat)
    requires ps != []
  {
    && |entries| >= i && entries[i..] == NestFrom(ps, i)
    && forall d :: 0 <= d < i ==> entries[d] == DayEntry(d, Filled(ps, d))
  }

  /** The test of the loop: is the day missing? If so it gets its point, else it is there. */
  lemma FillStep(entries: seq<DayEntry>, ps: seq<Point>, i: nat)
    requires ps != [] && i < DAYS && FilledUpTo(entries, ps, i)
    ensures (i >= |entries| || entries[i].key != i) <==> DayPoints(ps, i) == []
    ensures DayPoints(ps, i) == [] ==>
              && EndTemp(ps, i) == EndTemp(ps, i - 1)
              && FilledUpTo(entries[..i] + [DayEntry(i, [Point(DayStart(i), EndTemp(ps, i - 1))])] + entries[i..], ps, i + 1)
    ensures DayPoints(ps, i) != [] ==>
              i < |entries| && entries[i].values != [] && EndTemp(ps, i) == Last(entries[i].values).temp && FilledUpTo(entries, ps, i + 1)
  {
    hide DayPoints, NestFrom, DayStart;
    NestHead(ps, i);
    assert i < Horizon(ps);
    if DayPoints(ps, i) == [] {
      var more := entries[..i] + [DayEntry(i, [Point(DayStart(i), EndTemp(ps, i - 1))])] + entries[i..];
      assert more[i + 1..] == entries[i..];
      assert forall d :: 0 <= d < i ==> more[d] == entries[d];
    } else {
      assert entries[i..][0] == entries[i] && entries[i + 1..] == entries[i..][1..];
    }
  }

  lemma FillDone(entries: seq<DayEntry>, ps: seq<Point>)
    requires ps != [] && FilledUpTo(entries, ps, DAYS)
    ensures entries == Entries(ps)
  {
    assert entries == entries[..DAYS] + entries[DAYS..];
  }

  lemma FillStart(ps: seq<Point>)
    requires ps != []
    ensures FilledUpTo(NestFrom(ps, 0), ps, 0) && EndTemp(ps, -1) == FinalTemp(ps)
  {
  }

  /** Days without points get one, carrying the last temperature seen before them. */
  method FillMissingDays(data: seq<Point>) returns (dayStates: seq<DayEntry>)
    requires data != [] && InTime(data)
    ensures dayStates == Entries(data)
  {
    hide FilledUpTo, EndTemp, NestFrom, Filled, Entries;
    SomeDay(data);
    NestEnds(data, 0);
    FillStart(data);
    dayStates := NestFrom(data, 0);
    var lastTemp := Last(dayStates[|dayStates| - 1].values).temp;
    for i := 0 to DAYS
      invariant FilledUpTo(dayStates, data, i) && i <= |dayStates| && lastTemp == EndTemp(data, i - 1)
    {
      FillStep(dayStates, data, i);
      if i >= |dayStates| || dayStates[i].key != i {
        dayStates := dayStates[..i] + [DayEntry(i, [Point(DayStart(i), lastTemp)])] + dayStates[i..];
      } else {
        lastTemp := Last(dayStates[i].values).temp;
      }
    }
    FillDone(dayStates, data);
  }

  /** The entries before i have become bars; the others are still lists of points. */
  ghost predicate BarredUpTo(now: seq<DayEntry>, entries: seq<DayEntry>, i: nat)
    requires NoneEmpty(entries)
  {
    && |now| == |entries|
    && (forall d :: 0 <= d < i && d < |now| ==> now[d] == DayEntry(entries[d].key, RowBars(entries, d)))
    && (forall d :: i <= d < |now| ==> now[d] == entries[d])
  }

  /** `val.time -= offset` for every point of a day. */
  method OffsetDay(values: seq<Point>, offset: int) returns (r: seq<Point>)
    ensures r == Shifted(values, offset)
  {
    r := values;
    for i := 0 to |values|
      invariant |r| == |values|
      invariant forall j :: 0 <= j < |r| ==> r[j] == if j < i then Point(values[j].time - offset, values[j].temp) else values[j]
    {
      r := r[i := Point(r[i].time - offset, r[i].temp)];
    }
  }

  /** Each day gets its own time, a starting point and its 48 bars. */
  method MakeBars(entries: seq<DayEntry>) returns (dayStates: seq<DayEntry>)
    requires NoneEmpty(entries)
    ensures BarredUpTo(dayStates, entries, |entries|)
  {
    hide Bars, DayStart;
    dayStates := entries;
    for i := 0 to |entries|
      invariant BarredUpTo(dayStates, entries, i)
    {
      ghost var e := if i == 0 then Last(entries[|entries| - 1].values).temp else Last(RowBars(entries, i - 1)).temp;
      var values := OffsetDay(dayStates[i].values, DayStart(dayStates[i].key));
      if values[0].time != 0 {
        var lastDayLastTemp := Last(dayStates[|dayStates| - 1].values).temp;
        if i > 0 {
          lastDayLastTemp := Last(dayStates[i - 1].values).temp;
        }
        values := [Point(0, lastDayLastTemp)] + values;
      }
      assert StartedWith(Shifted(entries[i].values, DayStart(entries[i].key)), e) == values;
      values := PrepareDataForBars(values);
      dayStates := dayStates[i := DayEntry(dayStates[i].key, values)];
    }
  }

  /** A day with no point at its start shows the last bar of the day before, the first day the last point of all. */
  lemma DayCarriesOn(entries: seq<DayEntry>, i: nat)
    requires NoneEmpty(entries) && i < |entries|
    requires DayStart(entries[i].key) < entries[i].values[0].time
    ensures RowBars(entries, i)[0] ==
            Point(0, if i == 0 then Last(entries[|entries| - 1].values).temp else RowBars(entries, i - 1)[47].temp)
  {
  }

  // ----- the rows of a well-formed schedule are what it means -----

  /** The last bar of a day, which the next day carries over, is what is in force then. */
  lemma {:induction false} RowOfDay(ps: seq<Point>, d: nat)
    requires WellFormed(ps) && d < DAYS
    ensures |Entries(ps)| == DAYS && NoneEmpty(Entries(ps)) && RowBars(Entries(ps), d) == DayBars(ps, d)
  {
    hide WellFormed, Filled, DayBars, EndTemp, Bars, DayStart, NestFrom;
    WellFormedParts(ps);
    EntriesNotEmpty(ps);
    EntriesOfWeek(ps);
    BarsOfDay(ps, d);
    if d > 0 {
      RowOfDay(ps, d - 1);
      LastBar(ps, d - 1);
    } else {
      FilledInDay(ps, 6);
      WeekEnds(ps);
      StartOfWeek(ps);
    }
  }

  lemma EntriesOfWeek(ps: seq<Point>)
    requires WellFormed(ps)
    ensures |Entries(ps)| == DAYS
  {
    HorizonOfWeek(ps);
  }

  lemma StartOfWeek(ps: seq<Point>)
    requires WellFormed(ps)
    ensures EndTemp(ps, -1) == Last(ps).temp
  {
    hide WellFormed, Latest, FinalTemp;
    WellFormedParts(ps);
    FinalIsLast(ps);
  }

  /** The days of a table, as rows. */
  function WeekRows(table: seq<seq<Point>>): (rows: seq<DayEntry>)
    ensures |rows| == |table|
  {
    seq(|table|, d requires 0 <= d < |table| => DayEntry(d, table[d]))
  }

  /** What the week means, day by day. */
  ghost function Table(ps: seq<Point>): (table: seq<seq<Point>>)
    requires ps != []
    ensures |table| == DAYS
  {
    seq(DAYS, d requires 0 <= d < DAYS => DayBars(ps, d))
  }

  /** The bars made of a schedule show what is in force at each half hour of the week. */
  lemma RowsOfWeek(ps: seq<Point>)
    requires WellFormed(ps)
    ensures ps != [] && Rows(ps) == WeekRows(Table(ps))
  {
    hide WellFormed, DayBars, RowBars, NestFrom;
    WellFormedParts(ps);
    EntriesOfWeek(ps);
    forall d: nat | d < DAYS
      ensures Rows(ps)[d] == DayEntry(d, DayBars(ps, d))
    {
      RowOfDay(ps, d);
    }
  }

  // ----- equal days share a chart -----

  predicate Enabled(g: Group, d: nat) {
    d in g.enabledDays && g.enabledDays[d]
  }

  ghost predicate HasChart(groups: seq<Group>, d: nat) {
    exists g :: 0 <= g < |groups| && Enabled(groups[g], d)
  }

  /** A chart with only days that have its bars. */
  ghost predicate ChartOk(g: Group, rows: seq<DayEntry>) {
    forall d: nat :: d in g.enabledDays ==> g.enabledDays[d] && DayEntry(d, g.values) in rows
  }

  /** The charts of these days: one for each different list of bars. */
  ghost predicate Charts(groups: seq<Group>, rows: seq<DayEntry>) {
    && (forall g :: 0 <= g < |groups| ==> ChartOk(groups[g], rows))
    && (forall i :: 0 <= i < |rows| ==> HasChart(groups, rows[i].key))
    && (forall g, h :: 0 <= g < h < |groups| ==> groups[g].values != groups[h].values)
  }

  method IndexOfItem(list: seq<Group>, value: seq<Point>) returns (index: int)
    ensures -1 <= index < |list|
    ensures index >= 0 ==> list[index].values == value
    ensures index == -1 ==> forall i :: 0 <= i < |list| ==> list[i].values != value
  {
    for i := 0 to |list|
      invariant forall j :: 0 <= j < i ==> list[j].values != value
    {
      if list[i].values == value {
        return i;
      }
    }
    return -1;
  }

  lemma {:induction false} StillHasChart(groups: seq<Group>, more: seq<Group>, d: nat)
    requires HasChart(groups, d) && |groups| <= |more|
    requires forall g :: 0 <= g < |groups| && Enabled(groups[g], d) ==> Enabled(more[g], d)
    ensures HasChart(more, d)
  {
    var g :| 0 <= g < |groups| && Enabled(groups[g], d);
    assert Enabled(more[g], d);
  }

  lemma ChartsNew(groups: seq<Group>, rows: seq<DayEntry>, row: DayEntry)
    requires Charts(groups, rows) && forall i :: 0 <= i < |groups| ==> groups[i].values != row.values
    ensures Charts(groups + [Group(map[row.key := true], row.values)], rows + [row])
  {
    hide ChartOk, HasChart;
    var more := groups + [Group(map[row.key := true], row.values)];
    NewHasChart(groups, row);
    forall i | 0 <= i < |rows|
      ensures HasChart(more, rows[i].key)
    {
      StillHasChart(groups, more, rows[i].key);
    }
    forall g | 0 <= g < |more|
      ensures ChartOk(more[g], rows + [row])
    {
      if g < |groups| {
        ChartOkMore(groups[g], rows, row);
      } else {
        ChartOkNew(rows, row);
      }
    }
  }

  lemma NewHasChart(groups: seq<Group>, row: DayEntry)
    ensures HasChart(groups + [Group(map[row.key := true], row.values)], row.key)
  {
    assert Enabled((groups + [Group(map[row.key := true], row.values)])[|groups|], row.key);
  }

  lemma ChartOkNew(rows: seq<DayEntry>, row: DayEntry)
    ensures ChartOk(Group(map[row.key := true], row.values), rows + [row])
  {
  }

  lemma ChartOkMore(g: Group, rows: seq<DayEntry>, row: DayEntry)
    requires ChartOk(g, rows)
    ensures ChartOk(g, rows + [row])
    ensures g.values == row.values ==> ChartOk(Group(g.enabledDays[row.key := true], g.values), rows + [row])
  {
  }

  lemma ChartsJoin(groups: seq<Group>, rows: seq<DayEntry>, row: DayEntry, k: nat)
    requires Charts(groups, rows) && k < |groups| && groups[k].values == row.values
    ensures Charts(groups[k := Group(groups[k].enabledDays[row.key := true], groups[k].values)], rows + [row])
  {
    hide ChartOk, HasChart;
    var joined := Group(groups[k].enabledDays[row.key := true], groups[k].values);
    var more := groups[k := joined];
    JoinedHasChart(groups, more, rows + [row], row.key, k);
    forall g | 0 <= g < |more|
      ensures ChartOk(more[g], rows + [row])
    {
      ChartOkMore(groups[g], rows, row);
    }
    assert forall g :: 0 <= g < |more| ==> more[g].values == groups[g].values;
  }

  lemma JoinedHasChart(groups: seq<Group>, more: seq<Group>, rows: seq<DayEntry>, d: nat, k: nat)
    requires forall i :: 0 <= i < |rows| ==> rows[i].key == d || HasChart(groups, rows[i].key)
    requires k < |groups| && more == groups[k := Group(groups[k].enabledDays[d := true], groups[k].values)]
    ensures forall i :: 0 <= i < |rows| ==> HasChart(more, rows[i].key)
  {
    assert Enabled(more[k], d);
    forall i | 0 <= i < |rows| && rows[i].key != d
      ensures HasChart(more, rows[i].key)
    {
      StillHasChart(groups, more, rows[i].key);
    }
  }

  method GroupDays(dayStates: seq<DayEntry>) returns (finalData: seq<Group>)
    ensures Charts(finalData, dayStates)
  {
    hide Charts;
    finalData := [];
    NoCharts();
    for i := 0 to |dayStates|
      invariant Charts(finalData, dayStates[..i])
    {
      assert dayStates[..i + 1] == dayStates[..i] + [dayStates[i]];
      var indexOf := IndexOfItem(finalData, dayStates[i].values);
      if indexOf == -1 {
        ChartsNew(finalData, dayStates[..i], dayStates[i]);
        finalData := finalData + [Group(map[dayStates[i].key := true], dayStates[i].values)];
      } else {
        ChartsJoin(finalData, dayStates[..i], dayStates[i], indexOf);
        var g := finalData[indexOf];
        finalData := finalData[indexOf := Group(g.enabledDays[dayStates[i].key := true], g.values)];
      }
    }
    assert dayStates[..|dayStates|] == dayStates;
  }

  lemma NoCharts()
    ensures Charts([], [])
  {
  }

  /** What `val.time -=` leaves of the points: each in the time of its own day. */
  function OwnTimes(ps: seq<Point>): (q: seq<Point>)
    ensures |q| == |ps|
  {
    seq(|ps|, i requires 0 <= i < |ps| => Point(ps[i].time - DayStart(DayOf(ps[i])), ps[i].temp))
  }

  /** The points the loop over the days edits are those of the list, day by day. */
  lemma {:induction false} OwnTimesByDay(ps: seq<Point>, d: int)
    ensures OwnTimes(DayPoints(ps, d)) == Shifted(DayPoints(ps, d), DayStart(d))
    decreases |ps|
  {
    if ps != [] {
      OwnTimesByDay(ps[1..], d);
      var head: seq<Point> := if DayOf(ps[0]) == d then [ps[0]] else [];
      assert OwnTimes(head + DayPoints(ps[1..], d)) == OwnTimes(head) + OwnTimes(DayPoints(ps[1..], d));
    }
  }

  const DEFAULT_DATA: seq<Point> := [Point(0, 1800), Point(3000, 2000)]

  /** The page's script and the one variable it keeps: the schedule shown when there is none. */
  class Page {
    var defaultData: seq<Point>

    ghost predicate Valid()
      reads this
    {
      defaultData != [] && InTime(defaultData)
    }

    constructor ()
      ensures Valid() && defaultData == DEFAULT_DATA
    {
      defaultData := DEFAULT_DATA;
    }

    /** The charts of any points. Without points the default ones are shown, and edited on the way. */
    method GetStatesByDay(points: seq<Point>) returns (finalData: seq<Group>)
      requires Valid() && InTime(points)
      modifies this
      ensures Valid() && defaultData == if points == [] then OwnTimes(old(defaultData)) else old(defaultData)
      ensures Charts(finalData, Rows(if points == [] then old(defaultData) else points))
    {
      hide RowBars, NestFrom, Filled, Entries, Charts;
      var data := if points == [] then defaultData else points;
      EntriesNotEmpty(data);
      var entries := FillMissingDays(data);
      var dayStates := MakeBars(entries);
      assert dayStates == Rows(data);
      if points == [] {
        defaultData := OwnTimes(defaultData);
      }
      finalData := GroupDays(dayStates);
    }
  }

  /** The edit is done once: after it nothing moves. */
  lemma OwnTimesTwice(ps: seq<Point>)
    requires InTime(ps)
    ensures OwnTimes(OwnTimes(ps)) == OwnTimes(ps)
    ensures OwnTimes(ps) == ps <==> forall i :: 0 <= i < |ps| ==> DayOf(ps[i]) == 0
  {
    var q := OwnTimes(ps);
    forall i | 0 <= i < |ps|
      ensures OwnTimes(q)[i] == q[i]
    {
      assert DayOf(q[i]) == 0;
    }
    if q == ps {
      forall i | 0 <= i < |ps|
        ensures DayOf(ps[i]) == 0
      {
        assert q[i].time == ps[i].time;
      }
    }
  }

  lemma DefaultEdited()
    ensures OwnTimes(DEFAULT_DATA) == [Point(0, 1800), Point(120, 2000)]
  {
    assert DayOf(DEFAULT_DATA[0]) == 0 && DayOf(DEFAULT_DATA[1]) == 2;
  }

  /** The default schedule: 18 degrees for fifty hours, then 20. */
  lemma DefaultMeans(t: int)
    requires 0 <= t < WEEK
    ensures TempAt(DEFAULT_DATA, t) == if t < 50 * 60 then 1800 else 2000
  {
    InForceAt(DEFAULT_DATA, t, 2000, if t < 3000 then 0 else 1);
  }

  /** At two o'clock on the first day the default schedule shows 18 degrees, when shown again 20. */
  lemma DefaultDrifts()
    ensures Rows(DEFAULT_DATA)[0].values[4] == Point(120, 1800)
    ensures OwnTimes(DEFAULT_DATA) != [] && Rows(OwnTimes(DEFAULT_DATA))[0].values[4] == Point(120, 2000)
  {
    hide OwnTimes, Rows;
    DefaultEdited();
    FirstDayAt(DEFAULT_DATA, 0, 4);
    FirstDayAt(OwnTimes(DEFAULT_DATA), 1, 4);
  }

  lemma FirstDayAt(ps: seq<Point>, k: nat, s: nat)
    requires WellFormed(ps) && s < SLOTS
    requires k < |ps| && ps[k].time <= SlotStart(s) && (k + 1 < |ps| ==> SlotStart(s) < ps[k + 1].time)
    ensures ps != [] && Rows(ps)[0].values[s] == Point(SlotStart(s), ps[k].temp)
  {
    hide InForce, Rows;
    RowsOfWeek(ps);
    InForceAt(ps, SlotStart(s), Last(ps).temp, k);
    assert Table(ps)[0] == DayBars(ps, 0);
  }

  // ----- charts back to change points: getDataForESP -----

  /** The bars of day d: those of the last chart that has it switched on. */
  function ByDay(groups: seq<Group>, d: nat): seq<Point> {
    if groups == [] then []
    else
      var g := groups[|groups| - 1];
      if Enabled(g, d) then g.values else ByDay(groups[..|groups| - 1], d)
  }

  /** Of two charts that have a day on, the later one counts; a day on in none has no bars. */
  lemma {:induction false} ByDayIsLast(groups: seq<Group>, d: nat, g: int)
    requires -1 <= g < |groups|
    requires g >= 0 ==> Enabled(groups[g], d)
    requires forall h :: g < h < |groups| ==> !Enabled(groups[h], d)
    ensures ByDay(groups, d) == if g == -1 then [] else groups[g].values
    decreases |groups|
  {
    if groups != [] && g != |groups| - 1 {
      ByDayIsLast(groups[..|groups| - 1], d, g);
    }
  }

  /** The days one after the other, in the time of the week. */
  function WeekFrom(days: seq<seq<Point>>, d: nat): seq<Point>
    requires d <= |days|
    decreases |days| - d
  {
    if d == |days| then [] else Shifted(days[d], -DayStart(d)) + WeekFrom(days, d + 1)
  }

  function DataForESP(days: seq<seq<Point>>): seq<Point> {
    Changes(WeekFrom(days, 0), None)
  }

  method GetDataForESP(dayData: seq<Group>) returns (data: seq<Point>)
    requires forall g, d :: 0 <= g < |dayData| && d in dayData[g].enabledDays ==> d < DAYS
    ensures data == DataForESP(seq(DAYS, d requires 0 <= d < DAYS => ByDay(dayData, d)))
  {
    var dataByDay: seq<seq<Point>> := seq(DAYS, _ => []);
    for i := 0 to |dayData|
      invariant |dataByDay| == DAYS && forall d :: 0 <= d < DAYS ==> dataByDay[d] == ByDay(dayData[..i], d)
    {
      ghost var before := dataByDay;
      assert dayData[..i + 1][..i] == dayData[..i];
      for key := 0 to DAYS
        invariant |dataByDay| == DAYS
        invariant forall d :: 0 <= d < DAYS ==> dataByDay[d] == if d < key then ByDay(dayData[..i + 1], d) else before[d]
      {
        if Enabled(dayData[i], key) {
          dataByDay := dataByDay[key := dayData[i].values];
        }
      }
    }
    assert dayData[..|dayData|] == dayData;
    assert dataByDay == seq(DAYS, d requires 0 <= d < DAYS => ByDay(dayData, d));
    data := GetDataFromBars(WeekFrom(dataByDay, 0));
  }

  // ----- the two directions together -----

  /** A week of 48 bars a day, with any temperatures. */
  ghost predicate IsTable(table: seq<seq<Point>>) {
    && |table| == DAYS
    && forall d :: 0 <= d < DAYS ==> IsDay(table[d])
  }

  ghost predicate IsDay(bars: seq<Point>) {
    |bars| == SLOTS && forall s :: 0 <= s < SLOTS ==> bars[s].time == SlotStart(s)
  }

  /** Every day is switched on in some chart, and only in charts that show its bars. */
  ghost predicate Shows(groups: seq<Group>, table: seq<seq<Point>>) {
    && |table| == DAYS
    && (forall g :: 0 <= g < |groups| ==> ShowsIn(groups[g], table))
    && (forall d: nat :: d < DAYS ==> HasChart(groups, d))
  }

  ghost predicate ShowsIn(g: Group, table: seq<seq<Point>>)
    requires |table| == DAYS
  {
    forall d: nat :: d in g.enabledDays ==> d < DAYS && (g.enabledDays[d] ==> g.values == table[d])
  }

  lemma {:induction false} ByDayShown(groups: seq<Group>, d: nat, bars: seq<Point>)
    requires HasChart(groups, d)
    requires forall g :: 0 <= g < |groups| && Enabled(groups[g], d) ==> groups[g].values == bars
    ensures ByDay(groups, d) == bars
    decreases |groups|
  {
    var init, g := groups[..|groups| - 1], groups[|groups| - 1];
    if !Enabled(g, d) {
      var k :| 0 <= k < |groups| && Enabled(groups[k], d);
      assert Enabled(init[k], d);
      ByDayShown(init, d, bars);
    }
  }

  /** Whatever the charts, the data sent to the device depends on the table alone. */
  lemma DataOfCharts(groups: seq<Group>, table: seq<seq<Point>>)
    requires Shows(groups, table)
    ensures DataForESP(seq(DAYS, d requires 0 <= d < DAYS => ByDay(groups, d))) == DataForESP(table)
  {
    forall d: nat | d < DAYS
      ensures ByDay(groups, d) == table[d]
    {
      assert HasChart(groups, d);
      forall g | 0 <= g < |groups| && Enabled(groups[g], d)
        ensures groups[g].values == table[d]
      {
        assert ShowsIn(groups[g], table);
      }
      ByDayShown(groups, d, table[d]);
    }
    assert seq(DAYS, d requires 0 <= d < DAYS => ByDay(groups, d)) == table;
  }

  lemma ChartsShow(groups: seq<Group>, table: seq<seq<Point>>)
    requires |table| == DAYS && Charts(groups, WeekRows(table))
    ensures Shows(groups, table)
  {
    var rows := WeekRows(table);
    forall g | 0 <= g < |groups|
      ensures ShowsIn(groups[g], table)
    {
      assert ChartOk(groups[g], rows);
    }
    forall d: nat | d < DAYS
      ensures HasChart(groups, d)
    {
      assert rows[d].key == d;
    }
  }

  /** The points of the week from day d on: half an hour apart, from the start of day d. */
  lemma {:induction false} WeekPoints(table: seq<seq<Point>>, d: nat)
    requires IsTable(table) && d <= DAYS
    ensures var w := WeekFrom(table, d);
            && |w| == SLOTS * (DAYS - d)
            && forall k :: 0 <= k < |w| ==> w[k].time == DayStart(d) + SlotStart(k)
    decreases DAYS - d
  {
    if d < DAYS {
      WeekPoints(table, d + 1);
      assert IsDay(table[d]);
    }
  }

  lemma {:induction false} WeekTemps(table: seq<seq<Point>>, from: nat, d: nat, s: nat)
    requires IsTable(table) && from <= d < DAYS && s < SLOTS
    ensures var w := WeekFrom(table, from); var k := SLOTS * (d - from) + s;
            k < |w| && w[k].temp == table[d][s].temp
    decreases d - from
  {
    WeekPoints(table, from);
    assert IsDay(table[from]);
    if from < d {
      WeekPoints(table, from + 1);
      WeekTemps(table, from + 1, d, s);
    }
  }

  lemma WeekIncreasing(table: seq<seq<Point>>)
    requires IsTable(table)
    ensures var w := WeekFrom(table, 0); w != [] && Increasing(w) && OnGrid(w) && w[0].time == 0
  {
    WeekPoints(table, 0);
  }

  /** The change points of a table are canonical and show the table again. */
  lemma DataForESPCanonical(table: seq<seq<Point>>)
    requires IsTable(table)
    ensures Canonical(DataForESP(table)) && Table(DataForESP(table)) == table
  {
    var w, c := WeekFrom(table, 0), DataForESP(table);
    WeekIncreasing(table);
    ChangesAreStates(w, None);
    ChangesDiffer(w, None);
    assert c == [w[0]] + Changes(w[1..], Some(w[0].temp));
    assert OnGrid(c) by {
      forall i | 0 <= i < |c|
        ensures 0 <= c[i].time < WEEK && c[i].time % 30 == 0
      {
        assert c[i] in w;
      }
    }
    forall d | 0 <= d < DAYS
      ensures DayBars(c, d) == table[d]
    {
      assert IsDay(table[d]);
      forall s | 0 <= s < SLOTS
        ensures DayBars(c, d)[s] == table[d][s]
      {
        DataInForce(table, d, s);
      }
    }
  }

  lemma DataInForce(table: seq<seq<Point>>, d: nat, s: nat)
    requires IsTable(table) && d < DAYS && s < SLOTS
    ensures DataForESP(table) != [] && TempAt(DataForESP(table), DayStart(d) + SlotStart(s)) == table[d][s].temp
  {
    hide Changes, InForce, Increasing, OnGrid, WeekFrom, IsTable;
    WeekIncreasing(table);
    WeekPoints(table, 0);
    WeekTemps(table, 0, d, s);
    var w := WeekFrom(table, 0);
    var t := DayStart(d) + SlotStart(s);
    AllChangesInForce(w, t);
    InForceAt(w, t, Last(DataForESP(table)).temp, SLOTS * d + s);
  }

  /** From the first state on, the change points of an increasing list mean what it means. */
  lemma AllChangesInForce(w: seq<Point>, t: int)
    requires w != [] && Increasing(w) && w[0].time <= t
    ensures Changes(w, None) != []
    ensures forall before :: InForce(Changes(w, None), t, before) == InForce(w, t, before)
  {
    var c := Changes(w, None);
    assert c == [w[0]] + Changes(w[1..], Some(w[0].temp));
    IncreasingTail(w);
    ChangesInForce(w[1..], w[0].temp, t);
    assert c[1..] == Changes(w[1..], Some(w[0].temp));
  }

  lemma TableIsTable(ps: seq<Point>)
    requires ps != []
    ensures IsTable(Table(ps))
  {
  }

  /**
   * Through the charts and back, a schedule keeps its meaning at every minute of the week and
   * becomes canonical; a second pass changes nothing.
   */
  lemma SameSchedule(ps: seq<Point>, groups: seq<Group>)
    requires WellFormed(ps) && Charts(groups, Rows(ps))
    ensures var c := DataForESP(seq(DAYS, d requires 0 <= d < DAYS => ByDay(groups, d)));
            && Canonical(c)
            && (forall t :: 0 <= t < WEEK ==> TempAt(c, t) == TempAt(ps, t))
            && DataForESP(Table(c)) == c
  {
    var table := Table(ps);
    RowsOfWeek(ps);
    ChartsShow(groups, table);
    DataOfCharts(groups, table);
    TableIsTable(ps);
    DataForESPCanonical(table);
    var c := DataForESP(table);
    forall t | 0 <= t < WEEK
      ensures TempAt(c, t) == TempAt(ps, t)
    {
      SameTableSameTemp(ps, c, t);
    }
  }

  /** The rows of any points of one week make a table, as the days 0 to 6 of it. */
  lemma RowsAreTable(ps: seq<Point>)
    requires ps != [] && InTime(ps) && forall i :: 0 <= i < |ps| ==> ps[i].time < WEEK
    ensures var table := seq(|Rows(ps)|, d requires 0 <= d < |Rows(ps)| => Rows(ps)[d].values);
            IsTable(table) && Rows(ps) == WeekRows(table)
  {
    hide Filled, NestFrom;
    HorizonOfWeek(ps);
    NestPastEnd(ps, DAYS);
    var table := seq(|Rows(ps)|, d requires 0 <= d < |Rows(ps)| => Rows(ps)[d].values);
    forall d | 0 <= d < DAYS
      ensures IsDay(table[d])
    {
      EntriesNotEmpty(ps);
      RowIsDay(Entries(ps), d);
    }
  }

  lemma NestPastEnd(ps: seq<Point>, d: nat)
    requires d >= Horizon(ps)
    ensures NestFrom(ps, d) == []
  {
  }

  lemma RowIsDay(entries: seq<DayEntry>, i: nat)
    requires NoneEmpty(entries) && i < |entries|
    ensures IsDay(RowBars(entries, i))
  {
    hide BarIndex;
  }

  /**
   * Whatever points of a week were received, in any order and on any minute: what the page sends
   * back is canonical, and shown again it gives the same bars.
   */
  lemma ShownIsSaved(ps: seq<Point>, groups: seq<Group>)
    requires ps != [] && InTime(ps) && (forall i :: 0 <= i < |ps| ==> ps[i].time < WEEK)
    requires Charts(groups, Rows(ps))
    ensures var c := DataForESP(seq(DAYS, d requires 0 <= d < DAYS => ByDay(groups, d)));
            Canonical(c) && c != [] && Rows(c) == Rows(ps)
  {
    hide Rows, Charts, Shows, IsTable, Canonical, DataForESP, Table;
    RowsAreTable(ps);
    var table := seq(|Rows(ps)|, d requires 0 <= d < |Rows(ps)| => Rows(ps)[d].values);
    TableSaved(table, groups);
  }

  lemma TableSaved(table: seq<seq<Point>>, groups: seq<Group>)
    requires IsTable(table) && Charts(groups, WeekRows(table))
    ensures var c := DataForESP(seq(DAYS, d requires 0 <= d < DAYS => ByDay(groups, d)));
            Canonical(c) && c != [] && Rows(c) == WeekRows(table)
  {
    hide Rows, Charts, Shows, DataForESP, Table;
    ChartsShow(groups, table);
    DataOfCharts(groups, table);
    DataForESPCanonical(table);
    RowsOfWeek(DataForESP(table));
  }

  /** Two schedules with the same bars agree at every minute. */
  lemma SameTableSameTemp(a: seq<Point>, b: seq<Point>, t: int)
    requires WellFormed(a) && WellFormed(b) && Table(a) == Table(b) && 0 <= t < WEEK
    ensures TempAt(a, t) == TempAt(b, t)
  {
    var d, s := t / 1440, t % 1440 / 30;
    var u := DayStart(d) + SlotStart(s);
    assert u % 30 == 0 && u <= t < u + 30;
    InForceOnGrid(a, u, t, Last(a).temp);
    InForceOnGrid(b, u, t, Last(b).temp);
    assert Table(a)[d][s] == Table(b)[d][s];
  }

  // ----- one canonical form -----

  ghost predicate Agree(a: seq<Point>, b: seq<Point>)
    requires a != [] && b != []
  {
    forall t :: 0 <= t < WEEK ==> TempAt(a, t) == TempAt(b, t)
  }

  lemma TempAtPoint(ps: seq<Point>, k: nat, t: int)
    requires WellFormed(ps)
    requires k < |ps| && ps[k].time <= t && (k + 1 < |ps| ==> t < ps[k + 1].time)
    ensures TempAt(ps, t) == ps[k].temp
  {
    hide InForce;
    InForceAt(ps, t, Last(ps).temp, k);
  }

  /** Two canonical schedules that agree and have the same first k points share the next one. */
  lemma NextPointShared(a: seq<Point>, b: seq<Point>, k: nat)
    requires Canonical(a) && Canonical(b) && Agree(a, b)
    requires 0 < k < |a| && k <= |b| && a[k - 1] == b[k - 1]
    ensures k < |b| && a[k] == b[k]
  {
    hide TempAt, InForce;
    var t := a[k].time;
    TempAtPoint(a, k, t);
    if k == |b| || b[k].time > t {
      TempAtPoint(b, k - 1, t);
    } else if b[k].time < t {
      TempAtPoint(b, k, b[k].time);
      TempAtPoint(a, k - 1, b[k].time);
    } else {
      TempAtPoint(b, k, t);
    }
  }

  lemma {:induction false} PointsShared(a: seq<Point>, b: seq<Point>, k: nat)
    requires Canonical(a) && Canonical(b) && Agree(a, b)
    requires 0 < k <= |a|
    ensures k <= |b| && a[..k] == b[..k]
  {
    hide TempAt, InForce;
    if k == 1 {
      TempAtPoint(a, 0, 0);
      TempAtPoint(b, 0, 0);
    } else {
      PointsShared(a, b, k - 1);
      assert a[k - 2] == a[..k - 1][k - 2] == b[k - 2];
      NextPointShared(a, b, k - 1);
      assert a[..k] == a[..k - 1] + [a[k - 1]] && b[..k] == b[..k - 1] + [b[k - 1]];
    }
  }

  /** The canonical form is unique: schedules in it that mean the same are the same. */
  lemma CanonicalUnique(a: seq<Point>, b: seq<Point>)
    requires Canonical(a) && Canonical(b) && Agree(a, b)
    ensures a == b
  {
    hide TempAt, InForce;
    PointsShared(a, b, |a|);
    PointsShared(b, a, |b|);
  }

  /** So the passes through the charts change a schedule if and only if it is not canonical. */
  lemma UnchangedIffCanonical(ps: seq<Point>)
    requires WellFormed(ps)
    ensures DataForESP(Table(ps)) == ps <==> Canonical(ps)
  {
    hide TempAt, InForce, Table, DataForESP, Canonical, IsTable;
    TableIsTable(ps);
    var c := DataForESP(Table(ps));
    DataForESPCanonical(Table(ps));
    if Canonical(ps) {
      CanonicalIsWellFormed(c);
      forall t | 0 <= t < WEEK ensures TempAt(c, t) == TempAt(ps, t) {
        SameTableSameTemp(c, ps, t);
      }
      CanonicalUnique(c, ps);
    }
  }

  lemma CanonicalIsWellFormed(ps: seq<Point>)
    requires Canonical(ps)
    ensures WellFormed(ps)
  {
  }
}
