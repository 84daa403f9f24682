/**
 * The wire form of the schedule in web/js/dataFunctions.js: a count and two 16-bit numbers a
 * point, and what survives the way to the device and back.
 */
module ScheduleWire {
  import opened Options
  import opened Schedule

  // ----- generateResponse -----

  function Record(p: Point): seq<int> {
    [p.time / 256, p.time % 256, p.temp / 256, p.temp % 256]
  }

  function Records(data: seq<Point>): (r: seq<int>)
    ensures |r| == 4 * |data|
  {
    if data == [] then [] else Record(data[0]) + Records(data[1..])
  }

  /** The numbers pushed; they are bytes only if everything fits 16 bits. */
  function Response(data: seq<Point>): (r: seq<int>)
    ensures |r| == 2 + 4 * |data|
  {
    [|data| / 256, |data| % 256] + Records(data)
  }

  lemma {:induction false} RecordsSnoc(data: seq<Point>, p: Point)
    ensures Records(data + [p]) == Records(data) + Record(p)
    decreases |data|
  {
    if data == [] {
      assert (data + [p])[1..] == [];
    } else {
      assert (data + [p])[1..] == data[1..] + [p];
      RecordsSnoc(data[1..], p);
    }
  }

  method GenerateResponse(data: seq<Point>) returns (response: seq<int>)
    ensures response == Response(data)
  {
    response := [];
    response := response + [|data| / 256];
    response := response + [|data| % 256];
    for i := 0 to |data|
      invariant response == [|data| / 256, |data| % 256] + Records(data[..i])
    {
      assert data[..i + 1] == data[..i] + [data[i]];
      RecordsSnoc(data[..i], data[i]);
      var time := data[i].time;
      response := response + [time / 256];
      response := response + [time % 256];
      var temp := data[i].temp;
      response := response + [temp / 256];
      response := response + [temp % 256];
    }
    assert data[..|data|] == data;
  }

  // ----- convertBase64ToPoints -----

  /** Reading past the end gives undefined, which the shifts take for 0. */
  function ByteAt(x: seq<int>, i: nat): int {
    if i < |x| then x[i] else 0
  }

  function WordAt(x: seq<int>, i: nat): int {
    256 * ByteAt(x, i) + ByteAt(x, i + 1)
  }

  ghost predicate AreBytes(x: seq<int>) {
    forall i :: 0 <= i < |x| ==> 0 <= x[i] < 256
  }

  function Points(x: seq<int>): seq<Point>
    requires WordAt(x, 0) >= 0
  {
    seq(WordAt(x, 0), i requires 0 <= i => Point(WordAt(x, 2 + 4 * i), WordAt(x, 4 + 4 * i)))
  }

  method ConvertBase64ToPoints(x: seq<int>) returns (points: seq<Point>)
    requires AreBytes(x)
    ensures WordAt(x, 0) >= 0 && points == Points(x)
  {
    var counter := 0;
    var totalStateCount := 256 * ByteAt(x, counter) + ByteAt(x, counter + 1);
    counter := counter + 2;
    points := [];
    var stateIndex := 0;
    while stateIndex < totalStateCount
      invariant 0 <= stateIndex <= totalStateCount == WordAt(x, 0) && counter == 2 + 4 * stateIndex
      invariant points == Points(x)[..stateIndex]
    {
      var time := 256 * ByteAt(x, counter) + ByteAt(x, counter + 1);
      counter := counter + 2;
      var temp := 256 * ByteAt(x, counter) + ByteAt(x, counter + 1);
      counter := counter + 2;
      points := points + [Point(time, temp)];
      stateIndex := stateIndex + 1;
    }
  }

  /** The points shown for the bytes x: those received, or the default ones if there are none. */
  function Shown(x: seq<int>, defaultData: seq<Point>): seq<Point>
    requires WordAt(x, 0) >= 0
  {
    if Points(x) == [] then defaultData else Points(x)
  }

  /** parseResponse, for any bytes. */
  method ParseResponse(x: seq<int>, page: Page) returns (charts: seq<Group>)
    requires AreBytes(x) && page.Valid()
    modifies page
    ensures page.Valid() && WordAt(x, 0) >= 0
    ensures Shown(x, old(page.defaultData)) != [] && Charts(charts, Rows(Shown(x, old(page.defaultData))))
    ensures page.defaultData == if Points(x) == [] then OwnTimes(old(page.defaultData)) else old(page.defaultData)
  {
    var points := ConvertBase64ToPoints(x);
    charts := page.GetStatesByDay(points);
  }

  // ----- there and back -----

  ghost predicate Fits(data: seq<Point>) {
    && |data| < 0x1_0000
    && forall i :: 0 <= i < |data| ==> 0 <= data[i].time < 0x1_0000 && 0 <= data[i].temp < 0x1_0000
  }

  lemma {:induction false} RecordsAt(data: seq<Point>, i: nat)
    requires i < |data|
    ensures Records(data)[4 * i..4 * i + 4] == Record(data[i])
    decreases |data|
  {
    if i > 0 {
      RecordsAt(data[1..], i - 1);
      assert Records(data)[4..] == Records(data[1..]);
      assert Records(data)[4 * i..4 * i + 4] == Records(data[1..])[4 * i - 4..4 * i];
    }
  }

  lemma ResponseAt(data: seq<Point>, i: nat)
    requires i < |data|
    ensures var r, p := Response(data), data[i];
            && r[2 + 4 * i] == p.time / 256 && r[3 + 4 * i] == p.time % 256
            && r[4 + 4 * i] == p.temp / 256 && r[5 + 4 * i] == p.temp % 256
  {
    RecordsAt(data, i);
    var r, q := Response(data), Record(data[i]);
    assert r[2..] == Records(data);
    var window := r[2 + 4 * i..6 + 4 * i];
    assert window == Records(data)[4 * i..4 * i + 4] == q;
    assert window[0] == r[2 + 4 * i] && window[1] == r[3 + 4 * i] && window[2] == r[4 + 4 * i] && window[3] == r[5 + 4 * i];
  }

  /** The pushed numbers are all bytes exactly when every number fits 16 bits; then they read back. */
  lemma WireRoundTrip(data: seq<Point>)
    ensures AreBytes(Response(data)) <==> Fits(data)
    ensures WordAt(Response(data), 0) == |data| && Points(Response(data)) == data
  {
    var r := Response(data);
    forall i | 0 <= i < |data|
      ensures Points(r)[i] == data[i]
    {
      ResponseAt(data, i);
    }
    if Fits(data) {
      forall k | 0 <= k < |r|
        ensures 0 <= r[k] < 256
      {
        if k >= 2 {
          ResponseAt(data, (k - 2) / 4);
        }
      }
    }
    if AreBytes(r) {
      assert r[0] == |data| / 256;
      forall i | 0 <= i < |data|
        ensures 0 <= data[i].time < 0x1_0000 && 0 <= data[i].temp < 0x1_0000
      {
        ResponseAt(data, i);
      }
    }
  }

  /** Every temperature of the table fits the wire. */
  ghost predicate InRange(table: seq<seq<Point>>) {
    forall d, s :: 0 <= d < |table| && 0 <= s < |table[d]| ==> 0 <= table[d][s].temp < 0x1_0000
  }

  ghost predicate TempsFit(ps: seq<Point>) {
    forall i :: 0 <= i < |ps| ==> 0 <= ps[i].temp < 0x1_0000
  }

  lemma {:induction false} DayPointsFit(ps: seq<Point>, d: int)
    requires TempsFit(ps)
    ensures TempsFit(DayPoints(ps, d))
    decreases |ps|
  {
    if ps != [] {
      DayPointsFit(ps[1..], d);
    }
  }

  lemma {:induction false} LatestFits(ps: seq<Point>, d: int)
    requires TempsFit(ps)
    ensures 0 <= Latest(ps, d) < 0x1_0000
    decreases d
  {
    if d >= 0 {
      DayPointsFit(ps, d);
      LatestFits(ps, d - 1);
    }
  }

  lemma {:induction false} EndTempFits(ps: seq<Point>, d: int)
    requires ps != [] && TempsFit(ps) && d >= -1
    ensures 0 <= EndTemp(ps, d) < 0x1_0000
    decreases d
  {
    if d == -1 {
      LatestFits(ps, Horizon(ps) - 1);
    } else {
      DayPointsFit(ps, d);
      EndTempFits(ps, d - 1);
    }
  }

  lemma {:induction false} NestFits(ps: seq<Point>, d: nat)
    requires TempsFit(ps)
    ensures forall i :: 0 <= i < |NestFrom(ps, d)| ==> TempsFit(NestFrom(ps, d)[i].values)
    decreases Horizon(ps) - d
  {
    if d < Horizon(ps) {
      DayPointsFit(ps, d);
      NestFits(ps, d + 1);
    }
  }

  lemma EntriesFit(ps: seq<Point>)
    requires ps != [] && TempsFit(ps)
    ensures forall i :: 0 <= i < |Entries(ps)| ==> TempsFit(Entries(ps)[i].values)
  {
    hide NestFrom, DayPoints, EndTemp;
    NestFits(ps, DAYS);
    forall d: nat | d < DAYS
      ensures TempsFit(Filled(ps, d))
    {
      DayPointsFit(ps, d);
      EndTempFits(ps, d - 1);
    }
  }

  lemma LastFits(ps: seq<Point>)
    requires ps != [] && TempsFit(ps)
    ensures 0 <= Last(ps).temp < 0x1_0000
  {
  }

  lemma StartedFits(ps: seq<Point>, offset: int, e: int)
    requires ps != [] && TempsFit(ps) && 0 <= e < 0x1_0000
    ensures TempsFit(StartedWith(Shifted(ps, offset), e))
  {
  }

  lemma BarsFit(data: seq<Point>)
    requires data != [] && TempsFit(data)
    ensures TempsFit(Bars(data))
  {
    hide BarIndex;
  }

  lemma {:induction false} RowFits(entries: seq<DayEntry>, i: nat)
    requires NoneEmpty(entries) && i < |entries|
    requires forall k :: 0 <= k < |entries| ==> TempsFit(entries[k].values)
    ensures TempsFit(RowBars(entries, i))
  {
    hide Bars, StartedWith, TempsFit, DayStart;
    var e := Last(entries[|entries| - 1].values).temp;
    LastFits(entries[|entries| - 1].values);
    if i > 0 {
      RowFits(entries, i - 1);
      LastFits(RowBars(entries, i - 1));
      e := Last(RowBars(entries, i - 1)).temp;
    }
    StartedFits(entries[i].values, DayStart(entries[i].key), e);
    BarsFit(StartedWith(Shifted(entries[i].values, DayStart(entries[i].key)), e));
  }

  /** Points with temperatures from 0 to 655.35 degrees only make such bars. */
  lemma RowsFit(ps: seq<Point>)
    requires ps != [] && TempsFit(ps)
    ensures forall d :: 0 <= d < |Rows(ps)| ==> TempsFit(Rows(ps)[d].values)
  {
    hide Entries, RowBars;
    EntriesNotEmpty(ps);
    EntriesFit(ps);
    forall d | 0 <= d < |Rows(ps)|
      ensures TempsFit(Rows(ps)[d].values)
    {
      RowFits(Entries(ps), d);
    }
  }

  /** So nothing that comes off the wire shows a table with other temperatures. */
  lemma ReceivedInRange(x: seq<int>, table: seq<seq<Point>>)
    requires AreBytes(x) && WordAt(x, 0) > 0 && Rows(Points(x)) == WeekRows(table)
    ensures InRange(table)
  {
    hide Rows;
    RowsFit(Points(x));
    forall d, s | 0 <= d < |table| && 0 <= s < |table[d]|
      ensures 0 <= table[d][s].temp < 0x1_0000
    {
      assert WeekRows(table)[d].values == table[d];
    }
  }

  lemma ChangesInTable(table: seq<seq<Point>>)
    requires IsTable(table) && InRange(table)
    ensures Fits(DataForESP(table))
  {
    var w, c := WeekFrom(table, 0), DataForESP(table);
    WeekPoints(table, 0);
    ChangesAreStates(w, None);
    ChangesNotMore(w, None);
    forall i | 0 <= i < |c|
      ensures 0 <= c[i].time < 0x1_0000 && 0 <= c[i].temp < 0x1_0000
    {
      var k :| 0 <= k < |w| && w[k] == c[i];
      WeekTemps(table, 0, k / SLOTS, k % SLOTS);
      assert IsDay(table[k / SLOTS]);
    }
  }

  lemma {:induction false} ChangesNotMore(states: seq<Point>, last: Option<int>)
    ensures |Changes(states, last)| <= |states|
    decreases |states|
  {
    if states != [] {
      ChangesNotMore(states[1..], if last == Some(states[0].temp) then last else Some(states[0].temp));
    }
  }

  /**
   * A week of bars, in charts that enable each day, comes back from the device unchanged
   * exactly when all its temperatures lie between 0 and 655.35 degrees: then what is sent are
   * bytes that show the same table; otherwise no bytes could.
   */
  lemma TableSurvives(groups: seq<Group>, table: seq<seq<Point>>)
    requires IsTable(table) && Shows(groups, table)
    ensures var sent := Response(DataForESP(seq(DAYS, d requires 0 <= d < DAYS => ByDay(groups, d))));
            && (AreBytes(sent) <==> InRange(table))
            && WordAt(sent, 0) > 0 && Rows(Points(sent)) == WeekRows(table)
    ensures !InRange(table) ==>
              forall x :: AreBytes(x) && WordAt(x, 0) > 0 ==> Rows(Points(x)) != WeekRows(table)
  {
    hide Rows, Table, Shows;
    DataOfCharts(groups, table);
    var c := DataForESP(table);
    DataForESPCanonical(table);
    WireRoundTrip(c);
    RowsOfWeek(c);
    if InRange(table) {
      ChangesInTable(table);
    }
    if AreBytes(Response(c)) {
      ReceivedInRange(Response(c), table);
    }
    forall x | AreBytes(x) && WordAt(x, 0) > 0 && Rows(Points(x)) == WeekRows(table)
      ensures InRange(table)
    {
      ReceivedInRange(x, table);
    }
  }

  function FrostTable(): seq<seq<Point>> {
    seq(DAYS, _ => seq(SLOTS, s => Point(SlotStart(s), -100)))
  }

  /** A week at minus one degree is a table, and nothing received shows it. */
  lemma FrostIsLost(x: seq<int>)
    requires AreBytes(x) && WordAt(x, 0) > 0
    ensures IsTable(FrostTable()) && Rows(Points(x)) != WeekRows(FrostTable())
  {
    hide Rows;
    assert FrostTable()[0][0].temp == -100;
    if Rows(Points(x)) == WeekRows(FrostTable()) {
      ReceivedInRange(x, FrostTable());
      assert false;
    }
  }
}
