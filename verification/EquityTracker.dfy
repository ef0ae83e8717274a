/** src/equity-tracker.ts: daily P&L of equity snapshots, drawdown and weekly aggregation, with
    equities as reals. Timestamps and dates are numbers in the order of their ISO strings. */
module EquityTracker {
  import opened Prelude

  datatype Snapshot = Snapshot(ts: int, exchange: string, equity: real)

  datatype Mark = Mark(ts: int, eq: real)

  datatype Day = Day(first: Mark, last: Mark)

  datatype Row = Row(date: int, startEquity: real, endEquity: real, pnl: real)

  type Days = seq<(int, Day)>

  // ── computeDailyPnl ──

  function Filtered(snaps: seq<Snapshot>, exchange: Option<string>): seq<Snapshot> {
    if snaps == [] || exchange.None? then snaps
    else
      Filtered(snaps[..|snaps| - 1], exchange)
      + (if snaps[|snaps| - 1].exchange == exchange.value then [snaps[|snaps| - 1]] else [])
  }

  /** Equity of all snapshots taken at one instant. */
  function TotalAt(snaps: seq<Snapshot>, ts: int): real {
    if snaps == [] then 0.0
    else TotalAt(snaps[..|snaps| - 1], ts) + if snaps[|snaps| - 1].ts == ts then snaps[|snaps| - 1].equity else 0.0
  }

  /** The equity a snapshot stands for: its own for one exchange, the instant's total otherwise. */
  function EquityOf(all: seq<Snapshot>, one: bool, s: Snapshot): real {
    if one then s.equity else TotalAt(all, s.ts)
  }

  function AddMark(days: Days, date: int, m: Mark): Days {
    var d := Get(days, date);
    if d.None? then Put(days, date, Day(m, m))
    else Put(days, date, Day(if m.ts < d.value.first.ts then m else d.value.first,
                             if m.ts > d.value.last.ts then m else d.value.last))
  }

  function DaysOf(dateOf: int -> int, all: seq<Snapshot>, one: bool, snaps: seq<Snapshot>): Days {
    if snaps == [] then []
    else
      var s := snaps[|snaps| - 1];
      AddMark(DaysOf(dateOf, all, one, snaps[..|snaps| - 1]), dateOf(s.ts), Mark(s.ts, EquityOf(all, one, s)))
  }

  function Keys<V>(m: seq<(int, V)>): seq<int> {
    if m == [] then [] else Keys(m[..|m| - 1]) + [m[|m| - 1].0]
  }

  function Insert(x: int, s: seq<int>): seq<int> {
    if s == [] || x <= s[0] then [x] + s else [s[0]] + Insert(x, s[1..])
  }

  function Sort(s: seq<int>): seq<int> {
    if s == [] then [] else Insert(s[0], Sort(s[1..]))
  }

  function DayAt(days: Days, date: int): Day {
    var d := Get(days, date);
    if d.Some? then d.value else Day(Mark(0, 0.0), Mark(0, 0.0))
  }

  function RowAt(days: Days, dates: seq<int>, i: nat): Row
    requires i < |dates|
  {
    var day := DayAt(days, dates[i]);
    var start := if i > 0 then DayAt(days, dates[i - 1]).last.eq else day.first.eq;
    Row(dates[i], start, day.last.eq, day.last.eq - start)
  }

  function Rows(days: Days, dates: seq<int>, n: nat): seq<Row>
    requires n <= |dates|
  {
    if n == 0 then [] else Rows(days, dates, n - 1) + [RowAt(days, dates, n - 1)]
  }

  function Daily(dateOf: int -> int, snaps: seq<Snapshot>, exchange: Option<string>): seq<Row> {
    var all := Filtered(snaps, exchange);
    var days := DaysOf(dateOf, all, exchange.Some?, all);
    var dates := Sort(Keys(days));
    Rows(days, dates, |dates|)
  }

  method SumByTimestamp(filtered: seq<Snapshot>) returns (byTimestamp: map<int, real>)
    ensures forall s :: s in filtered ==> s.ts in byTimestamp && byTimestamp[s.ts] == TotalAt(filtered, s.ts)
  {
    byTimestamp := map[];
    var i := 0;
    while i < |filtered|
      invariant 0 <= i <= |filtered|
      invariant forall ts :: (if ts in byTimestamp then byTimestamp[ts] else 0.0) == TotalAt(filtered[..i], ts)
      invariant forall j :: 0 <= j < i ==> filtered[j].ts in byTimestamp
    {
      var s := filtered[i];
      assert filtered[..i + 1][..i] == filtered[..i];
      byTimestamp := byTimestamp[s.ts := (if s.ts in byTimestamp then byTimestamp[s.ts] else 0.0) + s.equity];
      i := i + 1;
    }
    assert filtered[..i] == filtered;
  }

  method GroupByDate(dateOf: int -> int, filtered: seq<Snapshot>, one: bool, byTimestamp: map<int, real>)
      returns (byDate: Days)
    requires forall s :: s in filtered ==> s.ts in byTimestamp && byTimestamp[s.ts] == TotalAt(filtered, s.ts)
    ensures byDate == DaysOf(dateOf, filtered, one, filtered)
  {
    hide Put, Get, TotalAt;
    byDate := [];
    var i := 0;
    while i < |filtered|
      invariant 0 <= i <= |filtered| && byDate == DaysOf(dateOf, filtered, one, filtered[..i])
    {
      var s := filtered[i];
      assert filtered[..i + 1][..i] == filtered[..i];
      var date := dateOf(s.ts);
      var eq := if one then s.equity else byTimestamp[s.ts];
      var existing := Get(byDate, date);
      if existing.None? {
        byDate := Put(byDate, date, Day(Mark(s.ts, eq), Mark(s.ts, eq)));
      } else {
        var first, last := existing.value.first, existing.value.last;
        if s.ts < first.ts { first := Mark(s.ts, eq); }
        if s.ts > last.ts { last := Mark(s.ts, eq); }
        byDate := Put(byDate, date, Day(first, last));
      }
      i := i + 1;
    }
    assert filtered[..i] == filtered;
  }

  method ComputeDailyPnl(dateOf: int -> int, snapshots: seq<Snapshot>, exchange: Option<string>)
      returns (daily: seq<Row>)
    ensures daily == Daily(dateOf, snapshots, exchange)
  {
    hide DaysOf, TotalAt;
    var filtered := Filtered(snapshots, exchange);
    var byTimestamp := SumByTimestamp(filtered);
    var byDate := GroupByDate(dateOf, filtered, exchange.Some?, byTimestamp);
    daily := [];
    var dates := Sort(Keys(byDate));
    var i := 0;
    while i < |dates|
      invariant 0 <= i <= |dates| && daily == Rows(byDate, dates, i)
    {
      var day := DayAt(byDate, dates[i]);
      var startEquity := if i > 0 then DayAt(byDate, dates[i - 1]).last.eq else day.first.eq;
      daily := daily + [Row(dates[i], startEquity, day.last.eq, day.last.eq - startEquity)];
      i := i + 1;
    }
  }

  // ── The drawdown loop of computePnlMetrics ──

  datatype Drawdown = Drawdown(peak: real, worst: real, worstPct: real)

  function Percent(drop: real, peak: real): real {
    if peak > 0.0 then drop / peak * 100.0 else 0.0
  }

  function AfterDay(d: Drawdown, endEquity: real): Drawdown {
    var peak := if endEquity > d.peak then endEquity else d.peak;
    var drop := peak - endEquity;
    if drop > d.worst then Drawdown(peak, drop, Percent(drop, peak)) else Drawdown(peak, d.worst, d.worstPct)
  }

  function DrawdownOf(ends: seq<real>): Drawdown {
    if ends == [] then Drawdown(0.0, 0.0, 0.0) else AfterDay(DrawdownOf(ends[..|ends| - 1]), ends[|ends| - 1])
  }

  function Ends(rows: seq<Row>): seq<real> {
    seq(|rows|, i requires 0 <= i < |rows| => rows[i].endEquity)
  }

  method ComputeDrawdown(daily: seq<Row>) returns (d: Drawdown, current: real)
    requires daily != []
    ensures d == DrawdownOf(Ends(daily)) && current == d.peak - daily[|daily| - 1].endEquity
  {
    hide Percent;
    var peakEquity, maxDrawdown, maxDrawdownPct := 0.0, 0.0, 0.0;
    var i := 0;
    while i < |daily|
      invariant 0 <= i <= |daily| && Drawdown(peakEquity, maxDrawdown, maxDrawdownPct) == DrawdownOf(Ends(daily)[..i])
    {
      var e := daily[i].endEquity;
      assert Ends(daily)[..i + 1][..i] == Ends(daily)[..i];
      if e > peakEquity { peakEquity := e; }
      var dd := peakEquity - e;
      var ddPct := Percent(dd, peakEquity);
      if dd > maxDrawdown {
        maxDrawdown := dd;
        maxDrawdownPct := ddPct;
      }
      i := i + 1;
    }
    assert Ends(daily)[..i] == Ends(daily);
    d := Drawdown(peakEquity, maxDrawdown, maxDrawdownPct);
    current := peakEquity - daily[|daily| - 1].endEquity;
  }

  // ── aggregateWeekly ──

  datatype Week = Week(start: Row, end: Row)

  type Weeks = seq<(int, Week)>

  /** The Monday of a day: the weekday is the local one, so `offset` depends on the time zone. */
  function MondayOf(date: int, offset: int): int {
    date - (date + offset) % 7
  }

  function AddRow(weeks: Weeks, key: int, d: Row): Weeks {
    var w := Get(weeks, key);
    if w.None? then Put(weeks, key, Week(d, d))
    else Put(weeks, key, Week(if d.date < w.value.start.date then d else w.value.start,
                              if d.date > w.value.end.date then d else w.value.end))
  }

  function WeeksOf(rows: seq<Row>, offset: int): Weeks {
    if rows == [] then []
    else AddRow(WeeksOf(rows[..|rows| - 1], offset), MondayOf(rows[|rows| - 1].date, offset), rows[|rows| - 1])
  }

  function WeekRow(weeks: Weeks, key: int): Row {
    var w := Get(weeks, key);
    if w.Some? then Row(key, w.value.start.startEquity, w.value.end.endEquity,
                        w.value.end.endEquity - w.value.start.startEquity) else Row(key, 0.0, 0.0, 0.0)
  }

  function Weekly(rows: seq<Row>, offset: int): seq<Row> {
    var weeks := WeeksOf(rows, offset);
    var keys := Sort(Keys(weeks));
    seq(|keys|, i requires 0 <= i < |keys| => WeekRow(weeks, keys[i]))
  }

  method AggregateWeekly(daily: seq<Row>, offset: int) returns (weekly: seq<Row>)
    ensures weekly == Weekly(daily, offset)
  {
    var weeks: Weeks := [];
    var i := 0;
    while i < |daily|
      invariant 0 <= i <= |daily| && weeks == WeeksOf(daily[..i], offset)
    {
      var d := daily[i];
      assert daily[..i + 1][..i] == daily[..i];
      var weekKey := MondayOf(d.date, offset);
      var existing := Get(weeks, weekKey);
      if existing.None? {
        weeks := Put(weeks, weekKey, Week(d, d));
      } else {
        var start, end := existing.value.start, existing.value.end;
        if d.date < start.date { start := d; }
        if d.date > end.date { end := d; }
        weeks := Put(weeks, weekKey, Week(start, end));
      }
      i := i + 1;
    }
    assert daily[..i] == daily;
    var keys := Sort(Keys(weeks));
    weekly := seq(|keys|, i requires 0 <= i < |keys| => WeekRow(weeks, keys[i]));
  }
}
