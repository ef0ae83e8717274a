/** What the equity reports mean: P&L telescopes, the one-pass drawdown is the two-index maximum,
    and the all-exchange series does not depend on the order of the snapshots. */
module EquityProperties {
  import opened Prelude
  import opened EquityTracker

  // ── Drawdown ──

  /** The largest fall from a point of the series to itself or a later one. */
  ghost predicate IsWorstFall(s: seq<real>, fall: real) {
    && (exists i, j :: 0 <= i <= j < |s| && s[i] - s[j] == fall)
    && (forall i, j :: 0 <= i <= j < |s| ==> s[i] - s[j] <= fall)
  }

  ghost predicate IsPeak(s: seq<real>, peak: real) {
    && (exists i :: 0 <= i < |s| && s[i] == peak)
    && (forall i :: 0 <= i < |s| ==> s[i] <= peak)
  }

  /** For every series, the loop's maximum drawdown is the largest fall of the series that starts
      with the zero it takes as first peak, and its peak is that series' peak. */
  lemma {:induction false} DrawdownIsWorstFall(ends: seq<real>)
    ensures IsPeak([0.0] + ends, DrawdownOf(ends).peak) && IsWorstFall([0.0] + ends, DrawdownOf(ends).worst)
  {
    hide Percent;
    var s := [0.0] + ends;
    if ends == [] {
      assert s[0] == 0.0 && s[0] - s[0] == 0.0;
    } else {
      var init, e := ends[..|ends| - 1], ends[|ends| - 1];
      DrawdownIsWorstFall(init);
      NextPoint([0.0] + init, e, DrawdownOf(init));
      assert s == ([0.0] + init) + [e];
    }
  }

  /** The first fall by `fall`: at j from the peak so far, standing at i, and no point before j fell that far. */
  ghost predicate FirstFall(s: seq<real>, fall: real, i: nat, j: nat) {
    && i <= j < |s| && s[i] - s[j] == fall
    && (forall a :: 0 <= a <= j ==> s[a] <= s[i])
    && (forall a, b :: 0 <= a <= b < j ==> s[a] - s[b] < fall)
  }

  lemma {:induction false} WorstPctIsPercent(ends: seq<real>) returns (i: nat, j: nat)
    ensures var d := DrawdownOf(ends);
            d.worst >= 0.0 &&
            if d.worst > 0.0
              then FirstFall([0.0] + ends, d.worst, i, j) && i < |[0.0] + ends|
                && d.worstPct == Percent(d.worst, ([0.0] + ends)[i])
            else d.worstPct == 0.0
  {
    hide FirstFall, Percent, IsPeak, IsWorstFall;
    i, j := 0, 0;
    if ends != [] {
      var n := |ends| - 1;
      var init, s := [0.0] + ends[..n], [0.0] + ends;
      var d := DrawdownOf(ends[..n]);
      i, j := WorstPctIsPercent(ends[..n]);
      DrawdownIsWorstFall(ends[..n]);
      assert s == init + [ends[n]];
      if AfterDay(d, ends[n]).worst > d.worst {
        i, j := NewFirstFall(init, ends[n], d);
      } else if d.worst > 0.0 {
        FirstFallStays(init, ends[n], d.worst, i, j);
      }
    }
  }

  /** The reported percentage is the maximum drawdown's share of the peak before the first day that
      reaches it, 0 while that peak is the assumed zero; a later equal fall from a higher peak does not count. */
  lemma {:induction false} WorstPctIsFirst(ends: seq<real>) returns (i: nat, j: nat)
    ensures var d, s := DrawdownOf(ends), [0.0] + ends;
            if d.worst > 0.0
              then i < |s| && FirstFall(s, d.worst, i, j)
                && (if s[i] > 0.0 then d.worstPct * s[i] == d.worst * 100.0 else d.worstPct == 0.0)
            else d.worstPct == 0.0
  {
    hide FirstFall, DrawdownOf;
    i, j := WorstPctIsPercent(ends);
    var d, s := DrawdownOf(ends), [0.0] + ends;
    if d.worst > 0.0 && s[i] > 0.0 { PercentTimes(d.worst, s[i]); }
  }

  lemma PercentTimes(drop: real, peak: real)
    requires peak > 0.0
    ensures Percent(drop, peak) * peak == drop * 100.0
  {
    var q := drop / peak;
    assert q * peak == drop;
    assert (q * 100.0) * peak == (q * peak) * 100.0;
  }

  lemma FirstFallStays(s: seq<real>, e: real, fall: real, i: nat, j: nat)
    requires FirstFall(s, fall, i, j)
    ensures FirstFall(s + [e], fall, i, j) && i < |s| && (s + [e])[i] == s[i]
  {
  }

  lemma NewFirstFall(s: seq<real>, e: real, d: Drawdown) returns (i: nat, j: nat)
    requires IsPeak(s, d.peak) && IsWorstFall(s, d.worst) && AfterDay(d, e).worst > d.worst
    ensures FirstFall(s + [e], AfterDay(d, e).worst, i, j) && i < |s + [e]| && (s + [e])[i] == AfterDay(d, e).peak
  {
    hide Percent;
    assert d.worst >= 0.0 by { assert s[0] - s[0] <= d.worst; }
    i :| 0 <= i < |s| && s[i] == d.peak;
    j := |s|;
    var t := s + [e];
    forall a, b | 0 <= a <= b < j ensures t[a] - t[b] <= d.worst { assert t[a] - t[b] == s[a] - s[b]; }
  }

  lemma NextPoint(s: seq<real>, e: real, d: Drawdown)
    requires IsPeak(s, d.peak) && IsWorstFall(s, d.worst)
    ensures IsPeak(s + [e], AfterDay(d, e).peak) && IsWorstFall(s + [e], AfterDay(d, e).worst)
  {
    hide Percent;
    var t, n := s + [e], |s|;
    var p :| 0 <= p < |s| && s[p] == d.peak;
    var i, j :| 0 <= i <= j < |s| && s[i] - s[j] == d.worst;
    assert t[p] == d.peak && t[n] == e && t[i] - t[j] == d.worst;
    var d' := AfterDay(d, e);
    assert e > d.peak ==> t[n] - t[n] == 0.0;
    assert d.worst >= 0.0 by { assert s[0] - s[0] <= d.worst; }
    assert d'.worst == d.worst || d'.worst == t[p] - t[n];
    forall a, b | 0 <= a <= b < |t| ensures t[a] - t[b] <= d'.worst {
      if b < n { assert t[a] - t[b] == s[a] - s[b]; } else if a < n { assert t[a] == s[a] <= d.peak; }
    }
  }

  /** The worst fall of the series with a leading zero: the series' own, or from that zero to the lowest point. */
  lemma FallFromZero(ends: seq<real>, fall: real, lowest: real, worst: real)
    requires ends != [] && IsWorstFall(ends, fall) && IsWorstFall([0.0] + ends, worst)
    requires lowest in ends && forall i :: 0 <= i < |ends| ==> lowest <= ends[i]
    ensures worst == Max(fall, -lowest) && fall >= 0.0
  {
    var s := [0.0] + ends;
    assert fall >= 0.0 by { assert ends[0] - ends[0] <= fall; }
    assert -lowest <= worst by {
      var k :| 0 <= k < |ends| && ends[k] == lowest;
      assert s[0] - s[k + 1] <= worst;
    }
    assert fall <= worst by {
      var i, j :| 0 <= i <= j < |ends| && ends[i] - ends[j] == fall;
      assert s[i + 1] - s[j + 1] <= worst;
    }
    assert worst <= Max(fall, -lowest) by { AtMostFall(ends, fall, lowest, worst); }
  }

  lemma AtMostFall(ends: seq<real>, fall: real, lowest: real, worst: real)
    requires ends != [] && IsWorstFall(ends, fall) && IsWorstFall([0.0] + ends, worst) && fall >= 0.0
    requires forall i :: 0 <= i < |ends| ==> lowest <= ends[i]
    ensures worst <= Max(fall, -lowest)
  {
    var s := [0.0] + ends;
    var a, b :| 0 <= a <= b < |s| && s[a] - s[b] == worst;
    if a > 0 {
      assert ends[a - 1] - ends[b - 1] <= fall;
    } else if b > 0 {
      assert s[b] == ends[b - 1];
    }
  }

  /** The drawdown of the equities themselves is reported exactly when none of them lies so far below
      zero that the assumed starting peak of zero falls further; so always for equities never negative. */
  lemma PlainDrawdownIff(ends: seq<real>, fall: real, lowest: real)
    requires ends != [] && IsWorstFall(ends, fall)
    requires lowest in ends && forall i :: 0 <= i < |ends| ==> lowest <= ends[i]
    ensures DrawdownOf(ends).worst == fall <==> -lowest <= fall
    ensures lowest >= 0.0 ==> DrawdownOf(ends).worst == fall
  {
    DrawdownIsWorstFall(ends);
    FallFromZero(ends, fall, lowest, DrawdownOf(ends).worst);
  }

  /** A single negative equity is reported as a drawdown although nothing fell. */
  lemma NegativeEquityIsAFall()
    ensures DrawdownOf([-1.0]).worst == 1.0 && IsWorstFall([-1.0], 0.0)
  {
    var one := [-1.0];
    assert one[..0] == [];
    assert one[0] - one[0] == 0.0;
  }

  /** The current drawdown is never negative and never exceeds the maximum. */
  lemma {:induction false} CurrentAtMostWorst(ends: seq<real>)
    requires ends != []
    ensures 0.0 <= DrawdownOf(ends).peak - ends[|ends| - 1] <= DrawdownOf(ends).worst
  {
    DrawdownIsWorstFall(ends);
    hide DrawdownOf;
    var s, peak := [0.0] + ends, DrawdownOf(ends).peak;
    var p :| 0 <= p < |s| && s[p] == peak;
    assert s[|s| - 1] == ends[|ends| - 1] <= peak;
    assert s[p] - s[|s| - 1] <= DrawdownOf(ends).worst;
  }

  // ── Telescoping ──

  function Sum(rows: seq<Row>): real {
    if rows == [] then 0.0 else Sum(rows[..|rows| - 1]) + rows[|rows| - 1].pnl
  }

  /** Each row starts where the one before ended, and its pnl is its own change. */
  ghost predicate Chained(rows: seq<Row>) {
    && (forall i :: 0 <= i < |rows| ==> rows[i].pnl == rows[i].endEquity - rows[i].startEquity)
    && (forall i :: 0 < i < |rows| ==> rows[i].startEquity == rows[i - 1].endEquity)
  }

  lemma {:induction false} ChainTelescopes(rows: seq<Row>)
    requires Chained(rows) && rows != []
    ensures Sum(rows) == rows[|rows| - 1].endEquity - rows[0].startEquity
  {
    var init := rows[..|rows| - 1];
    if init == [] {
      assert Sum(init) == 0.0;
    } else {
      ChainTelescopes(init);
    }
  }

  lemma {:induction false} RowsChained(days: Days, dates: seq<int>, n: nat)
    requires n <= |dates|
    ensures |Rows(days, dates, n)| == n && Chained(Rows(days, dates, n))
    ensures forall i :: 0 <= i < n ==> Rows(days, dates, n)[i] == RowAt(days, dates, i)
  {
    if n > 0 { RowsChained(days, dates, n - 1); }
  }

  /** The daily results add up to totalReturn: the last equity less the first. */
  lemma DailyTelescopes(dateOf: int -> int, snaps: seq<Snapshot>, exchange: Option<string>)
    ensures var rows := Daily(dateOf, snaps, exchange);
            Chained(rows) && (rows != [] ==> Sum(rows) == rows[|rows| - 1].endEquity - rows[0].startEquity)
  {
    hide Rows, DaysOf, Sort;
    var all := Filtered(snaps, exchange);
    var days := DaysOf(dateOf, all, exchange.Some?, all);
    var dates := Sort(Keys(days));
    RowsChained(days, dates, |dates|);
    var rows := Rows(days, dates, |dates|);
    if rows != [] { ChainTelescopes(rows); }
  }

  // ── Sorted keys ──

  ghost predicate Ascending(s: seq<int>) {
    forall i, j :: 0 <= i < j < |s| ==> s[i] < s[j]
  }

  ghost predicate NonDecreasing(s: seq<int>) {
    forall i, j :: 0 <= i < j < |s| ==> s[i] <= s[j]
  }

  lemma {:induction false} InsertPermutes(x: int, s: seq<int>)
    ensures multiset(Insert(x, s)) == multiset(s) + multiset{x}
  {
    if s != [] && x > s[0] {
      InsertPermutes(x, s[1..]);
      assert s == [s[0]] + s[1..];
    }
  }

  lemma {:induction false} InsertSorts(x: int, s: seq<int>)
    requires NonDecreasing(s)
    ensures NonDecreasing(Insert(x, s))
    ensures forall k :: 0 <= k < |Insert(x, s)| ==> Insert(x, s)[k] == x || Insert(x, s)[k] in s
  {
    if s != [] && x > s[0] { InsertSorts(x, s[1..]); }
  }

  lemma {:induction false} SortSorts(s: seq<int>)
    ensures NonDecreasing(Sort(s)) && multiset(Sort(s)) == multiset(s)
  {
    if s != [] {
      SortSorts(s[1..]);
      InsertSorts(s[0], Sort(s[1..]));
      InsertPermutes(s[0], Sort(s[1..]));
      assert s == [s[0]] + s[1..];
    }
  }

  lemma SameElements<T>(a: seq<T>, b: seq<T>)
    requires multiset(a) == multiset(b)
    ensures |a| == |b| && forall x :: x in a <==> x in b
  {
    assert |multiset(a)| == |a| && |multiset(b)| == |b|;
    forall x ensures x in a <==> x in b { assert x in a <==> x in multiset(a); assert x in b <==> x in multiset(b); }
  }

  lemma DropFirst(a: seq<int>, b: seq<int>)
    requires multiset(a) == multiset(b) && a != [] && b != [] && a[0] == b[0]
    ensures multiset(a[1..]) == multiset(b[1..])
  {
    assert a == [a[0]] + a[1..] && b == [b[0]] + b[1..];
    assert multiset(a[1..]) == multiset(a) - multiset{a[0]} && multiset(b[1..]) == multiset(b) - multiset{b[0]};
  }

  /** Two ordered lists of the same numbers are the same list. */
  lemma {:induction false} AscendingUnique(a: seq<int>, b: seq<int>)
    requires NonDecreasing(a) && NonDecreasing(b) && multiset(a) == multiset(b)
    ensures a == b
  {
    SameElements(a, b);
    if a != [] {
      assert a[0] in b && b[0] in a;
      DropFirst(a, b);
      AscendingUnique(a[1..], b[1..]);
      assert a == [a[0]] + a[1..] && b == [b[0]] + b[1..];
    }
  }

  // ── Order of the snapshots ──

  lemma {:induction false} TotalOfRemoved(snaps: seq<Snapshot>, k: nat, ts: int)
    requires k < |snaps|
    ensures TotalAt(snaps, ts) == TotalAt(snaps[..k] + snaps[k + 1..], ts) + if snaps[k].ts == ts then snaps[k].equity
            else 0.0
  {
    var n := |snaps| - 1;
    if k == n {
      assert snaps[..k] + snaps[k + 1..] == snaps[..n];
    } else {
      var rest := snaps[..k] + snaps[k + 1..];
      TotalOfRemoved(snaps[..n], k, ts);
      assert rest[..|rest| - 1] == snaps[..n][..k] + snaps[..n][k + 1..] && rest[|rest| - 1] == snaps[n];
    }
  }

  /** The total of an instant adds up the equities of the snapshots taken then, and no other. */
  lemma {:induction false} TotalsAddUp(a: seq<Snapshot>, b: seq<Snapshot>, ts: int)
    ensures TotalAt([], ts) == 0.0 && TotalAt(a + b, ts) == TotalAt(a, ts) + TotalAt(b, ts)
    ensures forall s :: TotalAt([s], ts) == if s.ts == ts then s.equity else 0.0
  {
    forall s: Snapshot ensures TotalAt([s], ts) == if s.ts == ts then s.equity else 0.0 {
      assert [s][..0] == [] && TotalAt([s][..0], ts) == 0.0;
    }
    if b == [] {
      assert a + b == a;
    } else {
      assert (a + b)[..|a + b| - 1] == a + b[..|b| - 1];
      TotalsAddUp(a, b[..|b| - 1], ts);
    }
  }

  lemma {:induction false} TotalIgnoresOrder(a: seq<Snapshot>, b: seq<Snapshot>, ts: int)
    requires multiset(a) == multiset(b)
    ensures TotalAt(a, ts) == TotalAt(b, ts)
  {
    SameElements(a, b);
    if a != [] {
      var s := a[|a| - 1];
      assert s in b;
      var k :| 0 <= k < |b| && b[k] == s;
      SameWithout(a, b, k);
      TotalIgnoresOrder(a[..|a| - 1], b[..k] + b[k + 1..], ts);
      TotalOfRemoved(b, k, ts);
    }
  }

  lemma SameWithout(a: seq<Snapshot>, b: seq<Snapshot>, k: nat)
    requires multiset(a) == multiset(b) && a != [] && k < |b| && b[k] == a[|a| - 1]
    ensures multiset(a[..|a| - 1]) == multiset(b[..k] + b[k + 1..])
  {
    var s := b[k];
    assert a == a[..|a| - 1] + [s] && b == b[..k] + [s] + b[k + 1..];
    assert multiset(a[..|a| - 1]) == multiset(a) - multiset{s};
    assert multiset(b) == multiset(b[..k]) + multiset{s} + multiset(b[k + 1..]);
  }

  /** With a filter the snapshots of that exchange, as often as they stand in the history, and no other;
      without one all. */
  lemma {:induction false} FilteredExactly(snaps: seq<Snapshot>, exchange: Option<string>, s: Snapshot)
    ensures multiset(Filtered(snaps, exchange))[s]
            == if exchange == None || exchange == Some(s.exchange) then multiset(snaps)[s] else 0
  {
    if snaps != [] {
      FilteredExactly(snaps[..|snaps| - 1], exchange, s);
      assert snaps == snaps[..|snaps| - 1] + [snaps[|snaps| - 1]];
    }
  }

  /** The mark is the first snapshot listed at its instant. */
  ghost predicate FirstAt(snaps: seq<Snapshot>, m: Mark) {
    exists k :: 0 <= k < |snaps| && snaps[k].ts == m.ts && snaps[k].equity == m.eq
                && forall j :: 0 <= j < k ==> snaps[j].ts != m.ts
  }

  lemma FirstAtKept(init: seq<Snapshot>, s: Snapshot, m: Mark)
    requires FirstAt(init, m) || (m == Mark(s.ts, s.equity) && forall x :: x in init ==> x.ts != s.ts)
    ensures FirstAt(init + [s], m)
  {
    var snaps := init + [s];
    if FirstAt(init, m) {
      var k :| 0 <= k < |init| && init[k].ts == m.ts && init[k].equity == m.eq
        && forall j :: 0 <= j < k ==> init[j].ts != m.ts;
      assert snaps[k] == init[k];
    } else {
      assert snaps[|init|] == s;
    }
  }

  /** The entry of a date for one exchange: its earliest and latest snapshots' own equities. */
  ghost predicate IsOwnDay(dateOf: int -> int, snaps: seq<Snapshot>, date: int, d: Option<Day>) {
    if d.None? then forall s :: s in snaps ==> dateOf(s.ts) != date
    else
      && dateOf(d.value.first.ts) == date == dateOf(d.value.last.ts)
      && FirstAt(snaps, d.value.first) && FirstAt(snaps, d.value.last)
      && (forall s :: s in snaps && dateOf(s.ts) == date ==> d.value.first.ts <= s.ts <= d.value.last.ts)
  }

  lemma {:induction false} OwnDaysAreDays(dateOf: int -> int, all: seq<Snapshot>, snaps: seq<Snapshot>)
    ensures DistinctKeys(DaysOf(dateOf, all, true, snaps))
    ensures forall date :: IsOwnDay(dateOf, snaps, date, Get(DaysOf(dateOf, all, true, snaps), date))
  {
    if snaps == [] {
      assert DaysOf(dateOf, all, true, snaps) == [];
    } else {
      hide IsOwnDay, Grown, AddMark, Get, TotalAt;
      var init, s := snaps[..|snaps| - 1], snaps[|snaps| - 1];
      var before, after, m := DaysOf(dateOf, all, true, init), DaysOf(dateOf, all, true, snaps), Mark(s.ts, s.equity);
      OwnDaysAreDays(dateOf, all, init);
      MarkAdded(before, dateOf(s.ts), m);
      assert after == AddMark(before, dateOf(s.ts), m) && snaps == init + [s];
      forall date ensures IsOwnDay(dateOf, snaps, date, Get(after, date)) {
        OwnDayGrows(dateOf, init, s, date, Get(before, date));
      }
    }
  }

  lemma OwnDayGrows(dateOf: int -> int, init: seq<Snapshot>, s: Snapshot, date: int, d: Option<Day>)
    requires IsOwnDay(dateOf, init, date, d)
    ensures IsOwnDay(dateOf, init + [s], date, if date == dateOf(s.ts) then Some(Grown(d, Mark(s.ts, s.equity))) else d)
  {
    hide FirstAt;
    var snaps := init + [s];
    assert forall x :: x in snaps <==> x in init || x == s;
    var d' := if date == dateOf(s.ts) then Some(Grown(d, Mark(s.ts, s.equity))) else d;
    if d'.Some? {
      FirstAtKept(init, s, d'.value.first);
      FirstAtKept(init, s, d'.value.last);
    }
  }

  /** The entry of a date: its earliest and latest instants, each with that instant's total. */
  ghost predicate IsDay(dateOf: int -> int, all: seq<Snapshot>, snaps: seq<Snapshot>, date: int, d: Option<Day>) {
    if d.None? then forall s :: s in snaps ==> dateOf(s.ts) != date
    else
      && d.value.first.eq == TotalAt(all, d.value.first.ts) && d.value.last.eq == TotalAt(all, d.value.last.ts)
      && (exists s :: s in snaps && s.ts == d.value.first.ts && dateOf(s.ts) == date)
      && (exists s :: s in snaps && s.ts == d.value.last.ts && dateOf(s.ts) == date)
      && (forall s :: s in snaps && dateOf(s.ts) == date ==> d.value.first.ts <= s.ts <= d.value.last.ts)
  }

  lemma {:induction false} DaysAreDays(dateOf: int -> int, all: seq<Snapshot>, snaps: seq<Snapshot>)
    ensures DistinctKeys(DaysOf(dateOf, all, false, snaps))
    ensures forall date :: IsDay(dateOf, all, snaps, date, Get(DaysOf(dateOf, all, false, snaps), date))
  {
    if snaps != [] {
      var init, s := snaps[..|snaps| - 1], snaps[|snaps| - 1];
      DaysAreDays(dateOf, all, init);
      var before, after := DaysOf(dateOf, all, false, init), DaysOf(dateOf, all, false, snaps);
      var m := Mark(s.ts, TotalAt(all, s.ts));
      MarkAdded(before, dateOf(s.ts), m);
      forall date ensures IsDay(dateOf, all, snaps, date, Get(after, date)) {
        DayGrows(dateOf, all, init, s, date, Get(before, date));
      }
      assert snaps == init + [s];
    }
  }

  /** One snapshot's effect on one date's entry. */
  function Grown(d: Option<Day>, m: Mark): Day {
    if d.None? then Day(m, m)
    else Day(if m.ts < d.value.first.ts then m else d.value.first, if m.ts > d.value.last.ts then m else d.value.last)
  }

  lemma MarkAdded(days: Days, date: int, m: Mark)
    requires DistinctKeys(days)
    ensures DistinctKeys(AddMark(days, date, m))
    ensures forall k ::
            Get(AddMark(days, date, m), k) == if k == date then Some(Grown(Get(days, date), m)) else Get(days, k)
  {
    PutGet(days, date, Grown(Get(days, date), m));
  }

  lemma DayGrows(dateOf: int -> int, all: seq<Snapshot>, init: seq<Snapshot>, s: Snapshot, date: int, d: Option<Day>)
    requires IsDay(dateOf, all, init, date, d)
    ensures IsDay(dateOf, all, init + [s], date,
                  if date == dateOf(s.ts) then Some(Grown(d, Mark(s.ts, TotalAt(all, s.ts)))) else d)
  {
    hide TotalAt;
    var snaps := init + [s];
    assert s in snaps && forall x :: x in snaps <==> x in init || x == s;
  }

  lemma SameDay(dateOf: int -> int, a: seq<Snapshot>, b: seq<Snapshot>, date: int, d: Option<Day>, d': Option<Day>)
    requires multiset(a) == multiset(b) && (forall ts :: TotalAt(a, ts) == TotalAt(b, ts))
    requires IsDay(dateOf, a, a, date, d) && IsDay(dateOf, b, b, date, d')
    ensures d == d'
  {
    hide TotalAt;
    forall s ensures s in a <==> s in b { assert s in a <==> s in multiset(a); assert s in b <==> s in multiset(b); }
  }

  lemma {:induction false} KeysOf<V>(m: seq<(int, V)>)
    ensures |Keys(m)| == |m| && forall i :: 0 <= i < |m| ==> Keys(m)[i] == m[i].0
  {
    if m != [] { KeysOf(m[..|m| - 1]); }
  }

  /** Distinct lists of the same numbers are permutations of each other. */
  lemma {:induction false} DistinctPermute(a: seq<int>, b: seq<int>)
    requires Distinct(a) && Distinct(b) && forall x :: x in a <==> x in b
    ensures multiset(a) == multiset(b)
  {
    forall x ensures multiset(a)[x] == multiset(b)[x] {
      DistinctCount(a, x);
      DistinctCount(b, x);
    }
  }

  lemma {:induction false} DistinctCount(a: seq<int>, x: int)
    requires Distinct(a)
    ensures multiset(a)[x] == if x in a then 1 else 0
  {
    if a != [] {
      DistinctCount(a[1..], x);
      assert a == [a[0]] + a[1..];
    }
  }

  lemma SameDates(a: Days, b: Days)
    requires DistinctKeys(a) && DistinctKeys(b) && forall k :: Get(a, k).Some? <==> Get(b, k).Some?
    ensures Sort(Keys(a)) == Sort(Keys(b))
  {
    KeysOf(a);
    KeysOf(b);
    forall x ensures x in Keys(a) <==> x in Keys(b) {
      InKeys(a, x);
      InKeys(b, x);
    }
    DistinctPermute(Keys(a), Keys(b));
    SortSorts(Keys(a));
    SortSorts(Keys(b));
    AscendingUnique(Sort(Keys(a)), Sort(Keys(b)));
  }

  lemma InKeys(m: Days, x: int)
    ensures x in Keys(m) <==> Get(m, x).Some?
  {
    KeysOf(m);
    var i := KeyIndex(m, x);
    if i.Some? { assert Keys(m)[i.value] == x; }
  }

  lemma {:induction false} SameRows(a: Days, b: Days, dates: seq<int>, n: nat)
    requires n <= |dates| && forall k :: Get(a, k) == Get(b, k)
    ensures Rows(a, dates, n) == Rows(b, dates, n)
  {
    if n > 0 { SameRows(a, b, dates, n - 1); }
  }

  /** Without an exchange filter the daily series depends only on which snapshots there are, not on
      their order. */
  lemma DailyIgnoresOrder(dateOf: int -> int, a: seq<Snapshot>, b: seq<Snapshot>)
    requires multiset(a) == multiset(b)
    ensures Daily(dateOf, a, None) == Daily(dateOf, b, None)
  {
    hide DaysOf, Sort, Rows, IsDay, TotalAt;
    var da, db := DaysOf(dateOf, a, false, a), DaysOf(dateOf, b, false, b);
    DaysAreDays(dateOf, a, a);
    DaysAreDays(dateOf, b, b);
    forall ts ensures TotalAt(a, ts) == TotalAt(b, ts) { TotalIgnoresOrder(a, b, ts); }
    forall date ensures Get(da, date) == Get(db, date) {
      SameDay(dateOf, a, b, date, Get(da, date), Get(db, date));
    }
    SameDates(da, db);
    SameRows(da, db, Sort(Keys(da)), |Sort(Keys(da))|);
  }

  /** Row i is about its date's entry: it ends with the day's last equity and starts with the row before's end,
      the first row with the day's first equity; and the dates are exactly those with a snapshot. */
  lemma {:induction false} RowsAreDays(dateOf: int -> int, snaps: seq<Snapshot>, exchange: Option<string>, i: nat)
    returns (d: Day)
    requires i < |Daily(dateOf, snaps, exchange)|
    ensures var rows, all := Daily(dateOf, snaps, exchange), Filtered(snaps, exchange);
            && (if exchange.Some? then IsOwnDay(dateOf, all, rows[i].date, Some(d))
                else IsDay(dateOf, all, all, rows[i].date, Some(d)))
            && rows[i].endEquity == d.last.eq
            && rows[i].startEquity == (if i == 0 then d.first.eq else rows[i - 1].endEquity)
            && rows[i].pnl == rows[i].endEquity - rows[i].startEquity
  {
    hide DaysOf, Sort, IsDay, IsOwnDay, TotalAt, Rows, Daily;
    var all := Filtered(snaps, exchange);
    var days := DaysOf(dateOf, all, exchange.Some?, all);
    var dates := Sort(Keys(days));
    assert Daily(dateOf, snaps, exchange) == Rows(days, dates, |dates|) by { DailyIs(dateOf, snaps, exchange); }
    RowsAt(days, dates, |dates|);
    SortSorts(Keys(days));
    assert dates[i] in multiset(Keys(days));
    InKeys(days, dates[i]);
    DaysAreDays(dateOf, all, all);
    OwnDaysAreDays(dateOf, all, all);
    d := Get(days, dates[i]).value;
    assert IsRow(days, dates, i, Rows(days, dates, |dates|)[i]);
    if i > 0 { assert IsRow(days, dates, i - 1, Rows(days, dates, |dates|)[i - 1]); }
  }

  /** Row `i` in terms of its day's marks. */
  ghost predicate IsRow(days: Days, dates: seq<int>, i: nat, row: Row)
    requires i < |dates|
  {
    && row.date == dates[i] && row.endEquity == DayAt(days, dates[i]).last.eq
    && row.startEquity == (if i == 0 then DayAt(days, dates[0]).first.eq else DayAt(days, dates[i - 1]).last.eq)
    && row.pnl == row.endEquity - row.startEquity
  }

  lemma {:induction false} RowsAt(days: Days, dates: seq<int>, n: nat)
    requires n <= |dates|
    ensures |Rows(days, dates, n)| == n && forall i :: 0 <= i < n ==> IsRow(days, dates, i, Rows(days, dates, n)[i])
  {
    if n > 0 {
      RowsAt(days, dates, n - 1);
      var rows := Rows(days, dates, n);
      forall i | 0 <= i < n ensures IsRow(days, dates, i, rows[i]) {
        if i < n - 1 { assert rows[i] == Rows(days, dates, n - 1)[i]; }
      }
    }
  }

  // ── Weekly ──

  /** A day's week begins on the day that is a multiple of seven from the first Monday, at most six days before. */
  lemma MondayIs(date: int, offset: int)
    ensures MondayOf(date, offset) <= date < MondayOf(date, offset) + 7 && (MondayOf(date, offset) + offset) % 7 == 0
  {
  }

  lemma MondayMonotone(a: int, b: int, offset: int)
    requires a <= b
    ensures MondayOf(a, offset) <= MondayOf(b, offset)
  {
  }

  ghost predicate ByDate(rows: seq<Row>) {
    forall i, j :: 0 <= i < j < |rows| ==> rows[i].date < rows[j].date
  }

  /** The weeks of dated rows, in the order they open: ascending Mondays, each week ending where the
      next begins, the first starting and the last ending with the rows themselves. */
  ghost predicate WeeksCover(rows: seq<Row>, offset: int, weeks: Weeks) {
    && DistinctKeys(weeks) && (rows == [] <==> weeks == [])
    && (forall i, j :: 0 <= i < j < |weeks| ==> weeks[i].0 < weeks[j].0)
    && (forall i :: 0 < i < |weeks| ==> weeks[i].1.start.startEquity == weeks[i - 1].1.end.endEquity)
    && (rows != [] ==> weeks[0].1.start == rows[0] && weeks[|weeks| - 1].1.end == rows[|rows| - 1]
                       && weeks[|weeks| - 1].0 == MondayOf(rows[|rows| - 1].date, offset))
    && (forall i :: 0 <= i < |weeks| ==> weeks[i].1.start.date <= weeks[i].1.end.date)
  }

  lemma {:induction false} WeeksAreCover(rows: seq<Row>, offset: int)
    requires Chained(rows) && ByDate(rows)
    ensures WeeksCover(rows, offset, WeeksOf(rows, offset))
  {
    if rows != [] {
      var init, d := rows[..|rows| - 1], rows[|rows| - 1];
      WeeksAreCover(init, offset);
      var weeks, key := WeeksOf(init, offset), MondayOf(d.date, offset);
      if init == [] {
        assert KeyIndex(weeks, key).None?;
      } else {
        MondayMonotone(init[|init| - 1].date, d.date, offset);
        NextRow(init, d, offset, weeks);
      }
      assert rows == init + [d];
    }
  }

  lemma NextRow(init: seq<Row>, d: Row, offset: int, weeks: Weeks)
    requires init != [] && WeeksCover(init, offset, weeks) && d.startEquity == init[|init| - 1].endEquity
             && init[|init| - 1].date < d.date
    requires MondayOf(init[|init| - 1].date, offset) <= MondayOf(d.date, offset)
    ensures WeeksCover(init + [d], offset, AddRow(weeks, MondayOf(d.date, offset), d))
  {
    hide MondayOf;
    var n, key := |weeks| - 1, MondayOf(d.date, offset);
    if key == weeks[n].0 {
      GetAt(weeks, n);
      assert AddRow(weeks, key, d) == weeks[n := (key, Week(weeks[n].1.start, d))];
    } else {
      assert forall i :: 0 <= i < |weeks| ==> weeks[i].0 < key;
      PutNew(weeks, key, Week(d, d));
    }
  }

  /** The week that begins on `key` holds the day. */
  predicate InWeek(date: int, key: int, offset: int) {
    key <= date < key + 7 && (key + offset) % 7 == 0
  }

  lemma InWeekIff(date: int, key: int, offset: int)
    ensures MondayOf(date, offset) == key <==> InWeek(date, key, offset)
  {
    if InWeek(date, key, offset) { SameWeek(date, key, offset); }
  }

  lemma SameWeek(date: int, key: int, offset: int)
    requires key <= date < key + 7 && (key + offset) % 7 == 0
    ensures (date + offset) % 7 == date - key
  {
    var q := (key + offset) / 7;
    assert date + offset == 7 * q + (date - key);
  }

  /** The entry of a week: its earliest and its latest row. */
  ghost predicate IsWeek(rows: seq<Row>, offset: int, key: int, w: Option<Week>) {
    if w.None? then forall r :: r in rows ==> !InWeek(r.date, key, offset)
    else
      && w.value.start in rows && InWeek(w.value.start.date, key, offset)
      && w.value.end in rows && InWeek(w.value.end.date, key, offset)
      && forall r :: r in rows && InWeek(r.date, key, offset) ==> w.value.start.date <= r.date <= w.value.end.date
  }

  lemma {:induction false} WeeksAreWeeks(rows: seq<Row>, offset: int)
    ensures DistinctKeys(WeeksOf(rows, offset))
    ensures forall key :: IsWeek(rows, offset, key, Get(WeeksOf(rows, offset), key))
  {
    hide MondayOf, InWeek, Get;
    if rows == [] {
      NoWeeks(offset);
    } else {
      var init, d := rows[..|rows| - 1], rows[|rows| - 1];
      WeeksAreWeeks(init, offset);
      var before, after := WeeksOf(init, offset), WeeksOf(rows, offset);
      RowAdded(before, MondayOf(d.date, offset), d);
      forall key ensures IsWeek(rows, offset, key, Get(after, key)) {
        InWeekIff(d.date, key, offset);
        WeekGrows(init, d, offset, key, Get(before, key));
      }
      assert rows == init + [d];
    }
  }

  lemma NoWeeks(offset: int)
    ensures DistinctKeys(WeeksOf([], offset)) && forall key :: Get(WeeksOf([], offset), key).None?
  {
  }

  function Longer(w: Option<Week>, d: Row): Week {
    if w.None? then Week(d, d)
    else Week(if d.date < w.value.start.date then d else w.value.start,
              if d.date > w.value.end.date then d else w.value.end)
  }

  lemma RowAdded(weeks: Weeks, key: int, d: Row)
    requires DistinctKeys(weeks)
    ensures DistinctKeys(AddRow(weeks, key, d))
    ensures forall k ::
            Get(AddRow(weeks, key, d), k) == if k == key then Some(Longer(Get(weeks, key), d)) else Get(weeks, k)
  {
    PutGet(weeks, key, Longer(Get(weeks, key), d));
  }

  lemma WeekGrows(init: seq<Row>, d: Row, offset: int, key: int, w: Option<Week>)
    requires IsWeek(init, offset, key, w)
    ensures IsWeek(init + [d], offset, key, if InWeek(d.date, key, offset) then Some(Longer(w, d)) else w)
  {
    hide InWeek;
    var rows := init + [d];
    assert d in rows && forall x :: x in rows <==> x in init || x == d;
  }

  /** Each weekly row is about one week with days in it: it starts with that week's first day's start, ends with
      its last day's end, and its result is the difference. */
  lemma {:induction false} WeeklyRowsAreWeeks(rows: seq<Row>, offset: int, i: nat) returns (w: Week)
    requires i < |Weekly(rows, offset)|
    ensures var row := Weekly(rows, offset)[i];
            && IsWeek(rows, offset, row.date, Some(w)) && row.startEquity == w.start.startEquity
            && row.endEquity == w.end.endEquity && row.pnl == row.endEquity - row.startEquity
  {
    hide WeeksOf, Sort, IsWeek;
    var weeks := WeeksOf(rows, offset);
    var keys := Sort(Keys(weeks));
    WeeksAreWeeks(rows, offset);
    SortSorts(Keys(weeks));
    assert keys[i] in multiset(Keys(weeks));
    KeysOf(weeks);
    var at :| 0 <= at < |weeks| && Keys(weeks)[at] == keys[i];
    GetAt(weeks, at);
    w := Get(weeks, keys[i]).value;
  }

  lemma {:induction false} SortedIsItself(s: seq<int>)
    requires Ascending(s)
    ensures Sort(s) == s
  {
    if s != [] { SortedIsItself(s[1..]); }
  }

  /** Weekly results of a dated daily series add up to the same total return. */
  lemma {:induction false} WeeklyTelescopes(rows: seq<Row>, offset: int)
    requires Chained(rows) && ByDate(rows) && rows != []
    ensures Weekly(rows, offset) != []
            && Sum(Weekly(rows, offset)) == rows[|rows| - 1].endEquity - rows[0].startEquity == Sum(rows)
  {
    hide MondayOf, WeeksOf;
    WeeksAreCover(rows, offset);
    ChainTelescopes(rows);
    var weeks := WeeksOf(rows, offset);
    KeysOf(weeks);
    SortedIsItself(Keys(weeks));
    var weekly := Weekly(rows, offset);
    forall i | 0 <= i < |weeks|
      ensures weekly[i] == Row(weeks[i].0, weeks[i].1.start.startEquity, weeks[i].1.end.endEquity,
                               weeks[i].1.end.endEquity - weeks[i].1.start.startEquity) {
      GetAt(weeks, i);
    }
    ChainTelescopes(weekly);
  }

  /** The daily series is in date order, so its weekly form always adds up. */
  lemma {:induction false} DailyIsByDate(dateOf: int -> int, snaps: seq<Snapshot>, exchange: Option<string>,
      offset: int)
    ensures var rows := Daily(dateOf, snaps, exchange);
            ByDate(rows) && (rows != [] ==> Sum(Weekly(rows, offset)) == Sum(rows))
  {
    var all := Filtered(snaps, exchange);
    var days := DaysOf(dateOf, all, exchange.Some?, all);
    var dates := Sort(Keys(days));
    DaysDistinct(dateOf, all, exchange.Some?, all);
    SortedAscending(days);
    RowsChained(days, dates, |dates|);
    hide DaysOf, Sort, Rows, Weekly, Daily, Sum, Chained;
    var rows := Rows(days, dates, |dates|);
    assert Daily(dateOf, snaps, exchange) == rows by { DailyIs(dateOf, snaps, exchange); }
    if rows != [] { WeeklyTelescopes(rows, offset); }
  }

  lemma DailyIs(dateOf: int -> int, snaps: seq<Snapshot>, exchange: Option<string>)
    ensures var all := Filtered(snaps, exchange);
            var dates := Sort(Keys(DaysOf(dateOf, all, exchange.Some?, all)));
            Daily(dateOf, snaps, exchange) == Rows(DaysOf(dateOf, all, exchange.Some?, all), dates, |dates|)
  {
  }

  lemma {:induction false} DaysDistinct(dateOf: int -> int, all: seq<Snapshot>, one: bool, snaps: seq<Snapshot>)
    ensures DistinctKeys(DaysOf(dateOf, all, one, snaps))
  {
    if snaps != [] {
      var s, init := snaps[|snaps| - 1], snaps[..|snaps| - 1];
      DaysDistinct(dateOf, all, one, init);
      MarkAdded(DaysOf(dateOf, all, one, init), dateOf(s.ts), Mark(s.ts, EquityOf(all, one, s)));
    }
  }

  lemma SortedAscending(days: Days)
    requires DistinctKeys(days)
    ensures Ascending(Sort(Keys(days)))
  {
    KeysOf(days);
    var keys, s := Keys(days), Sort(Keys(days));
    SortSorts(keys);
    forall i, j | 0 <= i < j < |s| ensures s[i] < s[j] {
      DistinctCount(keys, s[i]);
      if s[i] == s[j] { CountTwice(s, i, j); }
    }
  }

  lemma CountTwice(s: seq<int>, i: nat, j: nat)
    requires i < j < |s| && s[i] == s[j]
    ensures multiset(s)[s[i]] >= 2
  {
    assert s == s[..j] + s[j..] && s[..j][i] == s[i] && s[j..][0] == s[i];
    assert s[i] in multiset(s[..j]) && s[i] in multiset(s[j..]);
    assert multiset(s) == multiset(s[..j]) + multiset(s[j..]);
  }
}
