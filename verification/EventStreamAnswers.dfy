/** The events, the history records and the stream's view, read against what the venue answered. */
module EventStreamAnswers {
  import opened Prelude
  import opened EventStream
  import opened EventStreamProperties

  // ── An answer, symbol by symbol ──

  /** The last position of a symbol in an answer. */
  function LastOf(ps: seq<Position>, sym: string): Option<Position> {
    if ps == [] then None
    else if ps[|ps| - 1].symbol == sym then Some(ps[|ps| - 1])
    else LastOf(ps[..|ps| - 1], sym)
  }

  /** Side, size, entry price and unrealized P&L are the position's. */
  predicate Shows(pos: Pos, p: Position) {
    pos.side == p.side && pos.size == p.size && pos.entryPrice == p.entryPrice && pos.unrealizedPnl == p.unrealizedPnl
  }

  predicate ShowsAnswer(ps: Positions, answer: seq<Position>, sym: string) {
    && (Get(ps, sym).Some? <==> LastOf(answer, sym).Some?)
    && (Get(ps, sym).Some? ==> Shows(Get(ps, sym).value, LastOf(answer, sym).value))
  }

  lemma {:induction false} CurrentShows(answer: seq<Position>, sym: string)
    ensures ShowsAnswer(Current(answer), answer, sym)
  {
    if answer != [] {
      var n := |answer| - 1;
      CurrentShows(answer[..n], sym);
      CurrentDistinct(answer[..n]);
      PutGet(Current(answer[..n]), answer[n].symbol, PosOf(answer[n]));
    }
  }

  lemma {:induction false} OrderIdsAre(orders: seq<Order>)
    ensures Ids(CurrentOrders(orders)) == set o | o in orders :: o.id
  {
    if orders != [] {
      var n := |orders| - 1;
      OrderIdsAre(orders[..n]);
      PutIds(CurrentOrders(orders[..n]), orders[n].id, orders[n]);
      var all, init := set o | o in orders :: o.id, set o | o in orders[..n] :: o.id;
      assert orders[n] in orders;
      forall o | o in orders[..n] ensures o in orders {}
      forall o | o in orders ensures o in orders[..n] || o == orders[n] {}
      assert all == init + {orders[n].id};
    }
  }

  lemma {:induction false} IdsAre(os: Orders)
    ensures forall id :: id in Ids(os) <==> exists i :: 0 <= i < |os| && os[i].0 == id
  {
    if os != [] { IdsAre(os[..|os| - 1]); }
  }

  lemma PutIds(os: Orders, id: string, o: Order)
    ensures Ids(Put(os, id, o)) == Ids(os) + {id}
  {
    var at := KeyIndex(os, id);
    IdsAre(os);
    IdsAre(Put(os, id, o));
    if at.Some? {
      assert os[at.value].0 == id;
      forall i | 0 <= i < |os| ensures Put(os, id, o)[i].0 == os[i].0 {}
      assert Ids(Put(os, id, o)) == Ids(os);
    } else {
      assert Put(os, id, o)[..|os|] == os;
    }
  }

  // ── The answer a stream goes by ──

  /** The poll read the account and no callback threw before its snapshots were kept. */
  ghost predicate WentThrough(s: Stream, k: Sink, t: Tick, warnPct: real) {
    t.input.Snapshot? && !Emit(k, t.ts, FirstEvents(s, t.input, warnPct)).threw
  }

  /** The last poll of a run that went through; Unreadable before the first. */
  ghost function Kept(attached: bool, numeric: string -> bool, warnPct: real, ticks: seq<Tick>): Input {
    if ticks == [] then Unreadable
    else
      var init, t := ticks[..|ticks| - 1], ticks[|ticks| - 1];
      var (s, k) := Run(START, Attach(attached, numeric), warnPct, init);
      if WentThrough(s, k, t, warnPct) then t.input else Kept(attached, numeric, warnPct, init)
  }

  function PositionsOf(input: Input): seq<Position> {
    if input.Snapshot? then input.positions else []
  }

  function OrdersOf(input: Input): seq<Order> {
    if input.Snapshot? then input.orders else []
  }

  lemma {:induction false} StreamKeeps(attached: bool, numeric: string -> bool, warnPct: real, ticks: seq<Tick>)
    ensures var s, kept := Run(START, Attach(attached, numeric), warnPct, ticks).0,
            Kept(attached, numeric, warnPct, ticks);
            s.positions == Current(PositionsOf(kept)) && s.orders == CurrentOrders(OrdersOf(kept))
  {
    hide Emit, FirstEvents, LastEvents, Current, CurrentOrders;
    if ticks == [] {
      NothingKept();
    } else {
      StreamKeeps(attached, numeric, warnPct, ticks[..|ticks| - 1]);
    }
  }

  lemma NothingKept()
    ensures Current([]) == [] && CurrentOrders([]) == []
  {
  }

  /** Over every run of polls, failed or readable and with the logger attached well formed, and in every run
      whatever for the orders: replaying all events gives, for each symbol, side and size of its last
      position in the last answer kept, no symbol that answer lacks, and exactly the ids of its orders. */
  lemma {:induction false} ReplayIsAnswer(attached: bool, numeric: string -> bool, warnPct: real, ticks: seq<Tick>,
      sym: string)
    ensures var k, kept := Run(START, Attach(attached, numeric), warnPct, ticks).1,
            Kept(attached, numeric, warnPct, ticks);
            && ReplayOrders({}, k.forwarded) == (set o | o in OrdersOf(kept) :: o.id)
            && ((attached ==> forall i :: 0 <= i < |ticks| ==> WellFormedTick(numeric, ticks[i])) ==>
                  var view, p := Replay(map[], k.forwarded), LastOf(PositionsOf(kept), sym);
                  (sym in view <==> p.Some?) && (p.Some? ==> view[sym] == (p.value.side, p.value.size)))
  {
    hide Current, CurrentOrders, Replay, ReplayOrders, WellFormedTick, Run, Ids, LogInv, ViewOf, Kept;
    var (s, k) := Run(START, Attach(attached, numeric), warnPct, ticks);
    var kept := Kept(attached, numeric, warnPct, ticks);
    StreamKeeps(attached, numeric, warnPct, ticks);
    OrdersOverRuns(attached, numeric, warnPct, ticks);
    OrderIdsAre(OrdersOf(kept));
    if attached ==> forall i :: 0 <= i < |ticks| ==> WellFormedTick(numeric, ticks[i]) {
      StreamAndLogAgree(attached, numeric, warnPct, ticks);
      ViewGet(s.positions, sym);
      CurrentShows(PositionsOf(kept), sym);
    }
  }

  // ── Single events and records ──

  /** What a position event says of the answer before and the answer now. */
  ghost predicate EventIs(e: Event, before: seq<Position>, now: seq<Position>) {
    && IsPositionEvent(e)
    && var was, here := LastOf(before, e.symbol), LastOf(now, e.symbol);
       match e
       case Opened(_, pos) => was.None? && here.Some? && Shows(pos, here.value)
       case Updated(_, pos, prevSize, prevSide) =>
         && was.Some? && here.Some? && Shows(pos, here.value) && prevSize == was.value.size
            && prevSide == was.value.side
         && (was.value.size != here.value.size || was.value.side != here.value.side)
       case Closed(_, pos) => was.Some? && here.None? && Shows(pos, was.value)
       case _ => true
  }

  lemma {:induction false} OpensAre(prev: Positions, cur: Positions)
    ensures forall i :: 0 <= i < |OpenEvents(prev, cur)| ==>
              var e := OpenEvents(prev, cur)[i];
              && (e.Opened? || e.Updated?) && (e.symbol, e.pos) in cur
              && var q := Get(prev, e.symbol);
                 if e.Opened? then q.None?
                 else q.Some? && e.prevSize == q.value.size && e.prevSide == q.value.side
                      && (q.value.size != e.pos.size || q.value.side != e.pos.side)
  {
    hide Get;
    if cur != [] {
      OpensAre(prev, cur[..|cur| - 1]);
      forall x | x in cur[..|cur| - 1] ensures x in cur {}
      assert cur[|cur| - 1] in cur;
    }
  }

  lemma {:induction false} ClosesAre(prev: Positions, cur: Positions)
    ensures forall i :: 0 <= i < |CloseEvents(prev, cur)| ==>
              var e := CloseEvents(prev, cur)[i]; e.Closed? && (e.symbol, e.pos) in prev && Get(cur, e.symbol).None?
  {
    hide Get;
    if prev != [] {
      ClosesAre(prev[..|prev| - 1], cur);
      forall x | x in prev[..|prev| - 1] ensures x in prev {}
      assert prev[|prev| - 1] in prev;
    }
  }

  lemma GetMember(ps: Positions, sym: string, pos: Pos)
    requires DistinctKeys(ps) && (sym, pos) in ps
    ensures Get(ps, sym) == Some(pos)
  {
    var i :| 0 <= i < |ps| && ps[i] == (sym, pos);
    GetAt(ps, i);
  }

  /** Every position event of a poll is true of the answer kept before and the answer now, field by field. */
  lemma {:induction false} EventsAreTrue(s: Stream, input: Input, warnPct: real, before: seq<Position>, i: nat)
    requires input.Snapshot? && s.positions == Current(before) && i < |FirstEvents(s, input, warnPct)|
    requires IsPositionEvent(FirstEvents(s, input, warnPct)[i])
    ensures EventIs(FirstEvents(s, input, warnPct)[i], before, input.positions)
  {
    hide Get, Current, OpenEvents, CloseEvents, AlertEvents, LastOf;
    var cur := Current(input.positions);
    var opens, closes := OpenEvents(s.positions, cur), CloseEvents(s.positions, cur);
    var e := FirstEvents(s, input, warnPct)[i];
    AlertsAreNeutral(input.positions, warnPct);
    assert i < |opens| + |closes|;
    CurrentDistinct(input.positions);
    CurrentDistinct(before);
    CurrentShows(before, e.symbol);
    CurrentShows(input.positions, e.symbol);
    if i < |opens| {
      OpensAre(s.positions, cur);
      assert e == opens[i];
      GetMember(cur, e.symbol, e.pos);
    } else {
      ClosesAre(s.positions, cur);
      assert e == closes[i - |opens|];
      GetMember(s.positions, e.symbol, e.pos);
    }
  }

  /** A record of the history shows the position it is about: an open or updated record the last one of its
      symbol in the answer, a closed record that of the answer kept before; it is stamped with the poll's time. */
  ghost predicate RecordIs(r: Record, ts: string, before: seq<Position>, now: seq<Position>) {
    var p := LastOf(if r.status.CloseRecord? then before else now, r.symbol);
    && r.updatedAt == ts && p.Some?
    && r.side == p.value.side && r.size == p.value.size && r.entryPrice == p.value.entryPrice
    && r.pnl == p.value.unrealizedPnl
    && (r.status.CloseRecord? ==> LastOf(now, r.symbol).None?)
    && (r.status.OpenRecord? ==> LastOf(before, r.symbol).None? && r.openedAt == ts)
  }

  /** What emitting adds to the log: records of accepted position events, in this poll's time. */
  lemma {:induction false} EmitLogs(k: Sink, ts: string, es: seq<Event>)
    ensures var log := Emit(k, ts, es).sink.log;
            && |k.log| <= |log| && log[..|k.log|] == k.log
            && forall i :: |k.log| <= i < |log| ==> exists j :: 0 <= j < |es| && RecordFrom(log[i], ts, es[j])
  {
    hide Logged, Throws, RecordFrom;
    if es != [] {
      var init, e := es[..|es| - 1], es[|es| - 1];
      EmitLogs(k, ts, init);
      var mid, end := Emit(k, ts, init), Emit(k, ts, es);
      OneLogs(mid.sink, ts, e);
      assert end.sink.log[..|k.log|] == k.log;
      forall i | |k.log| <= i < |end.sink.log|
        ensures exists j :: 0 <= j < |es| && RecordFrom(end.sink.log[i], ts, es[j]) {
        if i < |mid.sink.log| {
          assert end.sink.log[i] == mid.sink.log[i];
          var j :| 0 <= j < |init| && RecordFrom(mid.sink.log[i], ts, init[j]);
          assert es[j] == init[j];
        }
      }
    }
  }

  ghost predicate RecordFrom(r: Record, ts: string, e: Event) {
    && IsPositionEvent(e) && r.symbol == e.symbol && r.updatedAt == ts
    && r.side == e.pos.side && r.size == e.pos.size && r.entryPrice == e.pos.entryPrice && r.pnl == e.pos.unrealizedPnl
    && (r.status.OpenRecord? <==> e.Opened?) && (r.status.CloseRecord? <==> e.Closed?)
    && (e.Opened? ==> r.openedAt == ts)
  }

  lemma OneLogs(k: Sink, ts: string, e: Event)
    ensures var log := OnEvent(k, ts, e).log;
            || log == k.log
            || (|log| == |k.log| + 1 && log[..|k.log|] == k.log && RecordFrom(log[|k.log|], ts, e))
  {
  }

  /** In every run whatever, thrown polls included, each history record a poll adds shows what the venue
      answered: the answer of that poll, or for a closed position the last answer kept. */
  lemma {:induction false} RecordsAreAnswers(attached: bool, numeric: string -> bool, warnPct: real, ticks: seq<Tick>,
      t: Tick, i: nat)
    requires var (s, k) := Run(START, Attach(attached, numeric), warnPct, ticks);
             |k.log| <= i < |PollStep(s, k, t.ts, t.input, warnPct).1.log|
    ensures var (s, k) := Run(START, Attach(attached, numeric), warnPct, ticks);
            && t.input.Snapshot?
            && RecordIs(PollStep(s, k, t.ts, t.input, warnPct).1.log[i], t.ts,
                        PositionsOf(Kept(attached, numeric, warnPct, ticks)), t.input.positions)
  {
    hide Run, Emit, FirstEvents, LastEvents, EventIs, Current, LastOf, RecordFrom, Kept;
    var (s, k) := Run(START, Attach(attached, numeric), warnPct, ticks);
    StreamKeeps(attached, numeric, warnPct, ticks);
    var before := PositionsOf(Kept(attached, numeric, warnPct, ticks));
    ErrorLogsNothing(k, t.ts, s.cycle + 1);
    var k' := PollStep(s, k, t.ts, t.input, warnPct).1;
    var es := FirstEvents(s, t.input, warnPct);
    var mid := Emit(k, t.ts, es).sink;
    EmitLogs(k, t.ts, es);
    ErrorLogsNothing(mid, t.ts, s.cycle + 1);
    LastLogsNothing(mid, t.ts, s, t.input);
    assert k'.log == mid.log;
    var j :| 0 <= j < |es| && RecordFrom(mid.log[i], t.ts, es[j]);
    FromTrueEvent(mid.log[i], t.ts, es[j]);
    EventsAreTrue(s, t.input, warnPct, before, j);
    TrueRecord(mid.log[i], t.ts, es[j], before, t.input.positions);
  }

  lemma FromTrueEvent(r: Record, ts: string, e: Event)
    requires RecordFrom(r, ts, e)
    ensures IsPositionEvent(e)
  {
  }

  lemma TrueRecord(r: Record, ts: string, e: Event, before: seq<Position>, now: seq<Position>)
    requires RecordFrom(r, ts, e) && EventIs(e, before, now)
    ensures RecordIs(r, ts, before, now)
  {
    hide LastOf;
  }

  lemma {:induction false} NeutralLogsNothing(k: Sink, ts: string, es: seq<Event>)
    requires forall i :: 0 <= i < |es| ==> !IsPositionEvent(es[i])
    ensures Emit(k, ts, es).sink.log == k.log
  {
    NeutralKeepsOpen(k, ts, es);
  }

  lemma ErrorLogsNothing(k: Sink, ts: string, cycle: nat)
    ensures Emit(k, ts, [ErrorEvent(cycle)]).sink.log == k.log
  {
    NeutralLogsNothing(k, ts, [ErrorEvent(cycle)]);
  }

  lemma LastLogsNothing(k: Sink, ts: string, s: Stream, input: Input)
    requires input.Snapshot?
    ensures Emit(k, ts, LastEvents(s, input)).sink.log == k.log
  {
    hide LastEvents;
    LastEventsAreNeutral(s, input);
    NeutralLogsNothing(k, ts, LastEvents(s, input));
  }

  // ── Alerts, balance and heartbeat ──

  /** Position `p` is within `pct` percent of its liquidation price, measured at its mark. */
  predicate Within(p: Position, pct: real) {
    && p.liquidation.At? && p.mark.Some? && p.mark.value > 0.0 && p.liquidation.price > 0.0
    && Abs(p.mark.value - p.liquidation.price) * 100.0 < pct * p.mark.value
  }

  /** One alert for each position within 3% (critical) or the warning percentage of its liquidation price. */
  lemma AlertIff(p: Position, warnPct: real)
    ensures AlertEvent(p, warnPct)
            == if Within(p, 3.0) then [Alert(p.symbol, true)]
               else if Within(p, warnPct) then [Alert(p.symbol, false)]
               else []
  {
    if p.liquidation.At? && p.mark.Some? && p.mark.value > 0.0 {
      var gap, mark := Abs(p.mark.value - p.liquidation.price), p.mark.value;
      Nearer(gap, mark, 3.0);
      Nearer(gap, mark, warnPct);
    }
  }

  lemma Nearer(gap: real, mark: real, pct: real)
    requires mark > 0.0
    ensures gap / mark * 100.0 < pct <==> gap * 100.0 < pct * mark
  {
    var q := gap / mark;
    assert q * mark == gap;
    assert (q * 100.0) * mark == gap * 100.0;
    if q * 100.0 < pct {
      assert (pct - q * 100.0) * mark > 0.0;
      assert (pct - q * 100.0) * mark == pct * mark - (q * 100.0) * mark;
    } else {
      MulMono(pct, q * 100.0, mark);
    }
  }

  /** A balance update when equity or available moved by more than a cent, both finite before and now. */
  lemma BalanceIff(prev: Option<Balance>, b: Balance)
    ensures var known := prev.Some? && prev.value.equity.Some? && prev.value.available.Some? && b.equity.Some?
                         && b.available.Some?;
            BalanceEvents(prev, b)
            == if known && (100.0 * Abs(b.equity.value - prev.value.equity.value) > 1.0
                            || 100.0 * Abs(b.available.value - prev.value.available.value) > 1.0)
               then [BalanceUpdate] else []
  {
  }

  lemma {:induction false} CycleCounts(attached: bool, numeric: string -> bool, warnPct: real, ticks: seq<Tick>)
    ensures Run(START, Attach(attached, numeric), warnPct, ticks).0.cycle == |ticks|
  {
    hide Emit, FirstEvents, LastEvents;
    if ticks != [] { CycleCounts(attached, numeric, warnPct, ticks[..|ticks| - 1]); }
  }

  /** Of a run's polls that go through, every twelfth ends with a heartbeat and no other has one. */
  lemma {:induction false} HeartbeatIff(attached: bool, numeric: string -> bool, warnPct: real, ticks: seq<Tick>,
      input: Input, c: nat)
    requires input.Snapshot?
    ensures var s := Run(START, Attach(attached, numeric), warnPct, ticks).0;
            Heartbeat(c) in LastEvents(s, input) <==> c == |ticks| + 1 && exists m: nat :: 12 * m == c
  {
    hide Run, PlacedEvents, RemovedEvents;
    CycleCounts(attached, numeric, warnPct, ticks);
    var s := Run(START, Attach(attached, numeric), warnPct, ticks).0;
    var cur, now := CurrentOrders(input.orders), Current(input.positions);
    NoBeats(s.orders, cur, now);
    if c % 12 == 0 { assert 12 * (c / 12) == c; }
    var beat := if (s.cycle + 1) % 12 == 0 then [Heartbeat(s.cycle + 1)] else [];
    assert LastEvents(s, input) == (PlacedEvents(s.orders, cur) + RemovedEvents(s.orders, cur, now, now)
                                    + BalanceEvents(s.balance, input.balance)) + beat;
  }

  lemma {:induction false} NoBeats(prev: Orders, cur: Orders, now: Positions)
    ensures forall e :: e in PlacedEvents(prev, cur) + RemovedEvents(prev, cur, now, now) ==> !e.Heartbeat?
  {
    NoPlacedBeats(prev, cur);
    NoRemovedBeats(prev, cur, now);
  }

  lemma {:induction false} NoPlacedBeats(prev: Orders, cur: Orders)
    ensures forall e :: e in PlacedEvents(prev, cur) ==> !e.Heartbeat?
  {
    if cur != [] { NoPlacedBeats(prev, cur[..|cur| - 1]); }
  }

  lemma {:induction false} NoRemovedBeats(prev: Orders, cur: Orders, now: Positions)
    ensures forall e :: e in RemovedEvents(prev, cur, now, now) ==> !e.Heartbeat?
  {
    if prev != [] { NoRemovedBeats(prev[..|prev| - 1], cur, now); }
  }

  // ── Ids ──

  /** Every id was drawn before, and no two open records have the same. */
  ghost predicate IdsDrawnOnce(k: Sink) {
    && (forall i :: 0 <= i < |k.log| ==> k.log[i].id < k.nextId)
    && (forall sym :: sym in k.open ==> k.open[sym].id < k.nextId)
    && (forall i, j :: 0 <= i < j < |k.log| && k.log[i].status.OpenRecord? && k.log[j].status.OpenRecord? ==>
          k.log[i].id != k.log[j].id)
  }

  lemma OneKeepsIds(k: Sink, ts: string, e: Event)
    requires IdsDrawnOnce(k)
    ensures IdsDrawnOnce(OnEvent(k, ts, e))
  {
    hide Rejects;
    var k' := OnEvent(k, ts, e);
    assert forall i :: 0 <= i < |k.log| ==> k'.log[i] == k.log[i];
  }

  lemma {:induction false} EmitKeepsIds(k: Sink, ts: string, es: seq<Event>)
    requires IdsDrawnOnce(k)
    ensures IdsDrawnOnce(Emit(k, ts, es).sink)
  {
    hide OnEvent, Throws, IdsDrawnOnce;
    if es != [] {
      EmitKeepsIds(k, ts, es[..|es| - 1]);
      OneKeepsIds(Emit(k, ts, es[..|es| - 1]).sink, ts, es[|es| - 1]);
    }
  }

  /** In every run whatever, rejected events and second openings included, no two open records share an id. */
  lemma {:induction false} OpenIdsDiffer(attached: bool, numeric: string -> bool, warnPct: real, ticks: seq<Tick>)
    ensures IdsDrawnOnce(Run(START, Attach(attached, numeric), warnPct, ticks).1)
  {
    if ticks != [] {
      hide Emit, FirstEvents, LastEvents, IdsDrawnOnce;
      var t := ticks[|ticks| - 1];
      OpenIdsDiffer(attached, numeric, warnPct, ticks[..|ticks| - 1]);
      var (s, k) := Run(START, Attach(attached, numeric), warnPct, ticks[..|ticks| - 1]);
      EmitKeepsIds(k, t.ts, [ErrorEvent(s.cycle + 1)]);
      if t.input.Snapshot? {
        EmitKeepsIds(k, t.ts, FirstEvents(s, t.input, warnPct));
        var k' := Emit(k, t.ts, FirstEvents(s, t.input, warnPct)).sink;
        EmitKeepsIds(k', t.ts, [ErrorEvent(s.cycle + 1)]);
        EmitKeepsIds(k', t.ts, LastEvents(s, t.input));
      }
    }
  }
}
