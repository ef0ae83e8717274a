/** The events of a whole run rebuild its snapshots, and the position log they leave is well
    bracketed, as long as no event makes the logger throw. */
module EventStreamProperties {
  import opened Prelude
  import opened EventStream

  // ── Replaying position events ──

  /** Side and size by symbol. */
  type View = map<string, (string, string)>

  function ViewOf(ps: Positions): View {
    if ps == [] then map[] else ViewOf(ps[..|ps| - 1])[ps[|ps| - 1].0 := (ps[|ps| - 1].1.side, ps[|ps| - 1].1.size)]
  }

  function ApplyEvent(v: View, e: Event): View {
    match e
    case Opened(sym, pos) => v[sym := (pos.side, pos.size)]
    case Updated(sym, pos, _, _) => v[sym := (pos.side, pos.size)]
    case Closed(sym, _) => v - {sym}
    case _ => v
  }

  function Replay(v: View, es: seq<Event>): View {
    if es == [] then v else ApplyEvent(Replay(v, es[..|es| - 1]), es[|es| - 1])
  }

  /** An event says what is true of the positions it finds: opened when absent, updated or closed when present. */
  predicate FitsOne(v: View, e: Event) {
    && (e.Opened? ==> e.symbol !in v)
    && (e.Updated? ==>
        e.symbol in v && v[e.symbol] == (e.prevSide, e.prevSize) && v[e.symbol] != (e.pos.side, e.pos.size))
    && (e.Closed? ==> e.symbol in v && v[e.symbol] == (e.pos.side, e.pos.size))
  }

  predicate Fits(v: View, es: seq<Event>) {
    es == [] || (Fits(v, es[..|es| - 1]) && FitsOne(Replay(v, es[..|es| - 1]), es[|es| - 1]))
  }

  lemma {:induction false} ReplayConcat(v: View, a: seq<Event>, b: seq<Event>)
    ensures Replay(v, a + b) == Replay(Replay(v, a), b)
    ensures Fits(v, a + b) <==> Fits(v, a) && Fits(Replay(v, a), b)
  {
    if b == [] {
      assert a + b == a;
    } else {
      assert (a + b)[..|a + b| - 1] == a + b[..|b| - 1];
      ReplayConcat(v, a, b[..|b| - 1]);
    }
  }

  lemma {:induction false} ViewGet(ps: Positions, sym: string)
    ensures sym in ViewOf(ps) <==> Get(ps, sym).Some?
    ensures sym in ViewOf(ps) ==> ViewOf(ps)[sym] == (Get(ps, sym).value.side, Get(ps, sym).value.size)
  {
    if ps != [] { ViewGet(ps[..|ps| - 1], sym); }
  }

  lemma {:induction false} CurrentDistinct(ps: seq<Position>)
    ensures DistinctKeys(Current(ps))
  {
    if ps != [] {
      CurrentDistinct(ps[..|ps| - 1]);
      PutGet(Current(ps[..|ps| - 1]), ps[|ps| - 1].symbol, PosOf(ps[|ps| - 1]));
    }
  }

  /** After the open / update events the view holds the current positions over the previous ones. */
  lemma {:induction false} OpensReplay(prev: Positions, cur: Positions)
    requires DistinctKeys(cur)
    ensures Replay(ViewOf(prev), OpenEvents(prev, cur)) == ViewOf(prev) + ViewOf(cur)
            && Fits(ViewOf(prev), OpenEvents(prev, cur))
  {
    if cur != [] {
      var init, last := cur[..|cur| - 1], cur[|cur| - 1];
      OpensReplay(prev, init);
      ReplayConcat(ViewOf(prev), OpenEvents(prev, init), EntryEvent(prev, last.0, last.1));
      EntryReplay(prev, init, last.0, last.1);
    } else {
      assert ViewOf(prev) + map[] == ViewOf(prev);
    }
  }

  lemma {:induction false} EntryReplay(prev: Positions, init: Positions, sym: string, pos: Pos)
    requires forall i :: 0 <= i < |init| ==> init[i].0 != sym
    ensures var v := ViewOf(prev) + ViewOf(init);
            Replay(v, EntryEvent(prev, sym, pos)) == ViewOf(prev) + ViewOf(init)[sym := (pos.side, pos.size)]
              && Fits(v, EntryEvent(prev, sym, pos))
  {
    hide ViewOf;
    var v := ViewOf(prev) + ViewOf(init);
    ViewGet(prev, sym);
    ViewGet(init, sym);
    assert sym !in ViewOf(init);
    var es := EntryEvent(prev, sym, pos);
    if es != [] { ReplayOne(v, es[0]); }
  }

  lemma ReplayOne(v: View, e: Event)
    ensures Replay(v, [e]) == ApplyEvent(v, e) && (Fits(v, [e]) <==> FitsOne(v, e))
  {
    assert [e][..0] == [];
  }

  /** The view with the keys gone that `prev` has and `cur` has not. */
  function Without(v: View, prev: Positions, cur: Positions): View {
    v - (ViewOf(prev).Keys - ViewOf(cur).Keys)
  }

  /** The close events then take away what is no longer there. */
  lemma {:induction false} ClosesReplay(prev: Positions, cur: Positions, all: Positions)
    requires DistinctKeys(all) && |prev| <= |all| && prev == all[..|prev|]
    ensures Replay(ViewOf(all) + ViewOf(cur), CloseEvents(prev, cur)) == Without(ViewOf(all) + ViewOf(cur), prev, cur)
    ensures Fits(ViewOf(all) + ViewOf(cur), CloseEvents(prev, cur))
  {
    hide Replay, Fits, GoneEvent, Without, ViewOf;
    var v := ViewOf(all) + ViewOf(cur);
    if prev != [] {
      var init, last := prev[..|prev| - 1], prev[|prev| - 1];
      assert init == all[..|init|] && last == all[|init|];
      ClosesReplay(init, cur, all);
      ReplayConcat(v, CloseEvents(init, cur), GoneEvent(cur, last.0, last.1));
      GoneReplay(init, last, cur, all);
      assert init + [last] == prev;
    } else {
      NoneGone(v, cur);
    }
  }

  lemma NoneGone(v: View, cur: Positions)
    ensures Without(v, [], cur) == v && Replay(v, []) == v && Fits(v, [])
  {
  }

  lemma {:induction false} GoneReplay(init: Positions, last: (string, Pos), cur: Positions, all: Positions)
    requires DistinctKeys(all) && |init| < |all| && init == all[..|init|] && last == all[|init|]
    ensures var v, es := ViewOf(all) + ViewOf(cur), GoneEvent(cur, last.0, last.1);
            Replay(Without(v, init, cur), es) == Without(v, init + [last], cur) && Fits(Without(v, init, cur), es)
  {
    var v := ViewOf(all) + ViewOf(cur);
    assert (init + [last])[..|init|] == init;
    assert ViewOf(init + [last]).Keys == ViewOf(init).Keys + {last.0};
    hide ViewOf, Replay, Fits, KeyIndex;
    ViewGet(cur, last.0);
    ViewGet(init, last.0);
    ViewGet(all, last.0);
    GetAt(all, |init|);
    var w := Without(v, init, cur);
    if Get(cur, last.0).None? {
      ReplayOne(w, Closed(last.0, last.1));
    } else {
      NoneGone(w, cur);
    }
  }

  /** One poll's position events fit the previous snapshot and turn it into the current one. */
  lemma {:induction false} PositionEventsRebuild(prev: Positions, cur: Positions)
    requires DistinctKeys(prev) && DistinctKeys(cur)
    ensures Replay(ViewOf(prev), PositionEvents(prev, cur)) == ViewOf(cur)
            && Fits(ViewOf(prev), PositionEvents(prev, cur))
  {
    hide ViewOf, Replay, Fits, OpenEvents, CloseEvents;
    OpensReplay(prev, cur);
    assert prev == prev[..|prev|];
    ClosesReplay(prev, cur, prev);
    ReplayConcat(ViewOf(prev), OpenEvents(prev, cur), CloseEvents(prev, cur));
    assert Without(ViewOf(prev) + ViewOf(cur), prev, cur) == ViewOf(cur);
  }

  /** Events about anything but positions leave the view alone. */
  lemma {:induction false} NeutralReplay(v: View, es: seq<Event>)
    requires forall i :: 0 <= i < |es| ==> !IsPositionEvent(es[i])
    ensures Replay(v, es) == v && Fits(v, es)
  {
    if es != [] { NeutralReplay(v, es[..|es| - 1]); }
  }

  lemma {:induction false} AlertsAreNeutral(ps: seq<Position>, warnPct: real)
    ensures forall i :: 0 <= i < |AlertEvents(ps, warnPct)| ==> !IsPositionEvent(AlertEvents(ps, warnPct)[i])
  {
    hide DistancePct;
    if ps != [] { AlertsAreNeutral(ps[..|ps| - 1], warnPct); }
  }

  lemma {:induction false} PlacedAreNeutral(prev: Orders, cur: Orders)
    ensures forall i :: 0 <= i < |PlacedEvents(prev, cur)| ==> PlacedEvents(prev, cur)[i].OrderPlaced?
  {
    if cur != [] { PlacedAreNeutral(prev, cur[..|cur| - 1]); }
  }

  lemma {:induction false} RemovedAreNeutral(prev: Orders, cur: Orders, now: Positions, before: Positions)
    ensures forall i :: 0 <= i < |RemovedEvents(prev, cur, now, before)| ==>
              RemovedEvents(prev, cur, now, before)[i].OrderFilled?
                || RemovedEvents(prev, cur, now, before)[i].OrderCancelled?
    ensures now == before ==> forall i :: 0 <= i < |RemovedEvents(prev, cur, now, before)| ==>
            RemovedEvents(prev, cur, now, before)[i].OrderCancelled?
  {
    if prev != [] { RemovedAreNeutral(prev[..|prev| - 1], cur, now, before); }
  }

  lemma FirstEventsRebuild(s: Stream, input: Input, warnPct: real)
    requires input.Snapshot? && DistinctKeys(s.positions)
    ensures Replay(ViewOf(s.positions), FirstEvents(s, input, warnPct)) == ViewOf(Current(input.positions))
    ensures Fits(ViewOf(s.positions), FirstEvents(s, input, warnPct))
  {
    hide ViewOf, Replay, Fits, PositionEvents, Current;
    CurrentDistinct(input.positions);
    var cur := Current(input.positions);
    PositionEventsRebuild(s.positions, cur);
    AlertsAreNeutral(input.positions, warnPct);
    NeutralReplay(ViewOf(cur), AlertEvents(input.positions, warnPct));
    ReplayConcat(ViewOf(s.positions), PositionEvents(s.positions, cur), AlertEvents(input.positions, warnPct));
  }

  lemma LastEventsAreNeutral(s: Stream, input: Input)
    requires input.Snapshot?
    ensures forall i :: 0 <= i < |LastEvents(s, input)| ==>
            !IsPositionEvent(LastEvents(s, input)[i]) && !LastEvents(s, input)[i].OrderFilled?
  {
    hide PlacedEvents, RemovedEvents, CurrentOrders, Current;
    var cur, now := CurrentOrders(input.orders), Current(input.positions);
    PlacedAreNeutral(s.orders, cur);
    RemovedAreNeutral(s.orders, cur, now, now);
  }

  // ── What emitting does ──

  /** The first event the logger rejects; the length when there is none. */
  function FirstReject(numeric: string -> bool, es: seq<Event>): (n: nat)
    ensures n <= |es| && (forall i :: 0 <= i < n ==> !Rejects(numeric, es[i])) && (n < |es| ==> Rejects(numeric, es[n]))
  {
    if es == [] then 0
    else
      var n := FirstReject(numeric, es[..|es| - 1]);
      if n < |es| - 1 || Rejects(numeric, es[|es| - 1]) then n else |es|
  }

  lemma {:induction false} EmitForwards(k: Sink, ts: string, es: seq<Event>)
    requires !k.attached || FirstReject(k.numeric, es) == |es|
    ensures !Emit(k, ts, es).threw && Emit(k, ts, es).sink.forwarded == k.forwarded + es
    ensures Emit(k, ts, es).sink.attached == k.attached && Emit(k, ts, es).sink.numeric == k.numeric
  {
    if es == [] {
      assert k.forwarded + es == k.forwarded;
    } else {
      EmitForwards(k, ts, es[..|es| - 1]);
      assert k.forwarded + es == (k.forwarded + es[..|es| - 1]) + [es[|es| - 1]];
    }
  }

  /** A poll throws exactly when the logger is attached and rejects one of its position events;
      everything before that event has been forwarded. */
  lemma {:induction false} EmitThrowsIff(k: Sink, ts: string, es: seq<Event>)
    ensures Emit(k, ts, es).threw <==> k.attached && FirstReject(k.numeric, es) < |es|
    ensures Emit(k, ts, es).threw ==> Emit(k, ts, es).sink.forwarded == k.forwarded + es[..FirstReject(k.numeric, es)]
    ensures Emit(k, ts, es).sink.attached == k.attached && Emit(k, ts, es).sink.numeric == k.numeric
  {
    if es != [] {
      var init, n := es[..|es| - 1], FirstReject(k.numeric, es);
      EmitThrowsIff(k, ts, init);
      if !k.attached || FirstReject(k.numeric, init) == |init| { EmitForwards(k, ts, init); }
      if n < |es| { assert es[..n] == init[..n]; }
    }
  }

  // ── Whole runs ──

  datatype Tick = Tick(ts: string, input: Input)

  function Run(s: Stream, k: Sink, warnPct: real, ticks: seq<Tick>): (Stream, Sink) {
    if ticks == [] then (s, k)
    else
      var (s', k') := Run(s, k, warnPct, ticks[..|ticks| - 1]);
      PollStep(s', k', ticks[|ticks| - 1].ts, ticks[|ticks| - 1].input, warnPct)
  }

  const START := Stream([], [], None, 0)

  function Attach(attached: bool, numeric: string -> bool): Sink {
    Sink(attached, numeric, map[], [], 0, [])
  }

  predicate WellFormedPos(numeric: string -> bool, sym: string, pos: Pos) {
    sym != "" && (pos.side == "long" || pos.side == "short") && numeric(pos.unrealizedPnl)
  }

  predicate WellFormed(numeric: string -> bool, ps: Positions) {
    forall i :: 0 <= i < |ps| ==> WellFormedPos(numeric, ps[i].0, ps[i].1)
  }

  predicate WellFormedTick(numeric: string -> bool, t: Tick) {
    t.input.Snapshot? ==> forall i :: 0 <= i < |t.input.positions| ==>
      WellFormedPos(numeric, t.input.positions[i].symbol, PosOf(t.input.positions[i]))
  }

  lemma {:induction false} CurrentWellFormed(numeric: string -> bool, ps: seq<Position>)
    requires forall i :: 0 <= i < |ps| ==> WellFormedPos(numeric, ps[i].symbol, PosOf(ps[i]))
    ensures WellFormed(numeric, Current(ps))
  {
    hide WellFormedPos, Put, PosOf;
    if ps != [] {
      CurrentWellFormed(numeric, ps[..|ps| - 1]);
      PutWellFormed(numeric, Current(ps[..|ps| - 1]), ps[|ps| - 1].symbol, PosOf(ps[|ps| - 1]));
    }
  }

  lemma PutWellFormed(numeric: string -> bool, ps: Positions, sym: string, pos: Pos)
    requires WellFormed(numeric, ps) && WellFormedPos(numeric, sym, pos)
    ensures WellFormed(numeric, Put(ps, sym, pos))
  {
    hide WellFormedPos;
    var at := KeyIndex(ps, sym);
    hide KeyIndex;
    assert Put(ps, sym, pos) == if at.Some? then ps[at.value := (sym, pos)] else ps + [(sym, pos)];
  }

  lemma {:induction false} OpensAccepted(numeric: string -> bool, prev: Positions, cur: Positions)
    requires WellFormed(numeric, cur)
    ensures forall i :: 0 <= i < |OpenEvents(prev, cur)| ==> !Rejects(numeric, OpenEvents(prev, cur)[i])
  {
    if cur != [] { OpensAccepted(numeric, prev, cur[..|cur| - 1]); }
  }

  lemma {:induction false} ClosesAccepted(numeric: string -> bool, prev: Positions, cur: Positions)
    requires WellFormed(numeric, prev)
    ensures forall i :: 0 <= i < |CloseEvents(prev, cur)| ==> !Rejects(numeric, CloseEvents(prev, cur)[i])
  {
    if prev != [] { ClosesAccepted(numeric, prev[..|prev| - 1], cur); }
  }

  lemma FirstEventsAccepted(numeric: string -> bool, s: Stream, input: Input, warnPct: real)
    requires input.Snapshot? && WellFormed(numeric, s.positions) && WellFormed(numeric, Current(input.positions))
    ensures FirstReject(numeric, FirstEvents(s, input, warnPct)) == |FirstEvents(s, input, warnPct)|
  {
    hide WellFormed, Current;
    var cur := Current(input.positions);
    OpensAccepted(numeric, s.positions, cur);
    ClosesAccepted(numeric, s.positions, cur);
    AlertsAreNeutral(input.positions, warnPct);
  }

  // ── The log ──

  /** The unfinished cycle of a symbol: the id and opening time of its last open record, until a close. */
  function Cycle(log: seq<Record>, sym: string): Option<(nat, string)> {
    if log == [] then None
    else
      var r := log[|log| - 1];
      if r.symbol != sym then Cycle(log[..|log| - 1], sym)
      else match r.status
        case OpenRecord => Some((r.id, r.openedAt))
        case UpdateRecord => Cycle(log[..|log| - 1], sym)
        case CloseRecord => None
  }

  /** (open updated* closed)* with at most one unfinished cycle: an open record starts one, with an
      id no earlier record has; updates and the close carry that cycle's id and opening time. */
  ghost predicate Bracketed(log: seq<Record>, sym: string) {
    log == [] ||
    var init, r := log[..|log| - 1], log[|log| - 1];
    Bracketed(init, sym) && (r.symbol == sym ==> Continues(init, r, sym))
  }

  function TrackedCycle(k: Sink, sym: string): Option<(nat, string)> {
    if sym in k.open then Some((k.open[sym].id, k.open[sym].openedAt)) else None
  }

  /** The logger's map holds exactly the unfinished cycles of a well-bracketed log. */
  ghost predicate LogInv(k: Sink) {
    && (forall i :: 0 <= i < |k.log| ==> k.log[i].id < k.nextId)
    && (forall sym :: Bracketed(k.log, sym) && Cycle(k.log, sym) == TrackedCycle(k, sym))
    && (forall sym :: sym in k.open ==> k.open[sym].id < k.nextId)
  }

  /** What one more record does to a symbol's cycle. */
  lemma Appended(log: seq<Record>, r: Record, sym: string)
    ensures Cycle(log + [r], sym) == if r.symbol != sym || r.status.UpdateRecord? then Cycle(log, sym)
                                     else if r.status.OpenRecord? then Some((r.id, r.openedAt)) else None
    ensures Bracketed(log + [r], sym) <==> Bracketed(log, sym) && (r.symbol == sym ==> Continues(log, r, sym))
  {
    assert (log + [r])[..|log|] == log;
  }

  ghost predicate Continues(log: seq<Record>, r: Record, sym: string) {
    if r.status.OpenRecord? then Cycle(log, sym).None? && forall i :: 0 <= i < |log| ==> log[i].id != r.id
    else Cycle(log, sym) == Some((r.id, r.openedAt))
  }

  /** The one record an accepted position event appends. */
  function RecordOf(k: Sink, ts: string, e: Event): Record
    requires IsPositionEvent(e)
  {
    var known := !e.Opened? && e.symbol in k.open;
    Record(if known then k.open[e.symbol].id else k.nextId, e.symbol, e.pos.side, e.pos.size, e.pos.entryPrice,
           e.pos.unrealizedPnl,
           if known then k.open[e.symbol].openedAt else ts, ts,
           if e.Opened? then OpenRecord else if e.Updated? then UpdateRecord else CloseRecord)
  }

  lemma LoggedIs(k: Sink, ts: string, e: Event)
    requires IsPositionEvent(e)
    ensures var k' := Logged(k, ts, e);
            && k'.log == k.log + [RecordOf(k, ts, e)]
            && k'.open == (if e.Opened? then k.open[e.symbol := Tracked(k.nextId, ts, e.pos.entryPrice)]
                           else if e.Updated? then k.open else k.open - {e.symbol})
            && k'.nextId == k.nextId + if !e.Opened? && e.symbol in k.open then 0 else 1
  {
  }

  /** One accepted event that fits the open map keeps the log well bracketed. */
  lemma LoggedKeeps(k: Sink, ts: string, e: Event, v: View)
    requires LogInv(k) && k.open.Keys == v.Keys && FitsOne(v, e)
    ensures LogInv(Logged(k, ts, e)) && Logged(k, ts, e).open.Keys == ApplyEvent(v, e).Keys
  {
    var k' := Logged(k, ts, e);
    if IsPositionEvent(e) {
      LoggedIs(k, ts, e);
      var r := RecordOf(k, ts, e);
      hide Logged, Bracketed, Cycle;
      forall sym ensures Bracketed(k'.log, sym) && Cycle(k'.log, sym) == TrackedCycle(k', sym) {
        assert Bracketed(k.log, sym) && Cycle(k.log, sym) == TrackedCycle(k, sym);
        Appended(k.log, r, sym);
      }
    }
  }

  lemma {:induction false} EmitKeepsLog(k: Sink, ts: string, es: seq<Event>, v: View)
    requires k.attached && LogInv(k) && k.open.Keys == v.Keys && Fits(v, es) && FirstReject(k.numeric, es) == |es|
    ensures LogInv(Emit(k, ts, es).sink) && Emit(k, ts, es).sink.open.Keys == Replay(v, es).Keys
  {
    hide LogInv, Logged, FitsOne, ApplyEvent;
    if es != [] {
      var init, e := es[..|es| - 1], es[|es| - 1];
      EmitKeepsLog(k, ts, init, v);
      EmitForwards(k, ts, init);
      var mid := Emit(k, ts, init).sink;
      LoggedKeeps(mid, ts, e, Replay(v, init));
      ForwardingKeeps(Logged(mid, ts, e), e);
    }
  }

  lemma ForwardingKeeps(k: Sink, e: Event)
    requires LogInv(k)
    ensures LogInv(k.(forwarded := k.forwarded + [e]))
  {
    var k' := k.(forwarded := k.forwarded + [e]);
    forall sym ensures Bracketed(k'.log, sym) && Cycle(k'.log, sym) == TrackedCycle(k', sym) {
      assert Bracketed(k.log, sym) && TrackedCycle(k', sym) == TrackedCycle(k, sym);
    }
  }

  // ── Stream and log over a whole run ──

  ghost predicate InSync(s: Stream, k: Sink) {
    && DistinctKeys(s.positions) && (k.attached ==> WellFormed(k.numeric, s.positions))
    && Replay(map[], k.forwarded) == ViewOf(s.positions) && Fits(map[], k.forwarded)
    && (k.attached ==> LogInv(k) && k.open.Keys == ViewOf(s.positions).Keys)
  }

  lemma {:induction false} EmitInSync(k: Sink, ts: string, es: seq<Event>, v: View)
    requires Replay(map[], k.forwarded) == v && Fits(map[], k.forwarded) && Fits(v, es)
    requires k.attached ==> LogInv(k) && k.open.Keys == v.Keys
    requires k.attached ==> FirstReject(k.numeric, es) == |es|
    ensures var k' := Emit(k, ts, es).sink;
            && !Emit(k, ts, es).threw && k'.attached == k.attached && k'.numeric == k.numeric
            && Replay(map[], k'.forwarded) == Replay(v, es) && Fits(map[], k'.forwarded)
            && (k.attached ==> LogInv(k') && k'.open.Keys == Replay(v, es).Keys)
  {
    hide LogInv, Emit, Replay, Fits;
    EmitForwards(k, ts, es);
    ReplayConcat(map[], k.forwarded, es);
    if k.attached { EmitKeepsLog(k, ts, es, v); }
  }

  lemma NeutralAccepted(numeric: string -> bool, es: seq<Event>)
    requires forall i :: 0 <= i < |es| ==> !IsPositionEvent(es[i])
    ensures FirstReject(numeric, es) == |es|
  {
  }

  lemma PollKeepsSync(s: Stream, k: Sink, t: Tick, warnPct: real)
    requires InSync(s, k) && (k.attached ==> WellFormedTick(k.numeric, t))
    ensures var (s', k') := PollStep(s, k, t.ts, t.input, warnPct);
            InSync(s', k') && k'.attached == k.attached && k'.numeric == k.numeric
  {
    hide LogInv, Emit, Replay, Fits, ViewOf, FirstEvents, LastEvents, Current, CurrentOrders;
    var v := ViewOf(s.positions);
    if t.input.Unreadable? {
      var es := [ErrorEvent(s.cycle + 1)];
      NeutralReplay(v, es);
      NeutralAccepted(k.numeric, es);
      EmitInSync(k, t.ts, es, v);
    } else {
      CurrentDistinct(t.input.positions);
      if k.attached {
        CurrentWellFormed(k.numeric, t.input.positions);
        FirstEventsAccepted(k.numeric, s, t.input, warnPct);
      }
      FirstEventsRebuild(s, t.input, warnPct);
      var first := FirstEvents(s, t.input, warnPct);
      EmitInSync(k, t.ts, first, v);
      var mid, w, last := Emit(k, t.ts, first).sink, ViewOf(Current(t.input.positions)), LastEvents(s, t.input);
      LastEventsAreNeutral(s, t.input);
      NeutralReplay(w, last);
      NeutralAccepted(k.numeric, last);
      EmitInSync(mid, t.ts, last, w);
    }
  }

  lemma StartInSync(attached: bool, numeric: string -> bool)
    ensures InSync(START, Attach(attached, numeric))
  {
  }

  /** For every run of polls, failed or readable, and with the logger attached also well formed:
      replaying all events gives exactly the current side and size of every position, each event
      fits the positions it finds, the logger tracks exactly the stream's symbols, and the log of
      every symbol is well bracketed. */
  lemma {:induction false} StreamAndLogAgree(attached: bool, numeric: string -> bool, warnPct: real, ticks: seq<Tick>)
    requires attached ==> forall i :: 0 <= i < |ticks| ==> WellFormedTick(numeric, ticks[i])
    ensures var (s, k) := Run(START, Attach(attached, numeric), warnPct, ticks);
            InSync(s, k) && k.numeric == numeric && k.attached == attached
  {
    hide InSync, PollStep, WellFormedTick;
    if ticks == [] {
      StartInSync(attached, numeric);
    } else {
      StreamAndLogAgree(attached, numeric, warnPct, ticks[..|ticks| - 1]);
      var (s, k) := Run(START, Attach(attached, numeric), warnPct, ticks[..|ticks| - 1]);
      PollKeepsSync(s, k, ticks[|ticks| - 1], warnPct);
    }
  }

  // ── When a malformed event breaks the agreement, and when it does not ──

  function OpenedIn(es: seq<Event>): set<string> {
    if es == [] then {} else OpenedIn(es[..|es| - 1]) + if es[|es| - 1].Opened? then {es[|es| - 1].symbol} else {}
  }

  function ClosedIn(es: seq<Event>): set<string> {
    if es == [] then {} else ClosedIn(es[..|es| - 1]) + if es[|es| - 1].Closed? then {es[|es| - 1].symbol} else {}
  }

  lemma {:induction false} InConcat(a: seq<Event>, b: seq<Event>)
    ensures OpenedIn(a + b) == OpenedIn(a) + OpenedIn(b) && ClosedIn(a + b) == ClosedIn(a) + ClosedIn(b)
  {
    if b == [] {
      assert a + b == a;
    } else {
      assert (a + b)[..|a + b| - 1] == a + b[..|b| - 1];
      InConcat(a, b[..|b| - 1]);
    }
  }

  /** Fitting events that never open and close one symbol add exactly what they open and remove exactly what they
      close. */
  lemma {:induction false} KeysMoved(v: View, es: seq<Event>)
    requires Fits(v, es) && OpenedIn(es) !! ClosedIn(es)
    ensures Replay(v, es).Keys == v.Keys + OpenedIn(es) - ClosedIn(es)
    ensures OpenedIn(es) !! v.Keys && ClosedIn(es) <= v.Keys
  {
    if es != [] { KeysMoved(v, es[..|es| - 1]); }
  }

  lemma {:induction false} OpensAreCurrent(prev: Positions, cur: Positions)
    ensures OpenedIn(OpenEvents(prev, cur)) <= ViewOf(cur).Keys && ClosedIn(OpenEvents(prev, cur)) == {}
  {
    if cur != [] {
      OpensAreCurrent(prev, cur[..|cur| - 1]);
      var es := EntryEvent(prev, cur[|cur| - 1].0, cur[|cur| - 1].1);
      InConcat(OpenEvents(prev, cur[..|cur| - 1]), es);
      if es != [] { assert es[..0] == [] && OpenedIn(es[..0]) == {} && ClosedIn(es[..0]) == {}; }
    }
  }

  lemma {:induction false} ClosesAreGone(prev: Positions, cur: Positions)
    ensures OpenedIn(CloseEvents(prev, cur)) == {} && ClosedIn(CloseEvents(prev, cur)) !! ViewOf(cur).Keys
  {
    hide ViewOf;
    if prev != [] {
      ClosesAreGone(prev[..|prev| - 1], cur);
      var last := prev[|prev| - 1];
      ViewGet(cur, last.0);
      InConcat(CloseEvents(prev[..|prev| - 1], cur), GoneEvent(cur, last.0, last.1));
      var none: seq<Event> := [Closed(last.0, last.1)][..0];
      assert none == [] && OpenedIn(none) == {} && ClosedIn(none) == {};
    }
  }

  lemma {:induction false} NeutralOpensNothing(es: seq<Event>)
    requires forall i :: 0 <= i < |es| ==> !IsPositionEvent(es[i])
    ensures OpenedIn(es) == {} && ClosedIn(es) == {}
  {
    if es != [] { NeutralOpensNothing(es[..|es| - 1]); }
  }

  lemma NothingBothOpenedAndClosed(s: Stream, input: Input, warnPct: real)
    requires input.Snapshot?
    ensures OpenedIn(FirstEvents(s, input, warnPct)) !! ClosedIn(FirstEvents(s, input, warnPct))
  {
    var cur := Current(input.positions);
    hide Current;
    OpensAreCurrent(s.positions, cur);
    ClosesAreGone(s.positions, cur);
    AlertsAreNeutral(input.positions, warnPct);
    NeutralOpensNothing(AlertEvents(input.positions, warnPct));
    InConcat(OpenEvents(s.positions, cur), CloseEvents(s.positions, cur));
    InConcat(PositionEvents(s.positions, cur), AlertEvents(input.positions, warnPct));
  }

  lemma {:induction false} ThrownKeepsOpen(k: Sink, ts: string, es: seq<Event>)
    ensures var n := if k.attached then FirstReject(k.numeric, es) else |es|;
            Emit(k, ts, es).sink.open == Emit(k, ts, es[..n]).sink.open
  {
    hide Rejects;
    var n := if k.attached then FirstReject(k.numeric, es) else |es|;
    if n == |es| {
      assert es[..n] == es;
    } else {
      var init := es[..|es| - 1];
      EmitThrowsIff(k, ts, init);
      ThrownKeepsOpen(k, ts, init);
      if n < |init| {
        assert es[..n] == init[..n];
      } else {
        assert es[..n] == init && init[..|init|] == init;
        EmitForwards(k, ts, init);
      }
    }
  }

  /** After any readable poll the logger's map and the stream still have the same symbols exactly
      when the logger rejects none of the poll's events, or rejects one before any position was
      opened or closed. */
  lemma PollKeepsMapIff(s: Stream, k: Sink, t: Tick, warnPct: real)
    requires InSync(s, k) && k.attached && t.input.Snapshot?
    ensures var (s', k') := PollStep(s, k, t.ts, t.input, warnPct);
            var es := FirstEvents(s, t.input, warnPct);
            var n := FirstReject(k.numeric, es);
            k'.open.Keys == ViewOf(s'.positions).Keys
            <==> n == |es| || (OpenedIn(es[..n]) == {} && ClosedIn(es[..n]) == {})
  {
    hide LogInv, Replay, Fits, ViewOf, FirstEvents, LastEvents, Current, CurrentOrders, OpenedIn, ClosedIn, Rejects;
    var es, v := FirstEvents(s, t.input, warnPct), ViewOf(s.positions);
    var n := FirstReject(k.numeric, es);
    FirstEventsRebuild(s, t.input, warnPct);
    NothingBothOpenedAndClosed(s, t.input, warnPct);
    assert es == es[..n] + es[n..];
    ReplayConcat(v, es[..n], es[n..]);
    InConcat(es[..n], es[n..]);
    KeysMoved(v, es[..n]);
    assert FirstReject(k.numeric, es[..n]) == n by { PrefixAccepted(k.numeric, es, n); }
    EmitKeepsLog(k, t.ts, es[..n], v);
    EmitThrowsIff(k, t.ts, es);
    ThrownKeepsOpen(k, t.ts, es);
    var mid := Emit(k, t.ts, es).sink;
    if n == |es| {
      assert es[..n] == es;
      LastKeepsOpen(mid, t.ts, LastEvents(s, t.input), s, t.input);
    } else {
      EmitOne(mid, t.ts, ErrorEvent(s.cycle + 1));
    }
  }

  lemma PrefixAccepted(numeric: string -> bool, es: seq<Event>, n: nat)
    requires n == FirstReject(numeric, es)
    ensures FirstReject(numeric, es[..n]) == n
  {
    hide Rejects;
  }

  lemma LastKeepsOpen(k: Sink, ts: string, es: seq<Event>, s: Stream, input: Input)
    requires input.Snapshot? && es == LastEvents(s, input)
    ensures Emit(k, ts, es).sink.open == k.open
  {
    LastEventsAreNeutral(s, input);
    NeutralKeepsOpen(k, ts, es);
  }

  lemma {:induction false} NeutralKeepsOpen(k: Sink, ts: string, es: seq<Event>)
    requires forall i :: 0 <= i < |es| ==> !IsPositionEvent(es[i])
    ensures Emit(k, ts, es).sink.open == k.open && Emit(k, ts, es).sink.log == k.log
  {
    if es != [] { NeutralKeepsOpen(k, ts, es[..|es| - 1]); }
  }

  /** A good position and then one without a valid side, in a stream that knows none: the first is opened
      and logged, the poll fails at the second, and the stream forgets it saw either. */
  lemma FailedPollOpens(s: Stream, k: Sink, ts: string, good: Position, bad: Position, orders: seq<Order>,
      balance: Balance, warnPct: real)
    requires s.positions == [] && k.attached && WellFormedPos(k.numeric, good.symbol, PosOf(good))
    requires bad.symbol != good.symbol && bad.side != "long" && bad.side != "short"
    ensures var (s', k') := PollStep(s, k, ts, Snapshot([good, bad], orders, balance), warnPct);
            && s'.positions == [] && k'.attached && k'.numeric == k.numeric && good.symbol in k'.open
            && k'.log == k.log + [Record(k.nextId, good.symbol, good.side, good.size, good.entryPrice,
                                         good.unrealizedPnl, ts, ts, OpenRecord)]
  {
    hide LogInv, LastEvents, CurrentOrders, AlertEvents, InSync, PosOf;
    var input := Snapshot([good, bad], orders, balance);
    var es := FirstEvents(s, input, warnPct);
    TwoPositions(good, bad);
    FieldsOfPos(good);
    FieldsOfPos(bad);
    var opens := [Opened(good.symbol, PosOf(good)), Opened(bad.symbol, PosOf(bad))];
    assert CloseEvents([], Current(input.positions)) == [];
    assert es == opens + ([] + AlertEvents(input.positions, warnPct));
    EmitConcat(k, ts, opens, [] + AlertEvents(input.positions, warnPct));
    assert opens == [opens[0]] + [opens[1]];
    EmitConcat(k, ts, [opens[0]], [opens[1]]);
    EmitOne(k, ts, opens[0]);
    var mid := OnEvent(k, ts, opens[0]);
    EmitOne(mid, ts, opens[1]);
    EmitOne(Emit(mid, ts, [opens[1]]).sink, ts, ErrorEvent(s.cycle + 1));
  }

  lemma FieldsOfPos(p: Position)
    ensures PosOf(p) == Pos(p.side, p.size, p.entryPrice, p.unrealizedPnl)
  {
  }

  /** How the agreement is lost: after one such poll the good position is open in the log and unknown to
      the stream. */
  lemma MalformedPositionLosesSync(k: Sink, ts: string, good: Position, bad: Position, orders: seq<Order>,
      balance: Balance, warnPct: real)
    requires InSync(START, k) && k.attached && WellFormedPos(k.numeric, good.symbol, PosOf(good))
    requires bad.symbol != good.symbol && bad.side != "long" && bad.side != "short"
    ensures var (s', k') := PollStep(START, k, ts, Snapshot([good, bad], orders, balance), warnPct);
            s'.positions == [] && good.symbol in k'.open && ViewOf(s'.positions).Keys != k'.open.Keys
  {
    hide PollStep;
    FailedPollOpens(START, k, ts, good, bad, orders, balance, warnPct);
  }

  /** The next such poll opens the good position again: its second open record comes while its first cycle
      is unfinished, and the log is not well bracketed from then on, whatever is added. */
  lemma {:induction false} MalformedPositionOpensTwice(k: Sink, ts: string, ts': string, good: Position, bad: Position,
      orders: seq<Order>, balance: Balance, warnPct: real, more: seq<Record>)
    requires k.attached && WellFormedPos(k.numeric, good.symbol, PosOf(good))
    requires bad.symbol != good.symbol && bad.side != "long" && bad.side != "short"
    ensures var input := Snapshot([good, bad], orders, balance);
            var (s1, k1) := PollStep(START, k, ts, input, warnPct);
            var (s2, k2) := PollStep(s1, k1, ts', input, warnPct);
            && |k2.log| == |k.log| + 2 && k2.log[|k.log|].status == k2.log[|k.log| + 1].status == OpenRecord
            && k2.log[|k.log|].symbol == k2.log[|k.log| + 1].symbol == good.symbol
            && !Bracketed(k2.log + more, good.symbol)
  {
    hide PollStep, PosOf, Bracketed;
    var input := Snapshot([good, bad], orders, balance);
    FailedPollOpens(START, k, ts, good, bad, orders, balance, warnPct);
    var (s1, k1) := PollStep(START, k, ts, input, warnPct);
    FailedPollOpens(s1, k1, ts', good, bad, orders, balance, warnPct);
    var (s2, k2) := PollStep(s1, k1, ts', input, warnPct);
    TwiceOpened(k.log, k2.log[|k.log|], k2.log[|k.log| + 1], good.symbol);
    assert k2.log == (k.log + [k2.log[|k.log|]]) + [k2.log[|k.log| + 1]];
    NotBracketedStays(k2.log, more, good.symbol);
  }

  lemma TwiceOpened(log: seq<Record>, a: Record, b: Record, sym: string)
    requires a.symbol == b.symbol == sym && a.status == b.status == OpenRecord
    ensures !Bracketed((log + [a]) + [b], sym)
  {
    Appended(log, a, sym);
    assert ((log + [a]) + [b])[..|log| + 1] == log + [a];
  }

  lemma {:induction false} NotBracketedStays(log: seq<Record>, more: seq<Record>, sym: string)
    requires !Bracketed(log, sym)
    ensures !Bracketed(log + more, sym)
  {
    if more == [] {
      assert log + more == log;
    } else {
      assert (log + more)[..|log + more| - 1] == log + more[..|more| - 1];
      NotBracketedStays(log, more[..|more| - 1], sym);
    }
  }

  lemma TwoPositions(good: Position, bad: Position)
    requires bad.symbol != good.symbol
    ensures Current([good, bad]) == [(good.symbol, PosOf(good)), (bad.symbol, PosOf(bad))]
    ensures OpenEvents([], Current([good, bad])) == [Opened(good.symbol, PosOf(good)), Opened(bad.symbol, PosOf(bad))]
  {
    hide PosOf, OpenEvents, Put;
    assert [good, bad][..1] == [good] && [good][..0] == [];
    assert Current([]) == [];
    PutNew([], good.symbol, PosOf(good));
    assert [] + [(good.symbol, PosOf(good))] == [(good.symbol, PosOf(good))];
    PutNew([(good.symbol, PosOf(good))], bad.symbol, PosOf(bad));
    TwoOpens(good.symbol, PosOf(good), bad.symbol, PosOf(bad));
  }

  lemma TwoOpens(a: string, pa: Pos, b: string, pb: Pos)
    ensures OpenEvents([], [(a, pa), (b, pb)]) == [Opened(a, pa), Opened(b, pb)]
  {
    var two: Positions := [(a, pa), (b, pb)];
    assert two[..1] == [(a, pa)] && two[..1][..0] == [];
    assert OpenEvents([], two[..1][..0]) == [];
    assert OpenEvents([], two[..1]) == [] + [Opened(a, pa)];
  }

  // ── Orders ──

  function ApplyOrder(ids: set<string>, e: Event): set<string> {
    if e.OrderPlaced? then ids + {e.order.id} else if e.OrderFilled? || e.OrderCancelled? then ids - {e.order.id}
    else ids
  }

  function ReplayOrders(ids: set<string>, es: seq<Event>): set<string> {
    if es == [] then ids else ApplyOrder(ReplayOrders(ids, es[..|es| - 1]), es[|es| - 1])
  }

  /** Placed only when not there, removed only when there: so each id gets one removal per placement. */
  predicate FitsOrders(ids: set<string>, es: seq<Event>) {
    es == [] ||
    var init, e := es[..|es| - 1], es[|es| - 1];
    && FitsOrders(ids, init)
    && (e.OrderPlaced? ==> e.order.id !in ReplayOrders(ids, init))
    && (e.OrderFilled? || e.OrderCancelled? ==> e.order.id in ReplayOrders(ids, init))
  }

  function Ids(os: Orders): set<string> {
    if os == [] then {} else Ids(os[..|os| - 1]) + {os[|os| - 1].0}
  }

  /** The order map is keyed by the orders' own ids. */
  ghost predicate Keyed(os: Orders) {
    DistinctKeys(os) && forall i :: 0 <= i < |os| ==> os[i].0 == os[i].1.id
  }

  lemma {:induction false} CurrentKeyed(os: seq<Order>)
    ensures Keyed(CurrentOrders(os))
  {
    if os != [] {
      CurrentKeyed(os[..|os| - 1]);
      PutGet(CurrentOrders(os[..|os| - 1]), os[|os| - 1].id, os[|os| - 1]);
    }
  }

  lemma {:induction false} IdsGet(os: Orders, id: string)
    ensures id in Ids(os) <==> Get(os, id).Some?
  {
    if os != [] { IdsGet(os[..|os| - 1], id); }
  }

  lemma {:induction false} OrdersConcat(ids: set<string>, a: seq<Event>, b: seq<Event>)
    ensures ReplayOrders(ids, a + b) == ReplayOrders(ReplayOrders(ids, a), b)
    ensures FitsOrders(ids, a + b) <==> FitsOrders(ids, a) && FitsOrders(ReplayOrders(ids, a), b)
  {
    if b == [] {
      assert a + b == a;
    } else {
      assert (a + b)[..|a + b| - 1] == a + b[..|b| - 1];
      OrdersConcat(ids, a, b[..|b| - 1]);
    }
  }

  lemma OrdersOne(ids: set<string>, e: Event)
    ensures ReplayOrders(ids, [e]) == ApplyOrder(ids, e)
    ensures FitsOrders(ids, [e])
            <==> (e.OrderPlaced? ==> e.order.id !in ids) && (e.OrderFilled? || e.OrderCancelled? ==> e.order.id in ids)
  {
    assert [e][..0] == [];
  }

  lemma {:induction false} PlacedReplay(prev: Orders, cur: Orders)
    requires Keyed(cur)
    ensures ReplayOrders(Ids(prev), PlacedEvents(prev, cur)) == Ids(prev) + Ids(cur)
            && FitsOrders(Ids(prev), PlacedEvents(prev, cur))
  {
    if cur != [] {
      var init, last := cur[..|cur| - 1], cur[|cur| - 1];
      PlacedReplay(prev, init);
      IdsGet(prev, last.0);
      IdsGet(init, last.0);
      var es := if Get(prev, last.0).None? then [OrderPlaced(last.1)] else [];
      OrdersConcat(Ids(prev), PlacedEvents(prev, init), es);
      OrdersOne(Ids(prev) + Ids(init), OrderPlaced(last.1));
    }
  }

  lemma {:induction false} RemovedReplay(prev: Orders, cur: Orders, now: Positions, before: Positions, ids: set<string>)
    requires Keyed(prev) && Ids(prev) <= ids
    ensures ReplayOrders(ids, RemovedEvents(prev, cur, now, before)) == ids - (Ids(prev) - Ids(cur))
            && FitsOrders(ids, RemovedEvents(prev, cur, now, before))
  {
    hide SizeOf;
    if prev != [] {
      var init, last := prev[..|prev| - 1], prev[|prev| - 1];
      RemovedReplay(init, cur, now, before, ids);
      IdsGet(cur, last.0);
      IdsGet(init, last.0);
      var e := RemovedEvent(cur, now, before, last.1);
      var es := if Get(cur, last.0).None? then [e] else [];
      OrdersConcat(ids, RemovedEvents(init, cur, now, before), es);
      OrdersOne(ids - (Ids(init) - Ids(cur)), e);
    }
  }

  lemma {:induction false} NeutralOrders(ids: set<string>, es: seq<Event>)
    requires forall i :: 0 <= i < |es| ==> !es[i].OrderPlaced? && !es[i].OrderFilled? && !es[i].OrderCancelled?
    ensures ReplayOrders(ids, es) == ids && FitsOrders(ids, es)
  {
    if es != [] { NeutralOrders(ids, es[..|es| - 1]); }
  }

  /** Balance updates and heartbeats. */
  function RestEvents(s: Stream, input: Input): seq<Event>
    requires input.Snapshot?
  {
    BalanceEvents(s.balance, input.balance) + (if (s.cycle + 1) % 12 == 0 then [Heartbeat(s.cycle + 1)] else [])
  }

  lemma LastEventsSplit(s: Stream, input: Input)
    requires input.Snapshot?
    ensures var cur, now := CurrentOrders(input.orders), Current(input.positions);
            LastEvents(s, input)
            == (PlacedEvents(s.orders, cur) + RemovedEvents(s.orders, cur, now, now)) + RestEvents(s, input)
    ensures forall i :: 0 <= i < |RestEvents(s, input)| ==>
              !RestEvents(s, input)[i].OrderPlaced? && !RestEvents(s, input)[i].OrderFilled?
                && !RestEvents(s, input)[i].OrderCancelled?
  {
    hide CurrentOrders, Current, PlacedEvents, RemovedEvents;
  }

  lemma LastEventsOrders(s: Stream, input: Input)
    requires input.Snapshot? && Keyed(s.orders)
    ensures ReplayOrders(Ids(s.orders), LastEvents(s, input)) == Ids(CurrentOrders(input.orders))
            && FitsOrders(Ids(s.orders), LastEvents(s, input))
  {
    var cur, now := CurrentOrders(input.orders), Current(input.positions);
    hide CurrentOrders, Current, ReplayOrders, FitsOrders, PlacedEvents, RemovedEvents, RestEvents, LastEvents, Ids;
    hide Keyed;
    CurrentKeyed(input.orders);
    PlacedReplay(s.orders, cur);
    RemovedReplay(s.orders, cur, now, now, Ids(s.orders) + Ids(cur));
    var placed, removed := PlacedEvents(s.orders, cur), RemovedEvents(s.orders, cur, now, now);
    LastEventsSplit(s, input);
    OrdersConcat(Ids(s.orders), placed, removed);
    assert Ids(s.orders) + Ids(cur) - (Ids(s.orders) - Ids(cur)) == Ids(cur);
    NeutralOrders(Ids(cur), RestEvents(s, input));
    OrdersConcat(Ids(s.orders), placed + removed, RestEvents(s, input));
  }

  lemma {:induction false} OpensAreNoOrders(prev: Positions, cur: Positions)
    ensures forall i :: 0 <= i < |OpenEvents(prev, cur)| ==> IsPositionEvent(OpenEvents(prev, cur)[i])
  {
    if cur != [] { OpensAreNoOrders(prev, cur[..|cur| - 1]); }
  }

  lemma {:induction false} ClosesAreNoOrders(prev: Positions, cur: Positions)
    ensures forall i :: 0 <= i < |CloseEvents(prev, cur)| ==> IsPositionEvent(CloseEvents(prev, cur)[i])
  {
    if prev != [] { ClosesAreNoOrders(prev[..|prev| - 1], cur); }
  }

  lemma {:induction false} AlertsAreAlerts(ps: seq<Position>, warnPct: real)
    ensures forall i :: 0 <= i < |AlertEvents(ps, warnPct)| ==> AlertEvents(ps, warnPct)[i].Alert?
  {
    hide DistancePct;
    if ps != [] { AlertsAreAlerts(ps[..|ps| - 1], warnPct); }
  }

  ghost predicate OrdersInv(s: Stream, k: Sink) {
    && Keyed(s.orders) && ReplayOrders({}, k.forwarded) == Ids(s.orders) && FitsOrders({}, k.forwarded)
    && forall i :: 0 <= i < |k.forwarded| ==> !k.forwarded[i].OrderFilled?
  }

  /** Emitting forwards a prefix of the events. */
  lemma EmitPrefixForwarded(k: Sink, ts: string, es: seq<Event>) returns (n: nat)
    ensures n <= |es| && Emit(k, ts, es).sink.forwarded == k.forwarded + es[..n]
    ensures (forall i :: 0 <= i < |es| ==> !IsPositionEvent(es[i])) ==> n == |es| && !Emit(k, ts, es).threw
  {
    EmitThrowsIff(k, ts, es);
    n := if k.attached then FirstReject(k.numeric, es) else |es|;
    if n == |es| {
      EmitForwards(k, ts, es);
      assert es[..n] == es;
    }
  }

  lemma {:induction false} OrdersAfter(s: Stream, k: Sink, ts: string, es: seq<Event>)
    requires OrdersInv(s, k)
    requires forall i :: 0 <= i < |es| ==> !es[i].OrderPlaced? && !es[i].OrderFilled? && !es[i].OrderCancelled?
    ensures OrdersInv(s, Emit(k, ts, es).sink)
  {
    hide Emit, Ids, FirstReject;
    var n := EmitPrefixForwarded(k, ts, es);
    NeutralOrders(Ids(s.orders), es[..n]);
    OrdersConcat({}, k.forwarded, es[..n]);
  }

  lemma FirstEventsNoOrders(s: Stream, input: Input, warnPct: real)
    requires input.Snapshot?
    ensures var es := FirstEvents(s, input, warnPct);
            forall i :: 0 <= i < |es| ==> !es[i].OrderPlaced? && !es[i].OrderFilled? && !es[i].OrderCancelled?
  {
    var cur := Current(input.positions);
    OpensAreNoOrders(s.positions, cur);
    ClosesAreNoOrders(s.positions, cur);
    AlertsAreAlerts(input.positions, warnPct);
    NoOrdersIn(OpenEvents(s.positions, cur), CloseEvents(s.positions, cur), AlertEvents(input.positions, warnPct));
  }

  lemma NoOrdersIn(opens: seq<Event>, closes: seq<Event>, alerts: seq<Event>)
    requires forall i :: 0 <= i < |opens| ==> IsPositionEvent(opens[i])
    requires forall i :: 0 <= i < |closes| ==> IsPositionEvent(closes[i])
    requires forall i :: 0 <= i < |alerts| ==> alerts[i].Alert?
    ensures var es := opens + closes + alerts;
            forall i :: 0 <= i < |es| ==> !es[i].OrderPlaced? && !es[i].OrderFilled? && !es[i].OrderCancelled?
  {
  }

  lemma PollKeepsOrders(s: Stream, k: Sink, t: Tick, warnPct: real)
    requires OrdersInv(s, k)
    ensures var (s', k') := PollStep(s, k, t.ts, t.input, warnPct); OrdersInv(s', k')
  {
    hide OrdersInv, Emit, FirstEvents, LastEvents, Current, CurrentOrders;
    if t.input.Unreadable? {
      OrdersAfter(s, k, t.ts, [ErrorEvent(s.cycle + 1)]);
      SameOrders(s, Emit(k, t.ts, [ErrorEvent(s.cycle + 1)]).sink, s.cycle + 1);
    } else {
      var es := FirstEvents(s, t.input, warnPct);
      FirstEventsNoOrders(s, t.input, warnPct);
      OrdersAfter(s, k, t.ts, es);
      var first := Emit(k, t.ts, es);
      if first.threw {
        OrdersAfter(s, first.sink, t.ts, [ErrorEvent(s.cycle + 1)]);
        SameOrders(s, Emit(first.sink, t.ts, [ErrorEvent(s.cycle + 1)]).sink, s.cycle + 1);
      } else {
        LastKeepsOrders(s, first.sink, t, warnPct);
      }
    }
  }

  lemma SameOrders(s: Stream, k: Sink, cycle: nat)
    requires OrdersInv(s, k)
    ensures OrdersInv(s.(cycle := cycle), k)
  {
  }

  lemma LastKeepsOrders(s: Stream, k: Sink, t: Tick, warnPct: real)
    requires OrdersInv(s, k) && t.input.Snapshot?
    ensures OrdersInv(Stream(Current(t.input.positions), CurrentOrders(t.input.orders), Some(t.input.balance),
                             s.cycle + 1),
                      Emit(k, t.ts, LastEvents(s, t.input)).sink)
  {
    hide Emit, LastEvents, Current, CurrentOrders, Ids, ReplayOrders, FitsOrders, FirstReject;
    var es := LastEvents(s, t.input);
    LastEventsAreNeutral(s, t.input);
    var n := EmitPrefixForwarded(k, t.ts, es);
    assert es[..n] == es;
    CurrentKeyed(t.input.orders);
    LastEventsOrders(s, t.input);
    OrdersConcat({}, k.forwarded, es);
  }

  /** For every run whatever, thrown polls included: replaying the order events gives exactly the
      stream's open orders, every order that vanishes gets exactly one removal event, and that
      event is never order_filled: the two maps compared are then the same map. */
  lemma {:induction false} OrdersOverRuns(attached: bool, numeric: string -> bool, warnPct: real, ticks: seq<Tick>)
    ensures var (s, k) := Run(START, Attach(attached, numeric), warnPct, ticks); OrdersInv(s, k)
  {
    hide OrdersInv, PollStep;
    if ticks == [] {
      NoOrdersYet(attached, numeric);
    } else {
      OrdersOverRuns(attached, numeric, warnPct, ticks[..|ticks| - 1]);
      var (s, k) := Run(START, Attach(attached, numeric), warnPct, ticks[..|ticks| - 1]);
      PollKeepsOrders(s, k, ticks[|ticks| - 1], warnPct);
    }
  }

  lemma NoOrdersYet(attached: bool, numeric: string -> bool)
    ensures OrdersInv(START, Attach(attached, numeric))
  {
  }
}
