/** src/event-stream.ts and src/position-history.ts: the polling stream that turns account snapshots
    into events, and the logger that turns position events into history records. */
module EventStream {
  import opened Prelude

  // ── What the venue answers ──

  datatype Liquidation = NotReported | Malformed | At(price: real)

  datatype Position = Position(symbol: string, side: string, size: string, entryPrice: string, unrealizedPnl: string,
                               liquidation: Liquidation, mark: Option<real>)

  datatype Order = Order(id: string, symbol: string)

  /** Equity and available balance, None when not a finite number. */
  datatype Balance = Balance(equity: Option<real>, available: Option<real>)

  datatype Input = Unreadable | Snapshot(positions: seq<Position>, orders: seq<Order>, balance: Balance)

  // ── Events ──

  datatype Pos = Pos(side: string, size: string, entryPrice: string, unrealizedPnl: string)

  datatype Event =
    | Opened(symbol: string, pos: Pos)
    | Updated(symbol: string, pos: Pos, prevSize: string, prevSide: string)
    | Closed(symbol: string, pos: Pos)          // realizedPnl is the last unrealizedPnl
    | Alert(symbol: string, critical: bool)
    | OrderPlaced(order: Order) | OrderFilled(order: Order) | OrderCancelled(order: Order)
    | BalanceUpdate | Heartbeat(cycle: nat) | ErrorEvent(cycle: nat)

  type Positions = seq<(string, Pos)>
  type Orders = seq<(string, Order)>

  function PosOf(p: Position): Pos {
    Pos(p.side, p.size, p.entryPrice, p.unrealizedPnl)
  }

  /** The map rebuilt from the answer: a repeated symbol keeps its first place and its last value. */
  function Current(ps: seq<Position>): Positions {
    if ps == [] then [] else Put(Current(ps[..|ps| - 1]), ps[|ps| - 1].symbol, PosOf(ps[|ps| - 1]))
  }

  function CurrentOrders(os: seq<Order>): Orders {
    if os == [] then [] else Put(CurrentOrders(os[..|os| - 1]), os[|os| - 1].id, os[|os| - 1])
  }

  function EntryEvent(prev: Positions, sym: string, pos: Pos): seq<Event> {
    var p := Get(prev, sym);
    if p.None? then [Opened(sym, pos)]
    else if p.value.size != pos.size || p.value.side != pos.side then [Updated(sym, pos, p.value.size, p.value.side)]
    else []
  }

  function OpenEvents(prev: Positions, cur: Positions): seq<Event> {
    if cur == [] then []
    else OpenEvents(prev, cur[..|cur| - 1]) + EntryEvent(prev, cur[|cur| - 1].0, cur[|cur| - 1].1)
  }

  function GoneEvent(cur: Positions, sym: string, prev: Pos): seq<Event> {
    if Get(cur, sym).None? then [Closed(sym, prev)] else []
  }

  function CloseEvents(prev: Positions, cur: Positions): seq<Event> {
    if prev == [] then []
    else CloseEvents(prev[..|prev| - 1], cur) + GoneEvent(cur, prev[|prev| - 1].0, prev[|prev| - 1].1)
  }

  function DistancePct(mark: real, liquidation: real): real
    requires mark > 0.0
  {
    Abs(mark - liquidation) / mark * 100.0
  }

  /** Distance to liquidation: under 3% is a margin call, under the warning threshold a warning. */
  function AlertEvent(p: Position, warnPct: real): seq<Event> {
    if !p.liquidation.At? || p.mark.None? || p.mark.value <= 0.0 || p.liquidation.price <= 0.0 then []
    else
      var distance := DistancePct(p.mark.value, p.liquidation.price);
      if distance < 3.0 then [Alert(p.symbol, true)] else if distance < warnPct then [Alert(p.symbol, false)] else []
  }

  function AlertEvents(ps: seq<Position>, warnPct: real): seq<Event> {
    if ps == [] then [] else AlertEvents(ps[..|ps| - 1], warnPct) + AlertEvent(ps[|ps| - 1], warnPct)
  }

  function PlacedEvents(prev: Orders, cur: Orders): seq<Event> {
    if cur == [] then []
    else
      PlacedEvents(prev, cur[..|cur| - 1])
      + (if Get(prev, cur[|cur| - 1].0).None? then [OrderPlaced(cur[|cur| - 1].1)] else [])
  }

  function SizeOf(ps: Positions, sym: string): Option<string> {
    var p := Get(ps, sym);
    if p.Some? then Some(p.value.size) else None
  }

  /** The removal of an order, classified by whether its symbol's size differs between the current
      positions and `before`, the map that prevPositions then holds. */
  function RemovedEvent(cur: Orders, now: Positions, before: Positions, order: Order): Event {
    if SizeOf(now, order.symbol) != SizeOf(before, order.symbol) then OrderFilled(order) else OrderCancelled(order)
  }

  function RemovedEvents(prev: Orders, cur: Orders, now: Positions, before: Positions): seq<Event> {
    if prev == [] then []
    else RemovedEvents(prev[..|prev| - 1], cur, now, before)
         + (if Get(cur, prev[|prev| - 1].0).None? then [RemovedEvent(cur, now, before, prev[|prev| - 1].1)] else [])
  }

  function BalanceEvents(prev: Option<Balance>, b: Balance): seq<Event> {
    if prev.None? || b.equity.None? || b.available.None? || prev.value.equity.None? || prev.value.available.None?
      then []
    else if Abs(b.equity.value - prev.value.equity.value) > 0.01
      || Abs(b.available.value - prev.value.available.value) > 0.01 then [BalanceUpdate]
    else []
  }

  // ── The event callback: the original one, or the position logger around it ──

  datatype Tracked = Tracked(id: nat, openedAt: string, entryPrice: string)

  datatype Status = OpenRecord | UpdateRecord | CloseRecord

  /** `pnl` is the unrealized P&L of an open or updated record, the realized one of a closed record. */
  datatype Record = Record(id: nat, symbol: string, side: string, size: string, entryPrice: string, pnl: string,
      openedAt: string, updatedAt: string, status: Status)

  /** `numeric` is requireNumericString's test; `nextId` stands for genId, which never repeats. */
  datatype Sink = Sink(attached: bool, numeric: string -> bool, open: map<string, Tracked>, log: seq<Record>,
      nextId: nat, forwarded: seq<Event>)

  predicate IsPositionEvent(e: Event) {
    e.Opened? || e.Updated? || e.Closed?
  }

  /** The logger throws on this event: no symbol, an unknown side, or a close without a numeric P&L. */
  predicate Rejects(numeric: string -> bool, e: Event) {
    IsPositionEvent(e)
      && (e.symbol == "" || (e.pos.side != "long" && e.pos.side != "short")
          || (e.Closed? && !numeric(e.pos.unrealizedPnl)))
  }

  /** What the logger does with an event it accepts, before forwarding it. */
  function Logged(k: Sink, ts: string, e: Event): Sink {
    match e
    case Opened(sym, pos) =>
      k.(open := k.open[sym := Tracked(k.nextId, ts, pos.entryPrice)],
         log := k.log + [Record(k.nextId, sym, pos.side, pos.size, pos.entryPrice, pos.unrealizedPnl, ts, ts,
                                OpenRecord)], nextId := k.nextId + 1)
    case Updated(sym, pos, _, _) =>
      if sym in k.open
        then k.(log := k.log + [Record(k.open[sym].id, sym, pos.side, pos.size, pos.entryPrice, pos.unrealizedPnl,
                                       k.open[sym].openedAt, ts,
                                       UpdateRecord)])
      else k.(log := k.log + [Record(k.nextId, sym, pos.side, pos.size, pos.entryPrice, pos.unrealizedPnl, ts, ts,
                                     UpdateRecord)], nextId := k.nextId + 1)
    case Closed(sym, pos) =>
      var closed := if sym in k.open
        then k.(log := k.log + [Record(k.open[sym].id, sym, pos.side, pos.size, pos.entryPrice, pos.unrealizedPnl,
                                       k.open[sym].openedAt, ts, CloseRecord)])
                    else k.(log := k.log + [Record(k.nextId, sym, pos.side, pos.size, pos.entryPrice, pos.unrealizedPnl,
                                                   ts, ts, CloseRecord)],
                            nextId := k.nextId + 1);
      closed.(open := closed.open - {sym})
    case _ => k
  }

  predicate Throws(k: Sink, e: Event) {
    k.attached && Rejects(k.numeric, e)
  }

  function OnEvent(k: Sink, ts: string, e: Event): Sink {
    if Throws(k, e) then (if e.Opened? then k.(nextId := k.nextId + 1) else k)
    else
      var logged := if k.attached then Logged(k, ts, e) else k;
      logged.(forwarded := logged.forwarded + [e])
  }

  datatype Emission = Emission(sink: Sink, threw: bool)

  /** Emit in order; the first event the callback throws on is the last. */
  function Emit(k: Sink, ts: string, es: seq<Event>): Emission {
    if es == [] then Emission(k, false)
    else
      var init := Emit(k, ts, es[..|es| - 1]);
      if init.threw then init else Emission(OnEvent(init.sink, ts, es[|es| - 1]), Throws(init.sink, es[|es| - 1]))
  }

  // ── The poll ──

  datatype Stream = Stream(positions: Positions, orders: Orders, balance: Option<Balance>, cycle: nat)

  function PositionEvents(prev: Positions, cur: Positions): seq<Event> {
    OpenEvents(prev, cur) + CloseEvents(prev, cur)
  }

  /** Everything a readable snapshot makes the stream emit up to the point where prevPositions is replaced, and after
      it. */
  function FirstEvents(s: Stream, input: Input, warnPct: real): seq<Event>
    requires input.Snapshot?
  {
    PositionEvents(s.positions, Current(input.positions)) + AlertEvents(input.positions, warnPct)
  }

  function LastEvents(s: Stream, input: Input): seq<Event>
    requires input.Snapshot?
  {
    var cur, now := CurrentOrders(input.orders), Current(input.positions);
    PlacedEvents(s.orders, cur) + RemovedEvents(s.orders, cur, now, now) + BalanceEvents(s.balance, input.balance)
    + (if (s.cycle + 1) % 12 == 0 then [Heartbeat(s.cycle + 1)] else [])
  }

  function PollStep(s: Stream, k: Sink, ts: string, input: Input, warnPct: real): (Stream, Sink) {
    if input.Unreadable? then (s.(cycle := s.cycle + 1), Emit(k, ts, [ErrorEvent(s.cycle + 1)]).sink)
    else
      var first := Emit(k, ts, FirstEvents(s, input, warnPct));
      if first.threw then (s.(cycle := s.cycle + 1), Emit(first.sink, ts, [ErrorEvent(s.cycle + 1)]).sink)
      else (Stream(Current(input.positions), CurrentOrders(input.orders), Some(input.balance), s.cycle + 1),
            Emit(first.sink, ts, LastEvents(s, input)).sink)
  }

  lemma {:induction false} EmitConcat(k: Sink, ts: string, a: seq<Event>, b: seq<Event>)
    ensures Emit(k, ts, a + b) == if Emit(k, ts, a).threw then Emit(k, ts, a) else Emit(Emit(k, ts, a).sink, ts, b)
  {
    hide OnEvent, Throws;
    if b == [] {
      assert a + b == a;
    } else {
      assert (a + b)[..|a + b| - 1] == a + b[..|b| - 1];
      EmitConcat(k, ts, a, b[..|b| - 1]);
    }
  }

  lemma EmitOne(k: Sink, ts: string, e: Event)
    ensures Emit(k, ts, [e]) == Emission(OnEvent(k, ts, e), Throws(k, e))
  {
    assert [e][..0] == [];
  }
}
