/** The stream and the logger as the source runs them: closures over variables they reassign. */
module EventStreamRunner {
  import opened Prelude
  import opened EventStream

  /** attachPositionLogger's closure, or the bare callback when it is not attached. */
  class Callback {
    const attached: bool
    const numeric: string -> bool
    var openPositions: map<string, Tracked>
    var log: seq<Record>
    var nextId: nat
    var forwarded: seq<Event>

    constructor (attached: bool, numeric: string -> bool)
      ensures State() == Sink(attached, numeric, map[], [], 0, [])
    {
      this.attached, this.numeric := attached, numeric;
      openPositions, log, nextId, forwarded := map[], [], 0, [];
    }

    function State(): Sink
      reads this
    {
      Sink(attached, numeric, openPositions, log, nextId, forwarded)
    }

    method GenId() returns (id: nat)
      modifies this`nextId
      ensures id == old(nextId) && nextId == old(nextId) + 1
    {
      id := nextId;
      nextId := nextId + 1;
    }

    method OnEvent(ts: string, e: Event) returns (threw: bool)
      modifies this
      ensures State() == EventStream.OnEvent(old(State()), ts, e) && threw == Throws(old(State()), e)
    {
      if attached && e.Opened? {
        var id := GenId();
        if e.symbol == "" { return true; }
        if e.pos.side != "long" && e.pos.side != "short" { return true; }
        openPositions := openPositions[e.symbol := Tracked(id, ts, e.pos.entryPrice)];
        log := log + [Record(id, e.symbol, e.pos.side, e.pos.size, e.pos.entryPrice, e.pos.unrealizedPnl, ts, ts,
                             OpenRecord)];
      } else if attached && e.Updated? {
        if e.symbol == "" { return true; }
        if e.pos.side != "long" && e.pos.side != "short" { return true; }
        var id, openedAt := 0, ts;
        if e.symbol in openPositions {
          id, openedAt := openPositions[e.symbol].id, openPositions[e.symbol].openedAt;
        } else {
          id := GenId();
        }
        log := log + [Record(id, e.symbol, e.pos.side, e.pos.size, e.pos.entryPrice, e.pos.unrealizedPnl, openedAt, ts,
                             UpdateRecord)];
      } else if attached && e.Closed? {
        if e.symbol == "" { return true; }
        if e.pos.side != "long" && e.pos.side != "short" { return true; }
        if !numeric(e.pos.unrealizedPnl) { return true; }
        var id, openedAt := 0, ts;
        if e.symbol in openPositions {
          id, openedAt := openPositions[e.symbol].id, openPositions[e.symbol].openedAt;
        } else {
          id := GenId();
        }
        log := log + [Record(id, e.symbol, e.pos.side, e.pos.size, e.pos.entryPrice, e.pos.unrealizedPnl, openedAt, ts,
                             CloseRecord)];
        openPositions := openPositions - {e.symbol};
      }
      forwarded := forwarded + [e];
      return false;
    }
  }

  /** startEventStream's `poll` closure and its variables. */
  class Poller {
    const callback: Callback
    const warnPct: real
    var prevPositions: Positions
    var prevOrders: Orders
    var prevBalance: Option<Balance>
    var cycle: nat

    constructor (callback: Callback, warnPct: real)
      ensures this.callback == callback && this.warnPct == warnPct && State() == Stream([], [], None, 0)
    {
      this.callback, this.warnPct := callback, warnPct;
      prevPositions, prevOrders, prevBalance, cycle := [], [], None, 0;
    }

    function State(): Stream
      reads this
    {
      Stream(prevPositions, prevOrders, prevBalance, cycle)
    }

    method EmitOpen(ts: string, sym: string, pos: Pos) returns (threw: bool)
      modifies callback
      ensures Emit(old(callback.State()), ts, EntryEvent(prevPositions, sym, pos)) == Emission(callback.State(), threw)
    {
      hide EventStream.OnEvent, Throws, Emit, Get;
      NoEvents(callback.State(), ts);
      threw := false;
      var prev := Get(prevPositions, sym);
      if prev.None? {
        EmitOne(callback.State(), ts, Opened(sym, pos));
        threw := callback.OnEvent(ts, Opened(sym, pos));
      } else if prev.value.size != pos.size || prev.value.side != pos.side {
        EmitOne(callback.State(), ts, Updated(sym, pos, prev.value.size, prev.value.side));
        threw := callback.OnEvent(ts, Updated(sym, pos, prev.value.size, prev.value.side));
      }
    }

    method EmitOpens(ts: string, current: Positions) returns (threw: bool)
      modifies callback
      ensures Emit(old(callback.State()), ts, OpenEvents(prevPositions, current)) == Emission(callback.State(), threw)
    {
      ghost var k := callback.State();
      ghost var prevs := prevPositions;
      NoEvents(k, ts);
      assert current[..0] == [] && OpenEvents(prevs, []) == [];
      hide Callback.State, EventStream.OnEvent, Throws, EntryEvent, OpenEvents, Emit;
      threw := false;
      var i := 0;
      while i < |current|
        invariant 0 <= i <= |current|
        invariant Emit(k, ts, OpenEvents(prevs, current[..i])) == Emission(callback.State(), false)
      {
        NextOpen(prevs, current, i);
        EmitConcat(k, ts, OpenEvents(prevs, current[..i]), EntryEvent(prevs, current[i].0, current[i].1));
        threw := EmitOpen(ts, current[i].0, current[i].1);
        i := i + 1;
        if threw {
          OpenPrefix(prevs, current, i);
          EmitPrefix(k, ts, OpenEvents(prevs, current[..i]), OpenEvents(prevs, current));
          return;
        }
      }
      assert current[..i] == current;
      threw := false;
    }

    method EmitClose(ts: string, current: Positions, sym: string, prev: Pos) returns (threw: bool)
      modifies callback
      ensures Emit(old(callback.State()), ts, GoneEvent(current, sym, prev)) == Emission(callback.State(), threw)
    {
      hide EventStream.OnEvent, Throws, Emit, Get;
      NoEvents(callback.State(), ts);
      EmitOne(callback.State(), ts, Closed(sym, prev));
      threw := false;
      if Get(current, sym).None? {
        threw := callback.OnEvent(ts, Closed(sym, prev));
      }
    }

    method EmitCloses(ts: string, current: Positions) returns (threw: bool)
      modifies callback
      ensures Emit(old(callback.State()), ts, CloseEvents(prevPositions, current)) == Emission(callback.State(), threw)
    {
      ghost var k := callback.State();
      var prevs := prevPositions;
      NoEvents(k, ts);
      assert prevs[..0] == [] && CloseEvents([], current) == [];
      hide Callback.State, EventStream.OnEvent, Throws, GoneEvent, CloseEvents, Emit;
      threw := false;
      var i := 0;
      while i < |prevs|
        invariant 0 <= i <= |prevs|
        invariant Emit(k, ts, CloseEvents(prevs[..i], current)) == Emission(callback.State(), false)
      {
        NextClose(prevs, current, i);
        EmitConcat(k, ts, CloseEvents(prevs[..i], current), GoneEvent(current, prevs[i].0, prevs[i].1));
        threw := EmitClose(ts, current, prevs[i].0, prevs[i].1);
        i := i + 1;
        if threw {
          ClosePrefix(prevs, current, i);
          EmitPrefix(k, ts, CloseEvents(prevs[..i], current), CloseEvents(prevs, current));
          return;
        }
      }
      assert prevs[..i] == prevs;
      threw := false;
    }

    method EmitAlert(ts: string, p: Position)
      modifies callback
      ensures Emit(old(callback.State()), ts, AlertEvent(p, warnPct)) == Emission(callback.State(), false)
    {
      hide Emit, DistancePct;
      NoEvents(callback.State(), ts);
      EmitOne(callback.State(), ts, Alert(p.symbol, true));
      EmitOne(callback.State(), ts, Alert(p.symbol, false));
      if p.liquidation.At? && p.mark.Some? && p.mark.value > 0.0 && p.liquidation.price > 0.0 {
        var distance := DistancePct(p.mark.value, p.liquidation.price);
        if distance < 3.0 {
          var _ := callback.OnEvent(ts, Alert(p.symbol, true));
        } else if distance < warnPct {
          var _ := callback.OnEvent(ts, Alert(p.symbol, false));
        }
      }
    }

    method EmitAlerts(ts: string, positions: seq<Position>)
      modifies callback
      ensures Emit(old(callback.State()), ts, AlertEvents(positions, warnPct)) == Emission(callback.State(), false)
    {
      ghost var k := callback.State();
      NoEvents(k, ts);
      assert positions[..0] == [] && AlertEvents([], warnPct) == [];
      hide Callback.State, EventStream.OnEvent, AlertEvent, AlertEvents, Emit;
      var i := 0;
      while i < |positions|
        invariant 0 <= i <= |positions|
        invariant Emit(k, ts, AlertEvents(positions[..i], warnPct)) == Emission(callback.State(), false)
      {
        NextAlert(positions, warnPct, i);
        EmitConcat(k, ts, AlertEvents(positions[..i], warnPct), AlertEvent(positions[i], warnPct));
        EmitAlert(ts, positions[i]);
        i := i + 1;
      }
      assert positions[..i] == positions;
    }

    method EmitPlaced(ts: string, current: Orders)
      modifies callback
      ensures Emit(old(callback.State()), ts, PlacedEvents(prevOrders, current)) == Emission(callback.State(), false)
    {
      ghost var k := callback.State();
      NoEvents(k, ts);
      assert current[..0] == [] && PlacedEvents(prevOrders, []) == [];
      hide Callback.State, EventStream.OnEvent, Get, PlacedEvents, Emit;
      var i := 0;
      while i < |current|
        invariant 0 <= i <= |current|
        invariant Emit(k, ts, PlacedEvents(prevOrders, current[..i])) == Emission(callback.State(), false)
      {
        ghost var done := PlacedEvents(prevOrders, current[..i]);
        NextPlaced(prevOrders, current, i);
        if Get(prevOrders, current[i].0).None? {
          EmitNext(k, ts, done, OrderPlaced(current[i].1));
          var _ := callback.OnEvent(ts, OrderPlaced(current[i].1));
        }
        i := i + 1;
      }
      assert current[..i] == current;
    }

    method EmitRemoved(ts: string, current: Orders, currentPositions: Positions)
      modifies callback
      ensures Emit(old(callback.State()), ts, RemovedEvents(prevOrders, current, currentPositions, prevPositions))
              == Emission(callback.State(), false)
    {
      ghost var k := callback.State();
      NoEvents(k, ts);
      assert prevOrders[..0] == [] && RemovedEvents([], current, currentPositions, prevPositions) == [];
      hide Callback.State, EventStream.OnEvent, Get, RemovedEvents, Emit;
      var i := 0;
      while i < |prevOrders|
        invariant 0 <= i <= |prevOrders|
        invariant Emit(k, ts, RemovedEvents(prevOrders[..i], current, currentPositions, prevPositions))
                  == Emission(callback.State(), false)
      {
        ghost var done := RemovedEvents(prevOrders[..i], current, currentPositions, prevPositions);
        var (id, prev) := prevOrders[i];
        NextRemoved(prevOrders, current, currentPositions, prevPositions, i);
        if Get(current, id).None? {
          var posChanged := SizeOf(currentPositions, prev.symbol) != SizeOf(prevPositions, prev.symbol);
          var e := if posChanged then OrderFilled(prev) else OrderCancelled(prev);
          EmitNext(k, ts, done, e);
          var _ := callback.OnEvent(ts, e);
        }
        i := i + 1;
      }
      assert prevOrders[..i] == prevOrders;
    }

    method EmitBalance(ts: string, balance: Balance)
      modifies callback
      ensures Emit(old(callback.State()), ts, BalanceEvents(prevBalance, balance)) == Emission(callback.State(), false)
    {
      EmitOne(callback.State(), ts, BalanceUpdate);
      if prevBalance.Some? {
        var prev := prevBalance.value;
        if balance.equity.Some? && balance.available.Some? && prev.equity.Some? && prev.available.Some? {
          var equityDelta := Abs(balance.equity.value - prev.equity.value);
          var availDelta := Abs(balance.available.value - prev.available.value);
          if equityDelta > 0.01 || availDelta > 0.01 {
            var _ := callback.OnEvent(ts, BalanceUpdate);
          }
        }
      }
    }

    method EmitHeartbeat(ts: string)
      modifies callback
      ensures Emit(old(callback.State()), ts, if cycle % 12 == 0 then [Heartbeat(cycle)] else [])
              == Emission(callback.State(), false)
    {
      EmitOne(callback.State(), ts, Heartbeat(cycle));
      if cycle % 12 == 0 {
        var _ := callback.OnEvent(ts, Heartbeat(cycle));
      }
    }

    method Poll(ts: string, input: Input)
      modifies this, callback
      ensures (State(), callback.State()) == PollStep(old(State()), old(callback.State()), ts, input, warnPct)
    {
      hide PositionEvents, AlertEvents, PlacedEvents, RemovedEvents, BalanceEvents, Emit, Current, CurrentOrders;
      cycle := cycle + 1;
      var failed := true;
      if input.Snapshot? {
        failed := PollPositions(ts, input);
        if !failed { PollRest(ts, input); }
      }
      if failed {
        EmitOne(callback.State(), ts, ErrorEvent(cycle));
        var _ := callback.OnEvent(ts, ErrorEvent(cycle));
      }
    }

    /** The `try` block up to where prevPositions is replaced; true when the callback threw. */
    method PollPositions(ts: string, input: Input) returns (threw: bool)
      requires input.Snapshot? && cycle > 0
      modifies this, callback
      ensures prevOrders == old(prevOrders) && prevBalance == old(prevBalance) && cycle == old(cycle)
      ensures prevPositions == if threw then old(prevPositions) else Current(input.positions)
      ensures Emit(old(callback.State()), ts, FirstEvents(old(State()), input, warnPct))
              == Emission(callback.State(), threw)
    {
      hide EventStream.OnEvent, Throws, Emit, OpenEvents, CloseEvents, AlertEvents;
      ghost var k := callback.State();
      var currentPositions: Positions := [];
      var i := 0;
      while i < |input.positions|
        invariant 0 <= i <= |input.positions|
        invariant currentPositions == Current(input.positions[..i])
      {
        assert input.positions[..i + 1][..i] == input.positions[..i];
        currentPositions := Put(currentPositions, input.positions[i].symbol, PosOf(input.positions[i]));
        i := i + 1;
      }
      assert input.positions[..i] == input.positions;
      ghost var opens, closes, alerts := OpenEvents(prevPositions, currentPositions),
        CloseEvents(prevPositions, currentPositions), AlertEvents(input.positions, warnPct);
      EmitConcat(k, ts, opens, closes);
      EmitConcat(k, ts, opens + closes, alerts);

      threw := EmitOpens(ts, currentPositions);
      if threw { return; }
      threw := EmitCloses(ts, currentPositions);
      if threw { return; }
      EmitAlerts(ts, input.positions);
      prevPositions := currentPositions;
    }

    /** The rest of the `try` block. */
    method PollRest(ts: string, input: Input)
      requires input.Snapshot? && cycle > 0 && prevPositions == Current(input.positions)
      modifies this, callback
      ensures State() == Stream(Current(input.positions), CurrentOrders(input.orders), Some(input.balance), old(cycle))
      ensures callback.State()
              == Emit(old(callback.State()), ts, LastEvents(old(State()).(cycle := old(cycle) - 1), input)).sink
    {
      hide EventStream.OnEvent, Throws, Emit, PlacedEvents, RemovedEvents, BalanceEvents, Current;
      ghost var first := callback.State();
      var currentOrders: Orders := [];
      var i := 0;
      while i < |input.orders|
        invariant 0 <= i <= |input.orders|
        invariant currentOrders == CurrentOrders(input.orders[..i])
      {
        assert input.orders[..i + 1][..i] == input.orders[..i];
        currentOrders := Put(currentOrders, input.orders[i].id, input.orders[i]);
        i := i + 1;
      }
      assert input.orders[..i] == input.orders;
      ghost var placed, removed := PlacedEvents(prevOrders, currentOrders),
        RemovedEvents(prevOrders, currentOrders, prevPositions, prevPositions);
      ghost var balances := BalanceEvents(prevBalance, input.balance);
      ghost var beats := if cycle % 12 == 0 then [Heartbeat(cycle)] else [];
      EmitConcat(first, ts, placed, removed);
      EmitConcat(first, ts, placed + removed, balances);
      EmitConcat(first, ts, placed + removed + balances, beats);

      EmitPlaced(ts, currentOrders);
      EmitRemoved(ts, currentOrders, prevPositions);
      prevOrders := currentOrders;
      EmitBalance(ts, input.balance);
      prevBalance := Some(input.balance);
      EmitHeartbeat(ts);
    }
  }

  lemma EmitNext(k: Sink, ts: string, done: seq<Event>, e: Event)
    requires !Emit(k, ts, done).threw
    ensures Emit(k, ts, done + [e])
            == Emission(EventStream.OnEvent(Emit(k, ts, done).sink, ts, e), Throws(Emit(k, ts, done).sink, e))
  {
    assert (done + [e])[..|done|] == done;
  }

  lemma EmitPrefix(k: Sink, ts: string, a: seq<Event>, es: seq<Event>)
    requires a <= es && Emit(k, ts, a).threw
    ensures Emit(k, ts, es) == Emit(k, ts, a)
  {
    assert es == a + es[|a|..];
    EmitConcat(k, ts, a, es[|a|..]);
  }

  lemma {:induction false} OpenPrefix(prev: Positions, cur: Positions, i: nat)
    requires i <= |cur|
    ensures OpenEvents(prev, cur[..i]) <= OpenEvents(prev, cur)
  {
    if i < |cur| {
      assert cur[..|cur| - 1][..i] == cur[..i];
      OpenPrefix(prev, cur[..|cur| - 1], i);
    } else {
      assert cur[..i] == cur;
    }
  }

  lemma NoEvents(k: Sink, ts: string)
    ensures Emit(k, ts, []) == Emission(k, false)
  {
  }

  lemma NextAlert(ps: seq<Position>, warnPct: real, i: nat)
    requires i < |ps|
    ensures AlertEvents(ps[..i + 1], warnPct) == AlertEvents(ps[..i], warnPct) + AlertEvent(ps[i], warnPct)
  {
    assert ps[..i + 1][..i] == ps[..i];
  }

  lemma NextPlaced(prev: Orders, cur: Orders, i: nat)
    requires i < |cur|
    ensures PlacedEvents(prev, cur[..i + 1])
            == if Get(prev, cur[i].0).None? then PlacedEvents(prev, cur[..i]) + [OrderPlaced(cur[i].1)]
              else PlacedEvents(prev, cur[..i])
  {
    assert cur[..i + 1][..i] == cur[..i];
    assert PlacedEvents(prev, cur[..i]) + [] == PlacedEvents(prev, cur[..i]);
  }

  lemma NextRemoved(prev: Orders, cur: Orders, now: Positions, before: Positions, i: nat)
    requires i < |prev|
    ensures RemovedEvents(prev[..i + 1], cur, now, before)
            == if Get(cur, prev[i].0).None?
              then RemovedEvents(prev[..i], cur, now, before) + [RemovedEvent(cur, now, before, prev[i].1)]
               else RemovedEvents(prev[..i], cur, now, before)
  {
    assert prev[..i + 1][..i] == prev[..i];
    assert RemovedEvents(prev[..i], cur, now, before) + [] == RemovedEvents(prev[..i], cur, now, before);
  }

  lemma NextClose(prev: Positions, cur: Positions, i: nat)
    requires i < |prev|
    ensures CloseEvents(prev[..i + 1], cur) == CloseEvents(prev[..i], cur) + GoneEvent(cur, prev[i].0, prev[i].1)
  {
    assert prev[..i + 1][..i] == prev[..i];
  }

  lemma NextOpen(prev: Positions, cur: Positions, i: nat)
    requires i < |cur|
    ensures OpenEvents(prev, cur[..i + 1]) == OpenEvents(prev, cur[..i]) + EntryEvent(prev, cur[i].0, cur[i].1)
  {
    assert cur[..i + 1][..i] == cur[..i];
  }

  lemma {:induction false} ClosePrefix(prev: Positions, cur: Positions, i: nat)
    requires i <= |prev|
    ensures CloseEvents(prev[..i], cur) <= CloseEvents(prev, cur)
  {
    if i < |prev| {
      assert prev[..|prev| - 1][..i] == prev[..i];
      ClosePrefix(prev[..|prev| - 1], cur, i);
    } else {
      assert prev[..i] == prev;
    }
  }
}
