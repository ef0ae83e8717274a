/** The exchange a plan runs against, and src/bot/perp-order.ts's verified reduce-only close.

    The venue is any function from what happened so far and the next call to a reply. `Honest`
    says what placePerpVerified's header promises of such a reply and nothing more: a measured fill
    is positive and at most the size asked for, a reduce-only order fills at most the open
    position, a definite failure moved nothing. An unknown outcome may have moved anything. */
module Venue {
  import opened Prelude
  import opened Errors

  datatype Side = Buy | Sell

  function Opposite(s: Side): Side {
    if s == Buy then Sell else Buy
  }

  /** `q` as a change of the net position. */
  function Signed(s: Side, q: real): real {
    if s == Buy then q else -q
  }

  datatype LivePosition = LivePosition(symbol: string, signed: real, decimals: nat)

  datatype Call =
    | Place(symbol: string, side: Side, size: real, reduceOnly: bool)
    | Rest(symbol: string, side: Side, size: real, isStop: bool)
    | Cancel(symbol: string, orderId: string)
    | CancelAll(symbol: string)
    | SetLeverage(symbol: string)
    | ReadNet(symbol: string)
    | FindPosition(symbol: string)
    | ReadBalance(symbol: string)

  /** `moved` is what the venue hides: the signed change of the call's market that the reply does not report. */
  datatype Reply =
    | Filled(qty: real)
    | Rested(orderId: Option<string>, moved: real)
    | Done
    | Net(signed: real)
    | Found(position: Option<LivePosition>)
    | Balance(available: real)
    | Threw(err: Thrown, moved: real)

  /** A call, the plan step it was made for, and whether it was made to undo that step. */
  datatype Event = Event(step: nat, undo: bool, call: Call, reply: Reply)

  datatype World = World(pos: map<string, real>, log: seq<Event>)

  type Env = (World, Call) -> Reply

  /** symbolMatch: "BTC" and "BTC-PERP", in any case, are one market. */
  function Market(symbol: string): string {
    var u := Upper(symbol);
    if |u| >= 5 && u[|u| - 5..] == "-PERP" then u[..|u| - 5] else u
  }

  function Pos(w: World, symbol: string): real {
    if Market(symbol) in w.pos then w.pos[Market(symbol)] else 0.0
  }

  /** Open size a reduce-only order on `side` can close. */
  function OpenFor(side: Side, signed: real): real {
    if side == Sell then Max(signed, 0.0) else Max(-signed, 0.0)
  }

  function Moved(c: Call, r: Reply): real {
    match r
    case Filled(q) => if c.Place? then Signed(c.side, q) else 0.0
    case Rested(_, m) => m
    case Threw(_, m) => m
    case _ => 0.0
  }

  function Apply(w: World, e: Event): World {
    var m := Market(e.call.symbol);
    World(w.pos[m := Pos(w, e.call.symbol) + Moved(e.call, e.reply)], w.log + [e])
  }

  function Send(env: Env, w: World, step: nat, undo: bool, c: Call): (World, Reply) {
    (Apply(w, Event(step, undo, c, env(w, c))), env(w, c))
  }

  ghost predicate Admissible(w: World, c: Call, r: Reply) {
    && (r.Threw? && ((!c.Place? && !c.Rest?) || IsDefiniteOrderFailure(r.err)) ==> r.moved == 0.0)
    && match c
       case Place(sym, side, size, reduceOnly) =>
         || (r.Filled? && 0.0 < r.qty <= size && (reduceOnly ==> r.qty <= OpenFor(side, Pos(w, sym))))
         || (r.Threw? && (IsDefiniteOrderFailure(r.err) || IsOutcomeUnknown(r.err)))
       case Rest(_, _, _, _) => r.Rested? || r.Threw?
       case ReadNet(sym) => (r.Net? && r.signed == Pos(w, sym)) || r.Threw?
       case FindPosition(sym) =>
         || (r.Found? && (r.position.Some? ==>
              var lp := r.position.value;
              Market(lp.symbol) == Market(sym) && lp.signed == Pos(w, sym) && lp.signed != 0.0))
         || r.Threw?
       case ReadBalance(_) => r.Balance? || r.Threw?
       case _ => r.Done? || r.Threw?
  }

  ghost predicate Honest(env: Env) {
    forall w: World, c: Call :: Admissible(w, c, env(w, c))
  }

  // ── What a log moved ──

  /** Signed quantity the events of `step` moved on `market`. */
  function NetOf(log: seq<Event>, step: nat, market: string): real {
    if log == [] then 0.0
    else NetOf(log[..|log| - 1], step, market) + MovedOn(log[|log| - 1], step, market)
  }

  function MovedOn(e: Event, step: nat, market: string): real {
    if e.step == step && Market(e.call.symbol) == market then Moved(e.call, e.reply) else 0.0
  }

  lemma NetOfAppend(log: seq<Event>, e: Event, step: nat, market: string)
    ensures NetOf(log + [e], step, market) == NetOf(log, step, market) + MovedOn(e, step, market)
  {
    assert (log + [e])[..|log|] == log;
  }

  /** Events that move nothing on `market` for `step` leave its net alone. */
  lemma {:induction false} NetOfUnmoved(log: seq<Event>, from: nat, step: nat, market: string)
    requires from <= |log| && forall k :: from <= k < |log| ==> MovedOn(log[k], step, market) == 0.0
    ensures NetOf(log, step, market) == NetOf(log[..from], step, market)
    decreases |log|
  {
    if from == |log| {
      assert log[..from] == log;
    } else {
      var init := log[..|log| - 1];
      assert init[..from] == log[..from];
      NetOfUnmoved(init, from, step, market);
    }
  }

  // ── fillSizeString ──

  /** `filled` floored to `decimals` places, as the number the size string denotes. */
  function FillSize(filled: real, decimals: nat): real {
    FillUnits(filled, decimals) as real * Unit(decimals)
  }

  function FillUnits(filled: real, decimals: nat): int {
    (filled * Pow10(decimals) + 0.000000001).Floor
  }

  lemma ScaleBack(x: real, f: real, u: real)
    requires f * u == 1.0
    ensures (x * f) * u == x
  {
    assert (x * f) * u == x * (f * u);
  }

  lemma FloorScaled(x: real, a: real, u: real, n: real, eps: real)
    requires a * u == x && u > 0.0 && 0.0 < eps < 1.0
    requires n <= a + eps < n + 1.0
    ensures x < n * u + u
    ensures n * u <= x + eps * u
    ensures a >= 0.0 && n >= 0.0 ==> n * u >= 0.0
  {
    MulMono(n, a + eps, u);
    assert (a + eps) * u == a * u + eps * u;
    MulMono(a, n + 1.0 - eps, u);
    assert (n + 1.0 - eps) * u == n * u + u - eps * u;
    var slack := eps * u;
    assert slack > 0.0;
    assert x <= n * u + u - slack;
    if n >= 0.0 { MulNonNeg(n, u); }
  }

  lemma FillUnitsBound(x: real, d: nat) returns (a: real)
    ensures a * Unit(d) == x
    ensures FillUnits(x, d) as real <= a + 0.000000001 < FillUnits(x, d) as real + 1.0
    ensures x >= 0.0 ==> a >= 0.0 && FillUnits(x, d) >= 0
  {
    a := x * Pow10(d);
    UnitInverse(d);
    ScaleBack(x, Pow10(d), Unit(d));
    if x >= 0.0 { MulNonNeg(x, Pow10(d)); }
  }

  lemma FillSizeBelow(x: real, d: nat)
    ensures x < FillSize(x, d) + Unit(d)
    ensures FillSize(x, d) <= x + 0.000000001 * Unit(d)
    ensures x >= 0.0 ==> FillSize(x, d) >= 0.0
  {
    hide FillUnits, Unit;
    var a := FillUnitsBound(x, d);
    FloorScaled(x, a, Unit(d), FillUnits(x, d) as real, 0.000000001);
  }

  // ── closePerpVerified ──

  datatype CloseResult = Closed(closed: real, residual: real, note: bool) | CloseThrew(err: Thrown)

  predicate FilledInFull(closed: real, size: real) {
    closed >= size * (1.0 - 0.000001)
  }

  function ResidualOf(side: Side, size: real, closed: real, signed: real, dec: nat): real {
    FillSize(Min(size - closed, OpenFor(side, signed)), dec)
  }

  /** The residual after a close that left `size - closed`, from a fresh position read. */
  function ReadResidual(env: Env, w: World, step: nat, undo: bool, symbol: string, side: Side, size: real, closed: real,
      dec: nat): (World, CloseResult) {
    var (w1, r) := Send(env, w, step, undo, ReadNet(symbol));
    if r.Net? then
      var res := ResidualOf(side, size, closed, r.signed, dec);
      (w1, Closed(closed, res, res > 0.0))
    else (w1, Closed(closed, FillSize(size - closed, dec), true))
  }

  function ClosePerp(env: Env, w: World, step: nat, undo: bool, symbol: string, side: Side, size: real,
      dec: nat): (World, CloseResult) {
    var (w1, first) := Send(env, w, step, undo, Place(symbol, side, size, true));
    if !first.Filled? then (w1, CloseThrew(if first.Threw? then first.err else Untyped(Primitive)))
    else if FilledInFull(first.qty, size) then (w1, Closed(first.qty, 0.0, false))
    else
      var (w2, c2) := ReadResidual(env, w1, step, undo, symbol, side, size, first.qty, dec);
      if !env(w1, ReadNet(symbol)).Net? then (w2, c2)
      else if !(c2.residual > 0.0) then (w2, Closed(first.qty, 0.0, false))
      else ResidualClose(env, w2, step, undo, symbol, side, size, first.qty, c2.residual, FillSize(c2.residual, dec),
                         dec)
  }

  /** The one residual close of `ask` that follows a partial first close. */
  function ResidualClose(env: Env, w: World, step: nat, undo: bool, symbol: string, side: Side, size: real,
      closed: real, residual: real, ask: real, dec: nat): (World, CloseResult) {
    var (w1, again) := Send(env, w, step, undo, Place(symbol, side, ask, true));
    if !again.Filled? then (w1, Closed(closed, residual, true))
    else if FilledInFull(closed + again.qty, size) then (w1, Closed(closed + again.qty, 0.0, false))
    else ReadResidual(env, w1, step, undo, symbol, side, size, closed + again.qty, dec)
  }

  /** What a close reported without residual may still have left: nothing beyond a millionth,
      or less than one unit of the step's decimals, or the account held no more to close. */
  predicate CloseDone(closed: real, size: real, open: real, dec: nat) {
    || closed * 1000000.0 >= size * 999999.0
    || size - closed < Unit(dec)
    || open < Unit(dec)
  }

  /** From `w` to `w'`: only events of this tag on `symbol` were added, reduce-only orders of `side`
      or reads, and together they moved the symbol's market by `m` and nothing else. */
  ghost predicate ClosingStep(w: World, w': World, step: nat, undo: bool, symbol: string, side: Side, m: real) {
    && |w.log| <= |w'.log| && w'.log[..|w.log|] == w.log
    && (forall k :: |w.log| <= k < |w'.log| ==> ClosingEvent(w'.log[k], step, undo, symbol, side))
    && w'.pos == w.pos[Market(symbol) := Pos(w, symbol) + m]
    && NetOf(w'.log, step, Market(symbol)) == NetOf(w.log, step, Market(symbol)) + m
  }

  predicate ClosingEvent(e: Event, step: nat, undo: bool, symbol: string, side: Side) {
    && e.step == step && e.undo == undo && e.call.symbol == symbol
    && (e.call.ReadNet? || (e.call.Place? && e.call.reduceOnly && e.call.side == side))
  }

  lemma ClosingTrans(w: World, w1: World, w2: World, step: nat, undo: bool, symbol: string, side: Side, m1: real,
      m2: real)
    requires ClosingStep(w, w1, step, undo, symbol, side, m1) && ClosingStep(w1, w2, step, undo, symbol, side, m2)
    ensures ClosingStep(w, w2, step, undo, symbol, side, m1 + m2)
  {
    assert w2.log[..|w.log|] == w2.log[..|w1.log|][..|w.log|];
    forall k | |w.log| <= k < |w2.log| ensures ClosingEvent(w2.log[k], step, undo, symbol, side) {
      if k < |w1.log| { assert w2.log[k] == w2.log[..|w1.log|][k]; }
    }
  }

  lemma SendClosing(env: Env, w: World, step: nat, undo: bool, symbol: string, side: Side, c: Call)
    requires Honest(env) && c.symbol == symbol && (c.ReadNet? || (c.Place? && c.reduceOnly && c.side == side))
    ensures ClosingStep(w, Send(env, w, step, undo, c).0, step, undo, symbol, side, Moved(c, env(w, c)))
    ensures Admissible(w, c, env(w, c))
  {
    var e := Event(step, undo, c, env(w, c));
    assert Admissible(w, c, env(w, c));
    NetOfAppend(w.log, e, step, Market(symbol));
  }

  /** A close's result against what it moved: a residual of 0 means the market moved by exactly
      `closed` and CloseDone; a throw is an unknown outcome or nothing moved. */
  predicate CloseReport(w': World, c: CloseResult, symbol: string, side: Side, size: real, dec: nat, m: real) {
    && (c.Closed? && !(c.residual > 0.0) ==>
          0.0 < c.closed && m == Signed(side, c.closed)
            && CloseDone(c.closed, size, OpenFor(side, Pos(w', symbol)), dec))
    && (c.CloseThrew? ==> IsOutcomeUnknown(c.err) || (IsDefiniteOrderFailure(c.err) && m == 0.0))
  }

  /** One more event after a closing step is a closing step. */
  lemma SendAfter(env: Env, w: World, w1: World, step: nat, undo: bool, symbol: string, side: Side, m: real, c: Call)
      returns (w2: World, m2: real)
    requires Honest(env) && c.symbol == symbol && (c.ReadNet? || (c.Place? && c.reduceOnly && c.side == side))
    requires ClosingStep(w, w1, step, undo, symbol, side, m)
    ensures w2 == Send(env, w1, step, undo, c).0 && m2 == m + Moved(c, env(w1, c))
    ensures ClosingStep(w, w2, step, undo, symbol, side, m2)
    ensures Admissible(w1, c, env(w1, c))
  {
    hide Market, OpenFor;
    SendClosing(env, w1, step, undo, symbol, side, c);
    w2, m2 := Send(env, w1, step, undo, c).0, m + Moved(c, env(w1, c));
    ClosingTrans(w, w1, w2, step, undo, symbol, side, m, Moved(c, env(w1, c)));
  }

  /** What `closed` leaves open when the residual read back is 0. */
  lemma ReadResidualEffect(env: Env, w: World, w1: World, step: nat, undo: bool, symbol: string, side: Side, size: real,
      closed: real, dec: nat)
    requires Honest(env) && 0.0 < closed
    requires ClosingStep(w, w1, step, undo, symbol, side, Signed(side, closed))
    ensures var (w', c) := ReadResidual(env, w1, step, undo, symbol, side, size, closed, dec);
            ClosingStep(w, w', step, undo, symbol, side, Signed(side, closed))
              && CloseReport(w', c, symbol, side, size, dec, Signed(side, closed)) && c.Closed?
  {
    hide FillSize, Market, ClosingStep, FilledInFull;
    var w2, m := SendAfter(env, w, w1, step, undo, symbol, side, Signed(side, closed), ReadNet(symbol));
    FillSizeBelow(size - closed, dec);
    FillSizeBelow(Min(size - closed, OpenFor(side, Pos(w1, symbol))), dec);
  }

  lemma ResidualCloseEffect(env: Env, w: World, w2: World, step: nat, undo: bool, symbol: string, side: Side,
      size: real, closed: real, residual: real, ask: real, dec: nat) returns (m: real)
    requires Honest(env) && 0.0 < closed && residual > 0.0
    requires ClosingStep(w, w2, step, undo, symbol, side, Signed(side, closed))
    ensures var (w', c) := ResidualClose(env, w2, step, undo, symbol, side, size, closed, residual, ask, dec);
            ClosingStep(w, w', step, undo, symbol, side, m) && CloseReport(w', c, symbol, side, size, dec, m)
  {
    hide ClosingStep, CloseReport, Market, FillSize, ReadResidual;
    var more := Place(symbol, side, ask, true);
    var w3, again;
    w3, m := SendAfter(env, w, w2, step, undo, symbol, side, Signed(side, closed), more);
    again := env(w2, more);
    if again.Filled? {
      assert m == Signed(side, closed + again.qty);
      if FilledInFull(closed + again.qty, size) {
        ReportFull(w3, symbol, side, size, dec, closed + again.qty);
      } else {
        ReadResidualEffect(env, w, w3, step, undo, symbol, side, size, closed + again.qty, dec);
      }
    } else {
      ReportResidual(w3, symbol, side, size, dec, closed, residual, m);
    }
  }

  lemma ReportFull(w: World, symbol: string, side: Side, size: real, dec: nat, closed: real)
    requires FilledInFull(closed, size) && closed > 0.0
    ensures CloseReport(w, Closed(closed, 0.0, false), symbol, side, size, dec, Signed(side, closed))
  {
  }

  lemma ReportResidual(w: World, symbol: string, side: Side, size: real, dec: nat, closed: real, residual: real,
      m: real)
    requires residual > 0.0
    ensures CloseReport(w, Closed(closed, residual, true), symbol, side, size, dec, m)
  {
  }

  /** The close as its caller may rely on it: only this step's events on this symbol are added,
      nothing outside its market moves, and the report is true. */
  lemma ClosePerpEffect(env: Env, w: World, step: nat, undo: bool, symbol: string, side: Side, size: real, dec: nat)
      returns (m: real)
    requires Honest(env)
    ensures var (w', c) := ClosePerp(env, w, step, undo, symbol, side, size, dec);
            ClosingStep(w, w', step, undo, symbol, side, m) && CloseReport(w', c, symbol, side, size, dec, m)
  {
    var place := Place(symbol, side, size, true);
    SendClosing(env, w, step, undo, symbol, side, place);
    var (w1, first) := Send(env, w, step, undo, place);
    m := Moved(place, first);
    if first.Filled? && !FilledInFull(first.qty, size) {
      ReadResidualEffect(env, w, w1, step, undo, symbol, side, size, first.qty, dec);
      var (w2, c2) := ReadResidual(env, w1, step, undo, symbol, side, size, first.qty, dec);
      if env(w1, ReadNet(symbol)).Net? && c2.residual > 0.0 {
        m := ResidualCloseEffect(env, w, w2, step, undo, symbol, side, size, first.qty, c2.residual,
                                 FillSize(c2.residual, dec), dec);
      }
    }
  }

  /** A close counts as full when it is at most a millionth short. */
  lemma FilledInFullIff(closed: real, size: real)
    ensures FilledInFull(closed, size) <==> (size - closed) * 1000000.0 <= size
  {
  }

  /** What is still open is reported with a note. A note without it means that the position could not be read at
      the end and that what was left rounds to nothing. */
  lemma ResidualHasNote(env: Env, w: World, step: nat, undo: bool, symbol: string, side: Side, size: real, dec: nat)
    ensures var (w', c) := ClosePerp(env, w, step, undo, symbol, side, size, dec);
            c.Closed? ==>
              && (c.residual > 0.0 ==> c.note)
              && (c.note && c.residual <= 0.0 ==>
                    FillSize(size - c.closed, dec) <= 0.0 && |w'.log| > 0
                    && w'.log[|w'.log| - 1].call == ReadNet(symbol) && !w'.log[|w'.log| - 1].reply.Net?)
  {
    hide FillSize, FilledInFull, Market;
  }

  // ── Markets ──

  /** A symbol and the same with "-perp" after it, in any case, are one market, named in upper case. */
  lemma MarketSpellings(symbol: string)
    requires var u := Upper(symbol); |u| < 5 || u[|u| - 5..] != "-PERP"
    ensures Market(symbol) == Market(symbol + "-PERP") == Market(symbol + "-perp") == Upper(symbol)
    ensures Market(Upper(symbol)) == Market(symbol)
  {
    UpperOfSuffix();
    UpperSum(symbol, "-PERP");
    UpperSum(symbol, "-perp");
    UpperIdempotent(symbol);
  }

  lemma UpperSum(a: string, b: string)
    ensures Upper(a + b) == Upper(a) + Upper(b)
  {
  }

  lemma UpperOfSuffix()
    ensures Upper("-perp") == "-PERP" && Upper("-PERP") == "-PERP"
  {
  }
}
