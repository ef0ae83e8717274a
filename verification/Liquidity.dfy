/** src/liquidity.ts: the order-book walk of computeExecutableSize and the sizing of
    checkArbLiquidity, with prices and sizes as reals. */
module Liquidity {
  import opened Prelude

  datatype Level = Level(price: real, size: real)

  datatype LiquidityCheck = LiquidityCheck(
    maxSize: real, avgFillPrice: real, slippagePct: real, depthUsd: real, canFillFull: bool, recommendedSize: real)

  predicate IsAscending(levels: seq<Level>)
    requires levels != []
  {
    |levels| < 2 || levels[1].price >= levels[0].price
  }

  /** The price leaves the slippage band around the best price. */
  predicate OutOfBand(levels: seq<Level>, pct: real, price: real)
    requires levels != []
  {
    if IsAscending(levels) then price > levels[0].price * (1.0 + pct / 100.0)
    else price < levels[0].price * (1.0 - pct / 100.0)
  }

  /** The loop's variables: base and notional filled, notional of the levels looked at. */
  datatype Walk = Walk(size: real, notional: real, depth: real)

  predicate Stops(levels: seq<Level>, pct: real, requested: real, w: Walk, level: Level)
    requires levels != []
  {
    (w.size > 0.0 && OutOfBand(levels, pct, level.price)) || requested - w.notional <= 0.0
  }

  /** What the loop takes from a level it does not stop at: all of it, or what is still requested. */
  function TakeLevel(requested: real, w: Walk, level: Level): Walk {
    var levelUsd, remaining := level.price * level.size, requested - w.notional;
    if levelUsd <= remaining then Walk(w.size + level.size, w.notional + levelUsd, w.depth + levelUsd)
    else if level.price == 0.0 then w
    else Walk(w.size + remaining / level.price, w.notional + remaining, w.depth + levelUsd)
  }

  function WalkFrom(levels: seq<Level>, pct: real, requested: real, i: nat, w: Walk): Walk
    decreases |levels| - i
  {
    if i >= |levels| then w
    else if Stops(levels, pct, requested, w, levels[i]) then w.(depth := w.depth + levels[i].price * levels[i].size)
    else WalkFrom(levels, pct, requested, i + 1, TakeLevel(requested, w, levels[i]))
  }

  function Report(levels: seq<Level>, requested: real, w: Walk): LiquidityCheck
    requires levels != []
  {
    var best := levels[0].price;
    var avg := if w.size > 0.0 then w.notional / w.size else best;
    LiquidityCheck(w.size, avg, Abs(if best > 0.0 then (avg - best) / best * 100.0 else 0.0), w.depth,
                   w.notional >= requested * 0.95, w.size * 0.9)
  }

  function Executable(levels: seq<Level>, requested: real, pct: real): LiquidityCheck {
    if levels == [] then LiquidityCheck(0.0, 0.0, 0.0, 0.0, false, 0.0)
    else Report(levels, requested, WalkFrom(levels, pct, requested, 0, Walk(0.0, 0.0, 0.0)))
  }

  method ComputeExecutableSize(levels: seq<Level>, requestedSizeUsd: real, maxSlippagePct: real)
      returns (c: LiquidityCheck)
    ensures c == Executable(levels, requestedSizeUsd, maxSlippagePct)
  {
    if |levels| == 0 { return LiquidityCheck(0.0, 0.0, 0.0, 0.0, false, 0.0); }
    ghost var goal := WalkFrom(levels, maxSlippagePct, requestedSizeUsd, 0, Walk(0.0, 0.0, 0.0));
    hide Report, TakeLevel, Stops;
    var w := Walk(0.0, 0.0, 0.0);
    var i := 0;
    while i < |levels|
      invariant 0 <= i <= |levels|
      invariant WalkFrom(levels, maxSlippagePct, requestedSizeUsd, i, w) == goal
    {
      if Stops(levels, maxSlippagePct, requestedSizeUsd, w, levels[i]) {
        w := w.(depth := w.depth + levels[i].price * levels[i].size);
        break;
      }
      w := TakeLevel(requestedSizeUsd, w, levels[i]);
      i := i + 1;
    }
    c := Report(levels, requestedSizeUsd, w);
  }

  // ── checkArbLiquidity: both sides of an arbitrage entry ──

  datatype ArbCheck = ArbCheck(viable: bool, adjustedSizeUsd: real, longSlippage: real, shortSlippage: real)

  /** The gap between two best prices is over 2% of the lower one (a zero price divides to infinity, or to NaN). */
  predicate WideGap(ask: real, bid: real) {
    var low := Min(ask, bid);
    if low > 0.0 then Abs(ask - bid) / low * 100.0 > 2.0 else low == 0.0 && Abs(ask - bid) > 0.0
  }

  function Arb(asks: seq<Level>, bids: seq<Level>, sizeUsd: real, pct: real): ArbCheck {
    var long, short := Executable(asks, sizeUsd, pct), Executable(bids, sizeUsd, pct);
    var usd := Min(long.recommendedSize * long.avgFillPrice, short.recommendedSize * short.avgFillPrice);
    if asks != [] && bids != [] && WideGap(asks[0].price, bids[0].price)
      then ArbCheck(false, 0.0, long.slippagePct, short.slippagePct)
    else if usd < sizeUsd * 0.2 then ArbCheck(false, 0.0, long.slippagePct, short.slippagePct)
    else ArbCheck(true, Min(sizeUsd, usd), long.slippagePct, short.slippagePct)
  }
}
