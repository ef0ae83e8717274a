/** What the walk of a sorted book promises: it fills what the slippage band allows, at the best
    possible average, and asking for more never gets a better price. */
module LiquidityProperties {
  import opened Prelude
  import opened Liquidity

  /** A book side as the venue sends it: positive prices and sizes, strictly away from the best price. */
  ghost predicate Book(levels: seq<Level>) {
    && levels != []
    && (forall k :: 0 <= k < |levels| ==> levels[k].price > 0.0 && levels[k].size > 0.0)
    && ((forall j, k :: 0 <= j < k < |levels| ==> levels[j].price < levels[k].price)
        || (forall j, k :: 0 <= j < k < |levels| ==> levels[j].price > levels[k].price))
  }

  /** Total size and notional of the first `n` levels. */
  function SizeTo(levels: seq<Level>, n: nat): real
    requires n <= |levels|
  {
    if n == 0 then 0.0 else SizeTo(levels, n - 1) + levels[n - 1].size
  }

  function DepthTo(levels: seq<Level>, n: nat): real
    requires n <= |levels|
  {
    if n == 0 then 0.0 else DepthTo(levels, n - 1) + levels[n - 1].price * levels[n - 1].size
  }

  /** Level k may be taken from: the best level always, another while it stays in the band. */
  predicate InBand(levels: seq<Level>, pct: real, k: nat)
    requires k < |levels|
  {
    k == 0 || !OutOfBand(levels, pct, levels[k].price)
  }

  /** A fill in greedy form: levels before k whole, `x` of level k, nothing after. */
  datatype Greedy = Greedy(k: nat, x: real)

  ghost predicate IsGreedy(levels: seq<Level>, g: Greedy) {
    g.k <= |levels| && (if g.k < |levels| then 0.0 <= g.x <= levels[g.k].size else g.x == 0.0)
  }

  function GreedySize(levels: seq<Level>, g: Greedy): real
    requires g.k <= |levels|
  {
    SizeTo(levels, g.k) + g.x
  }

  function GreedyNotional(levels: seq<Level>, g: Greedy): real
    requires g.k <= |levels|
  {
    DepthTo(levels, g.k) + (if g.k < |levels| then levels[g.k].price * g.x else 0.0)
  }

  lemma {:induction false} PrefixPositive(levels: seq<Level>, n: nat)
    requires Book(levels) && n <= |levels|
    ensures SizeTo(levels, n) >= 0.0 && DepthTo(levels, n) >= 0.0
    ensures n > 0 ==> SizeTo(levels, n) > 0.0 && DepthTo(levels, n) > 0.0
  {
    if n > 0 {
      PrefixPositive(levels, n - 1);
      LevelPositive(levels[n - 1].price, levels[n - 1].size);
    }
  }

  lemma LevelPositive(p: real, s: real)
    requires p > 0.0 && s > 0.0
    ensures p * s > 0.0
  {
  }

  /** Why the walk ended: the request is met, the next level is out of band, or the book is empty. */
  ghost predicate Ended(levels: seq<Level>, pct: real, requested: real, g: Greedy)
    requires IsGreedy(levels, g)
  {
    || GreedyNotional(levels, g) == requested || (requested <= 0.0 && g == Greedy(0, 0.0))
    || (GreedyNotional(levels, g) < requested && g.x == 0.0 && (g.k == |levels| || !InBand(levels, pct, g.k)))
  }

  lemma PartialTake(price: real, size: real, remaining: real)
    requires price > 0.0 && 0.0 < remaining < price * size
    ensures 0.0 < remaining / price <= size && price * (remaining / price) == remaining
  {
    var x := remaining / price;
    assert price * x == remaining;
    if x > size { MulMono(size, x, price); }
    if x <= 0.0 { MulMono(x, 0.0, price); }
  }

  lemma TakeWhole(levels: seq<Level>, requested: real, i: nat, depth: real)
    requires i < |levels| && levels[i].price * levels[i].size <= requested - DepthTo(levels, i)
    ensures TakeLevel(requested, Walk(SizeTo(levels, i), DepthTo(levels, i), depth), levels[i])
            == Walk(SizeTo(levels, i + 1), DepthTo(levels, i + 1), depth + levels[i].price * levels[i].size)
  {
  }

  lemma TakePart(levels: seq<Level>, pct: real, requested: real, i: nat, depth: real) returns (g: Greedy)
    requires Book(levels) && i < |levels| && 0.0 < requested - DepthTo(levels, i) < levels[i].price * levels[i].size
    ensures IsGreedy(levels, g) && g.k == i && g.x > 0.0 && GreedyNotional(levels, g) == requested
    ensures var w := WalkFrom(levels, pct, requested, i + 1,
                              TakeLevel(requested, Walk(SizeTo(levels, i), DepthTo(levels, i), depth), levels[i]));
            w.size == GreedySize(levels, g) && w.notional == requested
  {
    hide OutOfBand, WalkFrom;
    var level, remaining := levels[i], requested - DepthTo(levels, i);
    PartialTake(level.price, level.size, remaining);
    g := Greedy(i, remaining / level.price);
    StopsWhenMet(levels, pct, requested, i + 1,
                 TakeLevel(requested, Walk(SizeTo(levels, i), DepthTo(levels, i), depth), level));
  }

  /** From a state in which the first `i` levels are taken whole and more is wanted, the walk ends
      in a greedy fill that took only levels of the band. */
  lemma {:induction false} WalkIsGreedy(levels: seq<Level>, pct: real, requested: real, i: nat, depth: real)
      returns (g: Greedy)
    requires Book(levels) && i <= |levels| && DepthTo(levels, i) <= requested
    requires forall k :: 0 <= k < i ==> InBand(levels, pct, k)
    ensures IsGreedy(levels, g) && Ended(levels, pct, requested, g)
    ensures forall k :: 0 <= k < g.k || (k == g.k && g.x > 0.0) ==> InBand(levels, pct, k)
    ensures var w := WalkFrom(levels, pct, requested, i, Walk(SizeTo(levels, i), DepthTo(levels, i), depth));
            w.size == GreedySize(levels, g) && w.notional == GreedyNotional(levels, g)
    decreases |levels| - i
  {
    hide OutOfBand, TakeLevel;
    var w := Walk(SizeTo(levels, i), DepthTo(levels, i), depth);
    PrefixPositive(levels, i);
    if i == |levels| || Stops(levels, pct, requested, w, levels[i]) {
      g := Greedy(i, 0.0);
      ZeroTimes(levels, i);
    } else if levels[i].price * levels[i].size <= requested - w.notional {
      TakeWhole(levels, requested, i, depth);
      g := WalkIsGreedy(levels, pct, requested, i + 1, depth + levels[i].price * levels[i].size);
    } else {
      g := TakePart(levels, pct, requested, i, depth);
    }
  }

  lemma ZeroTimes(levels: seq<Level>, i: nat)
    requires i <= |levels|
    ensures GreedyNotional(levels, Greedy(i, 0.0)) == DepthTo(levels, i)
  {
    if i < |levels| { assert levels[i].price * 0.0 == 0.0; }
  }

  lemma StopsWhenMet(levels: seq<Level>, pct: real, requested: real, i: nat, w: Walk)
    requires levels != [] && w.notional == requested
    ensures var r := WalkFrom(levels, pct, requested, i, w); r.size == w.size && r.notional == w.notional
  {
  }

  // ── The whole walk ──

  /** Notional the walk fills. */
  function Filled(levels: seq<Level>, requested: real, pct: real): real
    requires levels != []
  {
    WalkFrom(levels, pct, requested, 0, Walk(0.0, 0.0, 0.0)).notional
  }

  /** The greedy fill computeExecutableSize reports. */
  lemma ReportIsGreedy(levels: seq<Level>, requested: real, pct: real) returns (g: Greedy)
    requires Book(levels)
    ensures IsGreedy(levels, g) && Ended(levels, pct, requested, g)
    ensures forall k :: 0 <= k < g.k || (k == g.k && g.x > 0.0) ==> InBand(levels, pct, k)
    ensures Executable(levels, requested, pct).maxSize == GreedySize(levels, g)
    ensures Filled(levels, requested, pct) == GreedyNotional(levels, g)
  {
    hide OutOfBand;
    if requested < 0.0 {
      g := Greedy(0, 0.0);
      ZeroTimes(levels, 0);
    } else {
      g := WalkIsGreedy(levels, pct, requested, 0, 0.0);
    }
  }

  /** The band: beyond the best level, prices at most pct percent of the best price away from it. */
  lemma BandIff(levels: seq<Level>, pct: real, k: nat)
    requires Book(levels) && k < |levels|
    ensures InBand(levels, pct, k)
            <==> k == 0 || Abs(levels[k].price - levels[0].price) * 100.0 <= pct * levels[0].price
  {
    var best, price := levels[0].price, levels[k].price;
    if k > 0 {
      assert IsAscending(levels) <==> levels[0].price < levels[1].price;
      assert best * (1.0 + pct / 100.0) * 100.0 == best * 100.0 + pct * best;
      assert best * (1.0 - pct / 100.0) * 100.0 == best * 100.0 - pct * best;
    }
  }

  /** The report of a book: the filled notional per unit as average, its distance from the best price in
      percent as slippage, and nine tenths of the size as recommendation. */
  lemma ReportIsOfFill(levels: seq<Level>, requested: real, pct: real)
    requires Book(levels)
    ensures var c, filled, best := Executable(levels, requested, pct), Filled(levels, requested, pct), levels[0].price;
            && c.maxSize >= 0.0 && c.recommendedSize * 10.0 == c.maxSize * 9.0
            && (c.maxSize > 0.0 ==> c.avgFillPrice * c.maxSize == filled)
            && (c.maxSize == 0.0 ==> c.avgFillPrice == best)
            && c.slippagePct * best == Abs(c.avgFillPrice - best) * 100.0
  {
    hide OutOfBand, WalkFrom;
    var g := ReportIsGreedy(levels, requested, pct);
    GreedyNonNegative(levels, g);
    var c, best := Executable(levels, requested, pct), levels[0].price;
    PercentOf(c.avgFillPrice, best);
  }

  lemma PercentOf(avg: real, best: real)
    requires best > 0.0
    ensures Abs((avg - best) / best * 100.0) * best == Abs(avg - best) * 100.0
  {
    var q := (avg - best) / best;
    assert q * best == avg - best;
    assert (q * 100.0) * best == (avg - best) * 100.0;
    if q >= 0.0 { MulNonNeg(q, best); } else { MulNonNeg(-q, best); }
  }

  // ── Filled notional = min(requested, depth in the band) ──

  /** How many levels the band holds, from the best. */
  function BandLevels(levels: seq<Level>, pct: real, n: nat): (b: nat)
    requires n <= |levels|
    ensures b <= n && (forall k :: 0 <= k < b ==> InBand(levels, pct, k)) && (b < n ==> !InBand(levels, pct, b))
  {
    if n == 0 then 0
    else
      var b := BandLevels(levels, pct, n - 1);
      if b == n - 1 && InBand(levels, pct, n - 1) then n else b
  }

  lemma {:induction false} DepthMono(levels: seq<Level>, m: nat, n: nat)
    requires Book(levels) && m <= n <= |levels|
    ensures DepthTo(levels, m) <= DepthTo(levels, n) && SizeTo(levels, m) <= SizeTo(levels, n)
    decreases n - m
  {
    if m < n {
      DepthMono(levels, m, n - 1);
      LevelPositive(levels[n - 1].price, levels[n - 1].size);
    }
  }

  lemma GreedyWithin(levels: seq<Level>, g: Greedy, b: nat)
    requires Book(levels) && IsGreedy(levels, g) && b <= |levels| && (g.k < b || (g.k == b && g.x == 0.0))
    ensures GreedyNotional(levels, g) <= DepthTo(levels, b)
  {
    hide OutOfBand;
    ZeroTimes(levels, g.k);
    if g.k < b {
      PartOfLevel(levels, g);
      DepthMono(levels, g.k + 1, b);
    }
  }

  /** A greedy fill is worth its whole levels and part of the next. */
  lemma PartOfLevel(levels: seq<Level>, g: Greedy)
    requires Book(levels) && IsGreedy(levels, g) && g.k < |levels|
    ensures DepthTo(levels, g.k) <= GreedyNotional(levels, g) <= DepthTo(levels, g.k + 1)
    ensures g.x > 0.0 ==> DepthTo(levels, g.k) < GreedyNotional(levels, g)
    ensures g.x < levels[g.k].size ==> GreedyNotional(levels, g) < DepthTo(levels, g.k + 1)
  {
    var p, s := levels[g.k].price, levels[g.k].size;
    var px, ps := p * g.x, p * s;
    assert GreedyNotional(levels, g) == DepthTo(levels, g.k) + px;
    assert DepthTo(levels, g.k + 1) == DepthTo(levels, g.k) + ps;
    PartOf(p, g.x, s, px, ps);
  }

  lemma PartOf(p: real, x: real, s: real, px: real, ps: real)
    requires p > 0.0 && 0.0 <= x <= s && px == p * x && ps == p * s
    ensures 0.0 <= px <= ps && (x > 0.0 ==> px > 0.0) && (x < s ==> px < ps)
  {
    if x > 0.0 { LevelPositive(p, x); }
    if x < s { LevelPositive(p, s - x); assert p * (s - x) == p * s - p * x; }
  }

  lemma GreedyNonNegative(levels: seq<Level>, g: Greedy)
    requires Book(levels) && IsGreedy(levels, g)
    ensures GreedySize(levels, g) >= 0.0 && GreedyNotional(levels, g) >= 0.0
    ensures GreedySize(levels, g) == 0.0 <==> GreedyNotional(levels, g) == 0.0
  {
    PrefixPositive(levels, g.k);
    if g.k < |levels| {
      MulNonNeg(levels[g.k].price, g.x);
      if g.x > 0.0 { LevelPositive(levels[g.k].price, g.x); }
    }
  }

  /** The walk fills exactly the request, or all the depth of the slippage band. */
  lemma FillsRequestOrBand(levels: seq<Level>, requested: real, pct: real)
    requires Book(levels)
    ensures Filled(levels, requested, pct)
            == Min(Max(requested, 0.0), DepthTo(levels, BandLevels(levels, pct, |levels|)))
  {
    hide OutOfBand, WalkFrom;
    var g := ReportIsGreedy(levels, requested, pct);
    var b := BandLevels(levels, pct, |levels|);
    PrefixPositive(levels, b);
    ZeroTimes(levels, g.k);
    assert g.k < b || (g.k == b && g.x == 0.0);
    GreedyWithin(levels, g, b);
    if requested < 0.0 || GreedyNotional(levels, g) == requested {
      GreedyNonNegative(levels, g);
    } else if requested == 0.0 {
      GreedyNonNegative(levels, g);
    } else {
      assert g.k == b;
    }
  }

  // ── Fills, level by level ──

  /** Any per-level fill of the book. */
  ghost predicate Fill(levels: seq<Level>, f: seq<real>) {
    |f| == |levels| && forall k :: 0 <= k < |f| ==> 0.0 <= f[k] <= levels[k].size
  }

  function BaseOf(f: seq<real>, n: nat): real
    requires n <= |f|
  {
    if n == 0 then 0.0 else BaseOf(f, n - 1) + f[n - 1]
  }

  function CostOf(levels: seq<Level>, f: seq<real>, n: nat): real
    requires n <= |f| <= |levels|
  {
    if n == 0 then 0.0 else CostOf(levels, f, n - 1) + levels[n - 1].price * f[n - 1]
  }

  function GreedyFill(levels: seq<Level>, g: Greedy): (f: seq<real>)
    ensures |f| == |levels|
    ensures forall k :: 0 <= k < |f| ==> f[k] == if k < g.k then levels[k].size else if k == g.k then g.x else 0.0
  {
    seq(|levels|, k requires 0 <= k < |levels| => if k < g.k then levels[k].size else if k == g.k then g.x else 0.0)
  }

  /** The greedy fill's size and notional, level by level. */
  lemma {:induction false} GreedyPrefix(levels: seq<Level>, g: Greedy, n: nat)
    requires IsGreedy(levels, g) && n <= |levels|
    ensures BaseOf(GreedyFill(levels, g), n) == (if n <= g.k then SizeTo(levels, n) else GreedySize(levels, g))
    ensures CostOf(levels, GreedyFill(levels, g), n)
            == (if n <= g.k then DepthTo(levels, n) else GreedyNotional(levels, g))
  {
    if n > 0 {
      GreedyPrefix(levels, g, n - 1);
      if n - 1 > g.k { assert levels[n - 1].price * 0.0 == 0.0; }
    }
  }

  lemma GreedyTotals(levels: seq<Level>, g: Greedy)
    requires IsGreedy(levels, g)
    ensures BaseOf(GreedyFill(levels, g), |levels|) == GreedySize(levels, g)
    ensures CostOf(levels, GreedyFill(levels, g), |levels|) == GreedyNotional(levels, g)
  {
    GreedyPrefix(levels, g, |levels|);
  }

  function Minus(h: seq<real>, f: seq<real>): (d: seq<real>)
    requires |h| == |f|
    ensures |d| == |h| && forall k :: 0 <= k < |d| ==> d[k] == h[k] - f[k]
  {
    seq(|h|, k requires 0 <= k < |h| => h[k] - f[k])
  }

  lemma {:induction false} MinusSums(levels: seq<Level>, h: seq<real>, f: seq<real>, n: nat)
    requires n <= |levels| == |h| == |f|
    ensures BaseOf(Minus(h, f), n) == BaseOf(h, n) - BaseOf(f, n)
    ensures CostOf(levels, Minus(h, f), n) == CostOf(levels, h, n) - CostOf(levels, f, n)
  {
    if n > 0 {
      MinusSums(levels, h, f, n - 1);
      assert levels[n - 1].price * (h[n - 1] - f[n - 1])
             == levels[n - 1].price * h[n - 1] - levels[n - 1].price * f[n - 1];
    }
  }

  /** `e` away from price c on the worse side, times `d` of it. */
  ghost predicate Agree(e: real, d: real) {
    (d <= 0.0 && e <= 0.0) || (d >= 0.0 && e >= 0.0)
  }

  /** Amounts d whose sign agrees, level by level, with the side of c their price is on, cost no less than at c. */
  lemma {:induction false} CostAgainst(levels: seq<Level>, d: seq<real>, c: real, sign: real, n: nat)
    requires n <= |d| <= |levels|
    requires forall k :: 0 <= k < n ==> Agree(sign * (levels[k].price - c), d[k])
    ensures sign * (CostOf(levels, d, n) - c * BaseOf(d, n)) >= 0.0
  {
    if n > 0 {
      CostAgainst(levels, d, c, sign, n - 1);
      OneLevel(sign, CostOf(levels, d, n - 1), BaseOf(d, n - 1), levels[n - 1].price, d[n - 1], c);
    }
  }

  lemma OneLevel(sign: real, cost: real, base: real, p: real, d: real, c: real)
    requires sign * (cost - c * base) >= 0.0 && Agree(sign * (p - c), d)
    ensures sign * ((cost + p * d) - c * (base + d)) >= 0.0
  {
    var e := sign * (p - c);
    if e >= 0.0 && d >= 0.0 { MulNonNeg(e, d); } else { MulNonNeg(-e, -d); assert (-e) * (-d) == e * d; }
    assert (cost + p * d) - c * (base + d) == (cost - c * base) + (p - c) * d;
    assert sign * ((cost - c * base) + (p - c) * d) == sign * (cost - c * base) + e * d;
  }

  /** canFillFull holds exactly when the slippage band holds 95% of the request. */
  lemma {:induction false} CanFillIff(levels: seq<Level>, requested: real, pct: real)
    requires Book(levels)
    ensures Executable(levels, requested, pct).canFillFull
            <==> requested <= 0.0 || DepthTo(levels, BandLevels(levels, pct, |levels|)) >= 0.95 * requested
  {
    hide OutOfBand, WalkFrom, BandLevels, DepthTo;
    FillsRequestOrBand(levels, requested, pct);
    PrefixPositive(levels, BandLevels(levels, pct, |levels|));
  }

  // ── Optimality ──

  /** +1 when prices get worse upwards (asks), -1 when downwards (bids). */
  function Direction(levels: seq<Level>): real
    requires levels != []
  {
    if IsAscending(levels) then 1.0 else -1.0
  }

  /** Prices never get better along the book. */
  lemma WorsePrices(levels: seq<Level>, i: nat, j: nat)
    requires Book(levels) && i <= j < |levels|
    ensures Direction(levels) * (levels[j].price - levels[i].price) >= 0.0
  {
    if i < j { assert IsAscending(levels) <==> levels[0].price < levels[1].price; }
  }

  /** The price at which a greedy fill would take its next unit. */
  function StopPrice(levels: seq<Level>, g: Greedy): real
    requires levels != []
  {
    levels[if g.k < |levels| then g.k else |levels| - 1].price
  }

  /** Any other fill takes no more than a greedy one before its stop price, and no less after it. */
  lemma LevelAgrees(levels: seq<Level>, g: Greedy, h: seq<real>, k: nat)
    requires Book(levels) && IsGreedy(levels, g) && Fill(levels, h) && k < |levels|
    ensures Agree(Direction(levels) * (levels[k].price - StopPrice(levels, g)), h[k] - GreedyFill(levels, g)[k])
  {
    var at := if g.k < |levels| then g.k else |levels| - 1;
    var sign, stop, price := Direction(levels), StopPrice(levels, g), levels[k].price;
    if k < at {
      hide Direction;
      WorsePrices(levels, k, at);
      Negated(sign, stop, price);
    } else if k > at {
      hide Direction;
      WorsePrices(levels, at, k);
    } else {
      assert price == stop;
      TimesZero(sign, price - stop);
    }
  }

  lemma Negated(sign: real, a: real, b: real)
    ensures sign * (b - a) == -(sign * (a - b))
  {
  }

  lemma TimesZero(sign: real, z: real)
    requires z == 0.0
    ensures sign * z == 0.0
  {
  }

  /** Against its stop price, moving from a greedy fill to any other one costs no less. */
  lemma Exchange(levels: seq<Level>, g: Greedy, h: seq<real>)
    requires Book(levels) && IsGreedy(levels, g) && Fill(levels, h)
    ensures Direction(levels) * ((CostOf(levels, h, |levels|) - GreedyNotional(levels, g))
                                 - StopPrice(levels, g) * (BaseOf(h, |levels|) - GreedySize(levels, g))) >= 0.0
  {
    hide Direction, Book, CostOf, BaseOf;
    BookNonEmpty(levels);
    var f, stop, sign := GreedyFill(levels, g), StopPrice(levels, g), Direction(levels);
    var d := Minus(h, f);
    forall k | 0 <= k < |levels| ensures Agree(sign * (levels[k].price - stop), d[k]) {
      LevelAgrees(levels, g, h, k);
    }
    CostAgainst(levels, d, stop, sign, |levels|);
    MinusSums(levels, h, f, |levels|);
    GreedyTotals(levels, g);
  }

  lemma BookNonEmpty(levels: seq<Level>)
    requires Book(levels)
    ensures levels != [] && forall k :: 0 <= k < |levels| ==> levels[k].price > 0.0
  {
  }

  /** The walk is an optimal greedy fill: among all fills of the book worth the same notional it
      gets the most base when buying from asks, and gives up the least when selling into bids. */
  lemma WalkIsOptimal(levels: seq<Level>, requested: real, pct: real, h: seq<real>)
    requires Book(levels) && Fill(levels, h)
    requires CostOf(levels, h, |levels|) == Filled(levels, requested, pct)
    ensures Direction(levels) * (BaseOf(h, |levels|) - Executable(levels, requested, pct).maxSize) <= 0.0
  {
    hide OutOfBand, WalkFrom, Executable, Filled, Book, CostOf, BaseOf, Direction;
    BookNonEmpty(levels);
    var g := ReportIsGreedy(levels, requested, pct);
    Exchange(levels, g, h);
    SignOf(Direction(levels), StopPrice(levels, g), BaseOf(h, |levels|) - GreedySize(levels, g));
  }

  lemma SignOf(sign: real, stop: real, gap: real)
    requires stop > 0.0 && sign * (0.0 - stop * gap) >= 0.0
    ensures sign * gap <= 0.0
  {
    var sg := sign * gap;
    assert sign * (0.0 - stop * gap) == -(stop * sg);
    if sg > 0.0 { LevelPositive(stop, sg); }
  }

  // ── Average price and slippage ──

  /** Every unit a walk takes costs between the best price and the edge of the slippage band. */
  lemma AverageWithinBand(levels: seq<Level>, requested: real, pct: real)
    requires Book(levels) && pct >= 0.0
    ensures var c, best := Executable(levels, requested, pct), levels[0].price;
            && c.maxSize >= 0.0
            && Direction(levels) * (Filled(levels, requested, pct) - best * c.maxSize) >= 0.0
            && Direction(levels) * (Filled(levels, requested, pct) - Edge(levels, pct) * c.maxSize) <= 0.0
  {
    hide OutOfBand, WalkFrom, Executable, Filled, Book, CostOf, BaseOf, Direction, Edge, InBand, GreedyFill;
    hide GreedyNotional, GreedySize, Ended;
    BookNonEmpty(levels);
    var g := ReportIsGreedy(levels, requested, pct);
    GreedyNonNegative(levels, g);
    AtLeastBest(levels, g);
    AtMostEdge(levels, pct, g);
  }

  lemma AtLeastBest(levels: seq<Level>, g: Greedy)
    requires Book(levels) && IsGreedy(levels, g)
    ensures Direction(levels) * (GreedyNotional(levels, g) - levels[0].price * GreedySize(levels, g)) >= 0.0
  {
    hide OutOfBand, WalkFrom, Executable, Filled, Book, CostOf, BaseOf, Direction, Edge, InBand, GreedyFill;
    hide GreedyNotional, GreedySize, Ended;
    BookNonEmpty(levels);
    var f := GreedyFill(levels, g);
    forall k | 0 <= k < |levels| ensures Agree(Direction(levels) * (levels[k].price - levels[0].price), f[k]) {
      WorsePrices(levels, 0, k);
      TakesNonNegative(levels, g, k);
    }
    CostAgainst(levels, f, levels[0].price, Direction(levels), |levels|);
    GreedyTotals(levels, g);
  }

  lemma AtMostEdge(levels: seq<Level>, pct: real, g: Greedy)
    requires Book(levels) && IsGreedy(levels, g) && pct >= 0.0
    requires forall k :: 0 <= k < g.k || (k == g.k && g.x > 0.0) ==> InBand(levels, pct, k)
    ensures Direction(levels) * (GreedyNotional(levels, g) - Edge(levels, pct) * GreedySize(levels, g)) <= 0.0
  {
    hide *;
    BookNonEmpty(levels);
    var f, edge, sign := GreedyFill(levels, g), Edge(levels, pct), -Direction(levels);
    forall k | 0 <= k < |levels| ensures Agree(sign * (levels[k].price - edge), f[k]) {
      EdgeAgrees(levels, pct, g, sign, edge, k);
    }
    CostAgainst(levels, f, edge, sign, |levels|);
    GreedyTotals(levels, g);
    GreedyDefined(levels, g);
    NegCost(Direction(levels), GreedyNotional(levels, g), edge, GreedySize(levels, g));
  }

  lemma GreedyDefined(levels: seq<Level>, g: Greedy)
    requires IsGreedy(levels, g)
    ensures g.k <= |levels|
  {
  }

  lemma EdgeAgrees(levels: seq<Level>, pct: real, g: Greedy, sign: real, edge: real, k: nat)
    requires Book(levels) && IsGreedy(levels, g) && pct >= 0.0 && k < |levels|
    requires sign == -Direction(levels) && edge == Edge(levels, pct)
    requires k < g.k || (k == g.k && g.x > 0.0) ==> InBand(levels, pct, k)
    ensures Agree(sign * (levels[k].price - edge), GreedyFill(levels, g)[k])
  {
    hide Book, InBand, Direction, Edge;
    BookNonEmpty(levels);
    if k < g.k || (k == g.k && g.x > 0.0) { InsideEdge(levels, pct, k); }
    TakesInside(levels, g, k, sign * (levels[k].price - edge));
  }

  lemma TakesNonNegative(levels: seq<Level>, g: Greedy, k: nat)
    requires Book(levels) && IsGreedy(levels, g) && k < |levels|
    ensures GreedyFill(levels, g)[k] >= 0.0
  {
  }

  lemma TakesInside(levels: seq<Level>, g: Greedy, k: nat, e: real)
    requires Book(levels) && IsGreedy(levels, g) && k < |levels| && (k < g.k || (k == g.k && g.x > 0.0) ==> e >= 0.0)
    ensures Agree(e, GreedyFill(levels, g)[k])
  {
  }

  lemma NegCost(s: real, cost: real, edge: real, base: real)
    requires -s * (cost - edge * base) >= 0.0
    ensures s * (cost - edge * base) <= 0.0
  {
    var x := cost - edge * base;
    assert -s * x == -(s * x);
  }

  /** The last price the band allows. */
  function Edge(levels: seq<Level>, pct: real): real
    requires levels != []
  {
    levels[0].price * (1.0 + Direction(levels) * (pct / 100.0))
  }

  lemma InsideEdge(levels: seq<Level>, pct: real, k: nat)
    requires Book(levels) && pct >= 0.0 && k < |levels| && InBand(levels, pct, k)
    ensures -Direction(levels) * (levels[k].price - Edge(levels, pct)) >= 0.0
  {
    var q, best := pct / 100.0, levels[0].price;
    MulNonNeg(best, q);
    assert best * (1.0 + q) == best + best * q && best * (1.0 - q) == best - best * q;
    assert 1.0 + -1.0 * q == 1.0 - q;
  }

  /** The slippage the check reports never exceeds the tolerance it was asked for. */
  lemma SlippageWithinTolerance(levels: seq<Level>, requested: real, pct: real)
    requires Book(levels) && pct >= 0.0
    ensures 0.0 <= Executable(levels, requested, pct).slippagePct <= pct
  {
    var c := Executable(levels, requested, pct);
    AverageWithinBand(levels, requested, pct);
    BookNonEmpty(levels);
    var w := WalkFrom(levels, pct, requested, 0, Walk(0.0, 0.0, 0.0));
    hide Book, WalkFrom;
    if w.size > 0.0 {
      SlippageOf(levels[0].price, w.notional, w.size, pct, Direction(levels));
    } else {
      assert (levels[0].price - levels[0].price) / levels[0].price * 100.0 == 0.0;
    }
  }

  lemma SlippageOf(best: real, notional: real, size: real, pct: real, sign: real)
    requires best > 0.0 && size > 0.0 && pct >= 0.0 && (sign == 1.0 || sign == -1.0)
    requires sign * (notional - best * size) >= 0.0
    requires sign * (notional - best * (1.0 + sign * (pct / 100.0)) * size) <= 0.0
    ensures Abs((notional / size - best) / best * 100.0) <= pct
  {
    var avg, q := notional / size, pct / 100.0;
    assert avg * size == notional;
    AverageBounds(best, avg, size, q, sign);
    RatioBound(sign * (avg - best), best, q);
    RatioSign(sign, avg - best, best);
  }

  lemma AverageBounds(best: real, avg: real, size: real, q: real, sign: real)
    requires size > 0.0 && (sign == 1.0 || sign == -1.0)
    requires sign * (avg * size - best * size) >= 0.0
    requires sign * (avg * size - best * (1.0 + sign * q) * size) <= 0.0
    ensures 0.0 <= sign * (avg - best) <= best * q
  {
    var edge := best * (1.0 + sign * q);
    assert sign * (avg * size - best * size) == (sign * (avg - best)) * size;
    assert sign * (avg * size - edge * size) == (sign * (avg - edge)) * size;
    CancelFactor(sign * (avg - best), size);
    CancelFactor(-(sign * (avg - edge)), size);
    assert edge == best + sign * (best * q);
    assert sign * (avg - edge) == sign * (avg - best) - best * q;
  }

  lemma CancelFactor(x: real, s: real)
    requires s > 0.0 && x * s >= 0.0
    ensures x >= 0.0
  {
    if x < 0.0 { LevelPositive(-x, s); }
  }

  lemma RatioSign(sign: real, a: real, best: real)
    requires best > 0.0 && (sign == 1.0 || sign == -1.0)
    ensures a / best * 100.0 == sign * ((sign * a) / best * 100.0)
  {
    if sign == -1.0 { assert (-a) / best == -(a / best); }
  }

  lemma RatioBound(x: real, best: real, q: real)
    requires best > 0.0 && 0.0 <= x <= best * q
    ensures 0.0 <= x / best <= q
  {
    var r := x / best;
    assert r * best == x;
    assert (q - r) * best == q * best - r * best;
    CancelFactor(q - r, best);
    CancelFactor(r, best);
  }

  // ── Asking for more ──

  /** Of two greedy fills of one book the one worth more takes at least as much from every level. */
  lemma GreedyGrows(levels: seq<Level>, g: Greedy, g': Greedy)
    requires Book(levels) && IsGreedy(levels, g) && IsGreedy(levels, g')
    requires GreedyNotional(levels, g) <= GreedyNotional(levels, g')
    ensures forall k :: 0 <= k < |levels| ==> GreedyFill(levels, g)[k] <= GreedyFill(levels, g')[k]
  {
    if g.k > g'.k {
      GrownPast(levels, g, g');
    } else if g.k == g'.k && g.k < |levels| {
      var p := levels[g.k].price;
      var px, px' := p * g.x, p * g'.x;
      assert GreedyNotional(levels, g) == DepthTo(levels, g.k) + px;
      assert GreedyNotional(levels, g') == DepthTo(levels, g.k) + px';
      LargerTake(p, g.x, g'.x, px, px');
    }
  }

  lemma LargerTake(p: real, x: real, y: real, px: real, py: real)
    requires p > 0.0 && px == p * x && py == p * y && px <= py
    ensures x <= y
  {
    assert (y - x) * p == p * y - p * x;
    CancelFactor(y - x, p);
  }

  /** A fill that reaches further without being worth more is the same fill, its last level written as whole. */
  lemma GrownPast(levels: seq<Level>, g: Greedy, g': Greedy)
    requires Book(levels) && IsGreedy(levels, g) && IsGreedy(levels, g') && g.k > g'.k
    requires GreedyNotional(levels, g) <= GreedyNotional(levels, g')
    ensures g.k == g'.k + 1 && g.x == 0.0 && g'.x == levels[g'.k].size
  {
    hide OutOfBand, GreedyNotional;
    PartOfLevel(levels, g');
    DepthMono(levels, g'.k + 1, g.k);
    if g.k < |levels| { PartOfLevel(levels, g); } else { WholeBook(levels, g); }
    SameDepth(levels, g'.k + 1, g.k);
  }

  lemma WholeBook(levels: seq<Level>, g: Greedy)
    requires IsGreedy(levels, g) && g.k == |levels|
    ensures GreedyNotional(levels, g) == DepthTo(levels, g.k) && g.x == 0.0
  {
  }

  lemma SameDepth(levels: seq<Level>, m: nat, n: nat)
    requires Book(levels) && m <= n <= |levels| && DepthTo(levels, m) == DepthTo(levels, n)
    ensures m == n
  {
    if m < n {
      var last := levels[n - 1];
      LevelPositive(last.price, last.size);
      DepthMono(levels, m, n - 1);
    }
  }

  lemma {:induction false} BaseMono(f: seq<real>, h: seq<real>, n: nat)
    requires n <= |f| == |h| && forall k :: 0 <= k < n ==> f[k] <= h[k]
    ensures BaseOf(f, n) <= BaseOf(h, n)
  {
    if n > 0 { BaseMono(f, h, n - 1); }
  }

  /** A larger request never fills less, and never at a better average price. */
  lemma LargerRequest(levels: seq<Level>, small: real, large: real, pct: real)
    requires Book(levels) && small <= large
    ensures Filled(levels, small, pct) <= Filled(levels, large, pct)
    ensures Executable(levels, small, pct).maxSize <= Executable(levels, large, pct).maxSize
    ensures Direction(levels) * (Filled(levels, large, pct) * Executable(levels, small, pct).maxSize
                                 - Filled(levels, small, pct) * Executable(levels, large, pct).maxSize) >= 0.0
  {
    hide OutOfBand, WalkFrom, Executable, Filled, Book, CostOf, BaseOf, Direction, Edge, InBand, GreedyFill;
    hide GreedyNotional, GreedySize, Ended;
    BookNonEmpty(levels);
    FillsRequestOrBand(levels, small, pct);
    FillsRequestOrBand(levels, large, pct);
    var g := ReportIsGreedy(levels, small, pct);
    var g' := ReportIsGreedy(levels, large, pct);
    LargerFill(levels, g, g');
  }

  lemma LargerFill(levels: seq<Level>, g: Greedy, g': Greedy)
    requires Book(levels) && IsGreedy(levels, g) && IsGreedy(levels, g')
    requires GreedyNotional(levels, g) <= GreedyNotional(levels, g')
    ensures GreedySize(levels, g) <= GreedySize(levels, g')
    ensures Direction(levels) * (GreedyNotional(levels, g') * GreedySize(levels, g) - GreedyNotional(levels,
            g) * GreedySize(levels, g')) >= 0.0
  {
    hide OutOfBand, WalkFrom, Executable, Filled, Book, CostOf, BaseOf, Direction, Edge, InBand, GreedyFill;
    hide GreedyNotional, GreedySize, Ended;
    BookNonEmpty(levels);
    GreedyGrows(levels, g, g');
    var f, f', n := GreedyFill(levels, g), GreedyFill(levels, g'), |levels|;
    GreedyTotals(levels, g);
    GreedyTotals(levels, g');
    BaseMono(f, f', n);
    GreedyIsFill(levels, g');
    Exchange(levels, g, f');
    var none := seq(n, k => 0.0);
    Nothing(levels, none, n);
    Exchange(levels, g, none);
    GreedyNonNegative(levels, g);
    CrossRatio(Direction(levels), StopPrice(levels, g), GreedyNotional(levels, g), GreedySize(levels, g),
               GreedyNotional(levels, g'), GreedySize(levels, g'));
  }

  lemma GreedyIsFill(levels: seq<Level>, g: Greedy)
    requires Book(levels) && IsGreedy(levels, g)
    ensures Fill(levels, GreedyFill(levels, g))
  {
  }

  lemma {:induction false} Nothing(levels: seq<Level>, none: seq<real>, n: nat)
    requires Book(levels) && n <= |levels| == |none| && forall k :: 0 <= k < |none| ==> none[k] == 0.0
    ensures Fill(levels, none) && BaseOf(none, n) == 0.0 && CostOf(levels, none, n) == 0.0
  {
    if n > 0 { Nothing(levels, none, n - 1); assert levels[n - 1].price * 0.0 == 0.0; }
  }

  lemma CrossRatio(sign: real, stop: real, n: real, s: real, n': real, s': real)
    requires 0.0 <= s <= s'
    requires sign * ((n' - n) - stop * (s' - s)) >= 0.0
    requires sign * ((0.0 - n) - stop * (0.0 - s)) >= 0.0
    ensures sign * (n' * s - n * s') >= 0.0
  {
    var a, b := sign * ((n' - n) - stop * (s' - s)), sign * ((0.0 - n) - stop * (0.0 - s));
    MulNonNeg(a, s);
    MulNonNeg(b, s' - s);
    var u, v := (n' - n) - stop * (s' - s), stop * s - n;
    assert u * s + v * (s' - s) == n' * s - n * s' by { Expand(stop, n, s, n', s'); }
    assert (0.0 - n) - stop * (0.0 - s) == v;
    Distribute(sign, u, s, v, s' - s);
  }

  lemma Expand(stop: real, n: real, s: real, n': real, s': real)
    ensures ((n' - n) - stop * (s' - s)) * s + (stop * s - n) * (s' - s) == n' * s - n * s'
  {
    var t := s' - s;
    assert ((n' - n) - stop * t) * s == n' * s - n * s - stop * t * s;
    assert (stop * s - n) * t == stop * s * t - n * t;
    assert stop * t * s == stop * s * t;
    assert n * t == n * s' - n * s;
  }

  lemma Distribute(sign: real, u: real, s: real, v: real, t: real)
    ensures sign * (u * s + v * t) == (sign * u) * s + (sign * v) * t
  {
  }

  // ── The reported depth ──

  /** From level i on, the walk looks at every level: none before the last ends it. */
  ghost predicate SeesAll(levels: seq<Level>, pct: real, requested: real, i: nat)
    requires levels != []
  {
    var n := |levels|;
    i + 1 >= n || (DepthTo(levels, n - 2) < requested && forall k :: i <= k < n - 1 ==> InBand(levels, pct, k))
  }

  lemma SeesNext(levels: seq<Level>, pct: real, requested: real, i: nat)
    requires Book(levels) && i < |levels| && InBand(levels, pct, i) && DepthTo(levels, i) < requested
    ensures SeesAll(levels, pct, requested, i) <==> SeesAll(levels, pct, requested, i + 1)
  {
    hide OutOfBand;
  }

  lemma StopsShort(levels: seq<Level>, pct: real, requested: real, i: nat)
    requires Book(levels) && i < |levels| && (!InBand(levels, pct, i) || requested <= DepthTo(levels, i))
    ensures DepthTo(levels, i + 1) == DepthTo(levels, |levels|) <==> SeesAll(levels, pct, requested, i)
  {
    hide OutOfBand;
    StrictDepth(levels, i + 1);
    if i + 1 < |levels| { DepthMono(levels, i, |levels| - 2); }
  }

  lemma PartShort(levels: seq<Level>, pct: real, requested: real, i: nat)
    requires Book(levels) && i < |levels| && InBand(levels, pct, i)
             && DepthTo(levels, i) < requested < DepthTo(levels, i + 1)
    ensures DepthTo(levels, if i + 2 <= |levels| then i + 2 else |levels|) == DepthTo(levels, |levels|)
            <==> SeesAll(levels, pct, requested, i)
  {
    hide OutOfBand;
    if i + 2 < |levels| {
      StrictDepth(levels, i + 2);
      DepthMono(levels, i + 1, |levels| - 2);
    }
  }

  lemma {:induction false} WalkDepth(levels: seq<Level>, pct: real, requested: real, i: nat)
    requires Book(levels) && i <= |levels| && (DepthTo(levels, i) <= requested || i == 0)
    ensures WalkFrom(levels, pct, requested, i, Walk(SizeTo(levels, i), DepthTo(levels, i), DepthTo(levels, i))).depth
            == DepthTo(levels, |levels|)
            <==> SeesAll(levels, pct, requested, i)
    decreases |levels| - i
  {
    hide OutOfBand, TakeLevel, SeesAll;
    var w := Walk(SizeTo(levels, i), DepthTo(levels, i), DepthTo(levels, i));
    PrefixPositive(levels, i);
    if i == |levels| {
      SeesEnd(levels, pct, requested);
    } else if Stops(levels, pct, requested, w, levels[i]) {
      StopsShort(levels, pct, requested, i);
    } else {
      SeesNext(levels, pct, requested, i);
      if levels[i].price * levels[i].size <= requested - w.notional {
        TakeWhole(levels, requested, i, w.depth);
        assert DepthTo(levels, i + 1) == w.depth + levels[i].price * levels[i].size;
        WalkDepth(levels, pct, requested, i + 1);
      } else {
        PartDepth(levels, pct, requested, i);
        PartShort(levels, pct, requested, i);
      }
    }
  }

  lemma SeesEnd(levels: seq<Level>, pct: real, requested: real)
    requires levels != []
    ensures SeesAll(levels, pct, requested, |levels|)
  {
  }

  /** After a partial take the next level, if there is one, is still counted, and the walk ends. */
  lemma PartDepth(levels: seq<Level>, pct: real, requested: real, i: nat)
    requires Book(levels) && i < |levels| && 0.0 < requested - DepthTo(levels, i) < levels[i].price * levels[i].size
    ensures var w := Walk(SizeTo(levels, i), DepthTo(levels, i), DepthTo(levels, i));
            WalkFrom(levels, pct, requested, i + 1, TakeLevel(requested, w, levels[i])).depth
            == DepthTo(levels, if i + 2 <= |levels| then i + 2 else |levels|)
  {
    hide OutOfBand;
  }

  lemma StrictDepth(levels: seq<Level>, i: nat)
    requires Book(levels) && i <= |levels|
    ensures forall k :: i < k <= |levels| ==> DepthTo(levels, i) < DepthTo(levels, k)
  {
    forall k | i < k <= |levels| ensures DepthTo(levels, i) < DepthTo(levels, k) {
      DepthMono(levels, i, k);
      if DepthTo(levels, i) == DepthTo(levels, k) { SameDepth(levels, i, k); }
    }
  }

  /** depthUsd is the total depth of the side exactly when the walk gets past every level but the
      last: they are all in the slippage band and the request is more than all but the last two hold. */
  lemma DepthIsTotalIff(levels: seq<Level>, requested: real, pct: real)
    requires Book(levels)
    ensures Executable(levels, requested, pct).depthUsd == DepthTo(levels, |levels|)
            <==> SeesAll(levels, pct, requested, 0)
  {
    hide OutOfBand;
    WalkDepth(levels, pct, requested, 0);
  }

  /** A request that stops early reports less than the side's depth. */
  lemma DepthIsNotTotal()
    ensures var levels := [Level(1.0, 1.0), Level(2.0, 1.0), Level(3.0, 1.0)];
            Book(levels) && Executable(levels, 0.5, 1000.0).depthUsd != DepthTo(levels, 3)
  {
    var levels := [Level(1.0, 1.0), Level(2.0, 1.0), Level(3.0, 1.0)];
    assert DepthTo(levels, 1) == 1.0;
    assert !SeesAll(levels, 1000.0, 0.5, 0);
    DepthIsTotalIff(levels, 0.5, 1000.0);
  }

  // ── Both sides of an arbitrage ──

  /** What one side could execute: the request or the depth of its band, whichever is less. */
  function SideUsd(levels: seq<Level>, sizeUsd: real, pct: real): real
    requires levels != []
  {
    Min(sizeUsd, DepthTo(levels, BandLevels(levels, pct, |levels|)))
  }

  /** recommendedSize × avgFillPrice is 90% of the filled notional. */
  lemma RecommendedNotional(levels: seq<Level>, sizeUsd: real, pct: real)
    requires Book(levels) && sizeUsd > 0.0
    ensures var c := Executable(levels, sizeUsd, pct);
            c.recommendedSize * c.avgFillPrice == 0.9 * SideUsd(levels, sizeUsd, pct)
  {
    hide OutOfBand, WalkFrom, BandLevels;
    var g := ReportIsGreedy(levels, sizeUsd, pct);
    FillsRequestOrBand(levels, sizeUsd, pct);
    GreedyNonNegative(levels, g);
    var s, n := GreedySize(levels, g), GreedyNotional(levels, g);
    hide Book, GreedyNotional, GreedySize, Ended;
    if s > 0.0 {
      Ratio(s, n);
    } else {
      assert 0.0 * 0.9 * levels[0].price == 0.0;
    }
  }

  lemma Ratio(s: real, n: real)
    requires s > 0.0
    ensures (s * 0.9) * (n / s) == 0.9 * n
  {
    assert s * (n / s) == n;
  }

  /** The best prices differ by at most 2% of the lower one. */
  predicate WithinTwoPercent(asks: seq<Level>, bids: seq<Level>)
    requires asks != [] && bids != []
  {
    var ask, bid := asks[0].price, bids[0].price;
    Abs(ask - bid) * 100.0 <= 2.0 * Min(ask, bid)
  }

  lemma GapIff(asks: seq<Level>, bids: seq<Level>)
    requires asks != [] && bids != [] && asks[0].price > 0.0 && bids[0].price > 0.0
    ensures !WideGap(asks[0].price, bids[0].price) <==> WithinTwoPercent(asks, bids)
  {
    var gap, low := Abs(asks[0].price - bids[0].price), Min(asks[0].price, bids[0].price);
    QuotientAtMost(gap, low, 2.0);
  }

  lemma QuotientAtMost(gap: real, low: real, pct: real)
    requires low > 0.0
    ensures gap / low * 100.0 > pct <==> gap * 100.0 > pct * low
  {
    var q := gap / low;
    assert q * low == gap;
    assert (q * 100.0) * low == gap * 100.0;
    if q * 100.0 > pct { Strictly(pct, q * 100.0, low); } else { MulMono(q * 100.0, pct, low); }
  }

  lemma Strictly(a: real, b: real, k: real)
    requires a < b && k > 0.0
    ensures a * k < b * k
  {
    assert (b - a) * k > 0.0;
    assert (b - a) * k == b * k - a * k;
  }

  /** An entry is viable exactly when the best prices are within 2% and both sides can execute two
      ninths of the request inside the slippage band; its size is then 90% of the request or of the
      thinner side, so a viable size is always executable on both sides, with a tenth to spare. */
  lemma {:induction false} ArbSizing(asks: seq<Level>, bids: seq<Level>, sizeUsd: real, pct: real)
    requires Book(asks) && Book(bids) && sizeUsd > 0.0
    ensures var r, thin := Arb(asks, bids, sizeUsd, pct), Min(SideUsd(asks, sizeUsd, pct), SideUsd(bids, sizeUsd, pct));
            && (r.viable <==> WithinTwoPercent(asks, bids) && 0.9 * thin >= 0.2 * sizeUsd)
            && r.adjustedSizeUsd == if r.viable then 0.9 * thin else 0.0
  {
    hide Executable, Book, SideUsd, WideGap, WithinTwoPercent;
    BookNonEmpty(asks);
    BookNonEmpty(bids);
    GapIff(asks, bids);
    RecommendedNotional(asks, sizeUsd, pct);
    RecommendedNotional(bids, sizeUsd, pct);
    SideAtMost(asks, sizeUsd, pct);
  }

  lemma SideAtMost(levels: seq<Level>, sizeUsd: real, pct: real)
    requires levels != []
    ensures SideUsd(levels, sizeUsd, pct) <= sizeUsd
  {
  }

  /** With a side missing, or the books unreadable, no positive size is viable. */
  lemma ArbNeedsBothSides(asks: seq<Level>, bids: seq<Level>, sizeUsd: real, pct: real)
    requires (asks == [] || Book(asks)) && (bids == [] || Book(bids)) && sizeUsd > 0.0 && (asks == [] || bids == [])
    ensures !Arb(asks, bids, sizeUsd, pct).viable
  {
    assert 0.0 * 0.0 == 0.0;
  }

  /** checkArbLiquidity; `books` (asks of the long venue, bids of the short one) is None when fetching
      either failed. For order books, or an empty side: viable exactly when both sides are there, the best
      prices are within 2%, and each side can execute two ninths of the request in its slippage band; the
      size is then 90% of the request or of the thinner side, and no slippage exceeds the tolerance. */
  method CheckArbLiquidity(books: Option<(seq<Level>, seq<Level>)>, sizeUsd: real, maxSlippagePct: real)
      returns (r: ArbCheck)
    ensures books.None? ==> r == ArbCheck(false, 0.0, 0.0, 0.0)
    ensures books.Some? ==> r == Arb(books.value.0, books.value.1, sizeUsd, maxSlippagePct)
    ensures books.Some? && Side(books.value.0) && Side(books.value.1) && sizeUsd > 0.0 ==>
              ArbSized(books.value.0, books.value.1, sizeUsd, maxSlippagePct, r)
  {
    hide Executable, ArbSized, Side;
    if books.None? { return ArbCheck(false, 0.0, 0.0, 0.0); }
    var (asks, bids) := books.value;
    if Side(asks) && Side(bids) && sizeUsd > 0.0 { ArbIsSized(asks, bids, sizeUsd, maxSlippagePct); }
    var longCheck := ComputeExecutableSize(asks, sizeUsd, maxSlippagePct);
    var shortCheck := ComputeExecutableSize(bids, sizeUsd, maxSlippagePct);
    if |asks| > 0 && |bids| > 0 {
      if WideGap(asks[0].price, bids[0].price) {
        return ArbCheck(false, 0.0, longCheck.slippagePct, shortCheck.slippagePct);
      }
    }
    var executableUsd := Min(longCheck.recommendedSize * longCheck.avgFillPrice,
                             shortCheck.recommendedSize * shortCheck.avgFillPrice);
    if executableUsd < sizeUsd * 0.2 {
      return ArbCheck(false, 0.0, longCheck.slippagePct, shortCheck.slippagePct);
    }
    r := ArbCheck(true, Min(sizeUsd, executableUsd), longCheck.slippagePct, shortCheck.slippagePct);
  }

  /** A side of the market: an order book, or nothing. */
  ghost predicate Side(levels: seq<Level>) {
    levels == [] || Book(levels)
  }

  ghost predicate ArbSized(asks: seq<Level>, bids: seq<Level>, sizeUsd: real, pct: real, r: ArbCheck) {
    && (r.viable <==> asks != [] && bids != [] && WithinTwoPercent(asks, bids)
                      && 0.9 * SideUsd(asks, sizeUsd, pct) >= 0.2 * sizeUsd
                         && 0.9 * SideUsd(bids, sizeUsd, pct) >= 0.2 * sizeUsd)
    && r.adjustedSizeUsd == (if r.viable then 0.9 * Min(SideUsd(asks, sizeUsd, pct), SideUsd(bids, sizeUsd, pct))
                             else 0.0)
    && (pct >= 0.0 ==> 0.0 <= r.longSlippage <= pct && 0.0 <= r.shortSlippage <= pct)
  }

  lemma ArbIsSized(asks: seq<Level>, bids: seq<Level>, sizeUsd: real, pct: real)
    requires Side(asks) && Side(bids) && sizeUsd > 0.0
    ensures ArbSized(asks, bids, sizeUsd, pct, Arb(asks, bids, sizeUsd, pct))
  {
    hide Book, WideGap, SideUsd, WithinTwoPercent;
    if asks == [] || bids == [] {
      ArbNeedsBothSides(asks, bids, sizeUsd, pct);
    } else {
      ArbSizing(asks, bids, sizeUsd, pct);
    }
    if pct >= 0.0 {
      if asks != [] { SlippageWithinTolerance(asks, sizeUsd, pct); }
      if bids != [] { SlippageWithinTolerance(bids, sizeUsd, pct); }
    }
  }

  /** A best price of zero: the gap is wide unless both are zero. */
  lemma ZeroPriceGap(price: real)
    requires price >= 0.0
    ensures WideGap(price, 0.0) <==> price > 0.0
    ensures WideGap(0.0, price) <==> price > 0.0
  {
  }

  /** A best price of zero has no slippage. */
  lemma ZeroPriceSlippage(levels: seq<Level>, requested: real, pct: real)
    requires levels != [] && levels[0].price == 0.0
    ensures Executable(levels, requested, pct).slippagePct == 0.0
  {
    hide WalkFrom;
  }

  // ── Equal best prices ──

  ghost predicate NonIncreasing(levels: seq<Level>) {
    && (forall k :: 0 <= k < |levels| ==> levels[k].price > 0.0)
    && (forall j, k :: 0 <= j < k < |levels| ==> levels[k].price <= levels[j].price)
  }

  /** Bids whose two best prices are equal are read as asks: nothing is out of the band, however far below. With
      a lower second price the band ends pct percent below the best. */
  lemma EqualBestBids(levels: seq<Level>, pct: real, k: nat)
    requires NonIncreasing(levels) && |levels| >= 2 && k < |levels| && pct >= 0.0
    ensures OutOfBand(levels, pct, levels[k].price) <==>
              levels[1].price < levels[0].price && levels[k].price * 100.0 < levels[0].price * (100.0 - pct)
  {
    var best, price := levels[0].price, levels[k].price;
    assert price <= best;
    MulNonNeg(best, pct);
    assert best * (1.0 + pct / 100.0) * 100.0 == best * 100.0 + best * pct;
    assert best * (1.0 - pct / 100.0) * 100.0 == best * (100.0 - pct);
  }

  /** With a tolerance of half a percent such a book is sold through at 37.5% below the best bid, and reported as
      executable in full. */
  lemma EqualBestBidsSlip()
    ensures var levels := [Level(100.0, 1.0), Level(100.0, 1.0), Level(50.0, 10.0)];
            var c := Executable(levels, 500.0, 0.5);
            NonIncreasing(levels) && c.canFillFull && c.slippagePct == 37.5
  {
    var levels := [Level(100.0, 1.0), Level(100.0, 1.0), Level(50.0, 10.0)];
    var w1, w2, w3 := Walk(1.0, 100.0, 100.0), Walk(2.0, 200.0, 200.0), Walk(8.0, 500.0, 700.0);
    assert TakeLevel(500.0, Walk(0.0, 0.0, 0.0), levels[0]) == w1;
    assert TakeLevel(500.0, w1, levels[1]) == w2;
    assert TakeLevel(500.0, w2, levels[2]) == w3;
    assert WalkFrom(levels, 0.5, 500.0, 3, w3) == w3;
    assert WalkFrom(levels, 0.5, 500.0, 2, w2) == w3;
    assert WalkFrom(levels, 0.5, 500.0, 1, w1) == w3;
    assert WalkFrom(levels, 0.5, 500.0, 0, Walk(0.0, 0.0, 0.0)) == w3;
    assert Executable(levels, 500.0, 0.5) == Report(levels, 500.0, w3);
  }
}
