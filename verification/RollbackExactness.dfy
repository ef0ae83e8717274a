/** When "rollback" really undoes a run on a liquid venue: the condition, in terms of what is known
    before the first reversal, under which every market order of a market nets zero. */
module RollbackExactness {
  import opened Prelude
  import opened Errors
  import opened Venue
  import opened PlanExecutor
  import opened PlanProperties
  import opened PlanLedger
  import opened PlanCalls
  import opened PlanIsolation

  function PosOn(w: World, market: string): real {
    if market in w.pos then w.pos[market] else 0.0
  }

  /** Step `k` is a market order of that market, with a measured fill. */
  predicate FilledOn(steps: seq<PlanStep>, placed: map<string, PlacedOrder>, k: nat, market: string) {
    && k < |steps| && steps[k].action == MarketOrder && MarketOf(steps[k]) == market
    && steps[k].id in placed && placed[steps[k].id].filled.Some?
  }

  /** What step `k` added to the market: its signed fill, or nothing. */
  function FillOn(steps: seq<PlanStep>, placed: map<string, PlacedOrder>, k: nat, market: string): real {
    if FilledOn(steps, placed, k, market) then Signed(placed[steps[k].id].side, placed[steps[k].id].filled.value)
    else 0.0
  }

  /** The position `p` less the fills of the market's steps idxs[t..]: what would be held if those were taken back in
      full. */
  function HeldBefore(steps: seq<PlanStep>, placed: map<string, PlacedOrder>, idxs: seq<nat>, p: real, market: string,
      t: nat): real
    decreases |idxs| - t
  {
    if t >= |idxs| then p
    else HeldBefore(steps, placed, idxs, p, market, t + 1) - FillOn(steps, placed, idxs[t], market)
  }

  /** From a position of `held`, a reduce-only close of the floored fill takes back exactly the fill. */
  predicate TakesBackAll(order: PlacedOrder, held: real)
    requires order.filled.Some?
  {
    Min(FillSize(order.filled.value, order.decimals), OpenFor(Opposite(order.side), held)) == order.filled.value
  }

  // ── One reversal ──

  lemma ReverseMoves(env: Env, w: World, i: nat, order: PlacedOrder, market: string)
    requires Honest(env)
    ensures var w' := Reverse(env, w, i, order).0;
            && PosOn(w', market) - PosOn(w, market)
               == (if Market(order.symbol) == market then NetOf(w'.log, i, market) - NetOf(w.log, i, market) else 0.0)
            && (order.filled.None? ==> PosOn(w', market) == PosOn(w, market))
  {
    hide Market, FillSize, ClosePerp;
    if order.filled.Some? {
      var z := FillSize(order.filled.value, order.decimals);
      if z > 0.0 {
        var m := ClosePerpEffect(env, w, i, true, order.symbol, Opposite(order.side), z, order.decimals);
      }
    } else if order.orderId.Some? {
      var c := Cancel(order.symbol, order.orderId.value);
      assert Admissible(w, c, env(w, c));
      NetOfAppend(w.log, Event(i, true, c, env(w, c)), i, market);
    }
  }

  /** The rollback's dealing with idxs[t], in terms of the whole rollback's outcome for that step. */
  lemma {:induction false} PositionStep(env: Env, steps: seq<PlanStep>, run: Run, i: nat, final: Undo, t: nat,
      market: string)
    requires Honest(env) && CleanRollback(env, steps, run, i, final) && t < |Successes(run.results)|
    ensures var idxs := Successes(run.results);
            var before, after := StateAfter(env, UndoOf(run), run.placed, None, idxs, t + 1),
              StateAfter(env, UndoOf(run), run.placed, None, idxs, t);
            && idxs[t] < |steps|
            && PosOn(after.w, market) - PosOn(before.w, market)
               == (if FilledOn(steps, run.placed, idxs[t], market)
                   then StepNet(steps, final.w.log, idxs[t]) - FillOn(steps, run.placed, idxs[t], market) else 0.0)
  {
    hide RollbackSteps, Market, SymbolOf, Exposed, Reverse, Successes, MarketStepHolds;
    var idxs := Successes(run.results);
    var k := idxs[t];
    CleanSize(env, steps, run, i, final);
    RunningIsReversible(steps, run, i);
    var before, all := RollbackBefore(env, steps, UndoOf(run), run.placed, idxs, t);
    SuccessAt(steps, run, i, t);
    if steps[k].id in run.placed {
      ReverseMoves(env, before.w, k, run.placed[steps[k].id], market);
      if FilledOn(steps, run.placed, k, market) { HoldsFill(steps, run, i, k, market); }
    }
  }

  lemma SuccessAt(steps: seq<PlanStep>, run: Run, i: nat, t: nat)
    requires i <= |steps| && Running(steps, run, i) && t < |Successes(run.results)|
    ensures var k := Successes(run.results)[t];
            && k < i == |run.results| && run.results[k].status == Success && SameStep(run.results[k], steps[k])
            && (steps[k].id in run.placed <==> steps[k].action in RESTABLE)
            && (steps[k].id in run.placed ==> PlacedFor(run.placed[steps[k].id], steps[k]))
  {
    hide PlacedFor;
  }

  lemma HoldsFill(steps: seq<PlanStep>, run: Run, i: nat, k: nat, market: string)
    requires FailedAt(steps, run, i) && k < i == |run.results| && run.results[k].status == Success
    requires FilledOn(steps, run.placed, k, market) && PlacedFor(run.placed[steps[k].id], steps[k])
    ensures StepNet(steps, run.w.log, k) == FillOn(steps, run.placed, k, market)
    ensures run.placed[steps[k].id].filled.value > 0.0
  {
    hide Running, Market;
    assert MarketStepHolds(steps, run, k);
  }

  /** One step of the rollback is exact if and only if its fill can be taken back from the position it finds. */
  lemma {:induction false} StepExactIff(env: Env, steps: seq<PlanStep>, run: Run, i: nat, final: Undo, t: nat,
      market: string)
    requires Honest(env) && FillsInFull(env) && CleanRollback(env, steps, run, i, final) && t < |Successes(run.results)|
    requires FilledOn(steps, run.placed, Successes(run.results)[t], market)
    ensures var idxs := Successes(run.results);
            var before := StateAfter(env, UndoOf(run), run.placed, None, idxs, t + 1);
            StepNet(steps, final.w.log, idxs[t]) == 0.0
            <==> TakesBackAll(run.placed[steps[idxs[t]].id], PosOn(before.w, market))
  {
    hide RollbackSteps, Market, SymbolOf, Exposed, Reverse, Successes, MarketStepHolds, FillSize;
    var idxs := Successes(run.results);
    var k := idxs[t];
    CleanSize(env, steps, run, i, final);
    RunningIsReversible(steps, run, i);
    var before, all := RollbackBefore(env, steps, UndoOf(run), run.placed, idxs, t);
    SuccessAt(steps, run, i, t);
    HoldsFill(steps, run, i, k, market);
    var order := run.placed[steps[k].id];
    ReversalIsExact(env, before.w, k, order);
    var closed := ReverseNet(env, before.w, k, order);
  }

  // ── The whole rollback of a market ──

  /** From idxs[t] on, every market order of the market nets zero. */
  ghost predicate NetsZeroFrom(steps: seq<PlanStep>, placed: map<string, PlacedOrder>, idxs: seq<nat>, log: seq<Event>,
      market: string, t: nat) {
    forall s :: t <= s < |idxs| && FilledOn(steps, placed, idxs[s], market) ==> StepNet(steps, log, idxs[s]) == 0.0
  }

  /** From idxs[t] on, every fill lies on its step's grid and would find its size still held, once the
      newer fills of the market are taken back in full. Known before the first reversal. */
  ghost predicate TakeableFrom(steps: seq<PlanStep>, placed: map<string, PlacedOrder>, idxs: seq<nat>, p: real,
      market: string, t: nat) {
    forall s :: t <= s < |idxs| && FilledOn(steps, placed, idxs[s], market) ==>
      TakesBackAll(placed[steps[idxs[s]].id], HeldBefore(steps, placed, idxs, p, market, s + 1))
  }

  lemma {:induction false} ExactFrom(env: Env, steps: seq<PlanStep>, run: Run, i: nat, final: Undo, t: nat,
      market: string)
    requires Honest(env) && FillsInFull(env) && CleanRollback(env, steps, run, i, final)
             && t <= |Successes(run.results)|
    ensures var idxs, p := Successes(run.results), PosOn(run.w, market);
            var zero := NetsZeroFrom(steps, run.placed, idxs, final.w.log, market, t);
            && (zero <==> TakeableFrom(steps, run.placed, idxs, p, market, t))
            && InRange(idxs, |run.results|)
            && (zero ==>
                PosOn(StateAfter(env, UndoOf(run), run.placed, None, idxs, t).w, market)
                  == HeldBefore(steps, run.placed, idxs, p, market, t))
    decreases |Successes(run.results)| - t
  {
    hide RollbackSteps, Market, SymbolOf, Successes, CleanRollback, TakesBackAll, StepNet, FilledOn, StateAfter, PosOn;
    hide FillOn;
    hide NetsZeroFrom, TakeableFrom, FillsInFull;
    var idxs, p := Successes(run.results), PosOn(run.w, market);
    if t == |idxs| {
      NothingReversed(env, UndoOf(run), run.placed, idxs);
      NothingFrom(steps, run.placed, idxs, final.w.log, p, market);
    } else {
      ExactFrom(env, steps, run, i, final, t + 1, market);
      PositionStep(env, steps, run, i, final, t, market);
      ZeroFromNext(steps, run.placed, idxs, final.w.log, p, market, t);
      if FilledOn(steps, run.placed, idxs[t], market) {
        StepExactIff(env, steps, run, i, final, t, market);
      } else {
        NoFill(steps, run.placed, idxs[t], market);
      }
    }
  }

  lemma NothingFrom(steps: seq<PlanStep>, placed: map<string, PlacedOrder>, idxs: seq<nat>, log: seq<Event>, p: real,
      market: string)
    ensures NetsZeroFrom(steps, placed, idxs, log, market, |idxs|)
            && TakeableFrom(steps, placed, idxs, p, market, |idxs|)
  {
  }

  lemma NoFill(steps: seq<PlanStep>, placed: map<string, PlacedOrder>, k: nat, market: string)
    requires !FilledOn(steps, placed, k, market)
    ensures FillOn(steps, placed, k, market) == 0.0
  {
  }

  lemma NothingReversed(env: Env, u: Undo, placed: map<string, PlacedOrder>, idxs: seq<nat>)
    requires InRange(idxs, |u.results|)
    ensures StateAfter(env, u, placed, None, idxs, |idxs|) == u
  {
    assert idxs[|idxs|..] == [];
  }

  lemma ZeroFromNext(steps: seq<PlanStep>, placed: map<string, PlacedOrder>, idxs: seq<nat>, log: seq<Event>, p: real,
      market: string, t: nat)
    requires t < |idxs|
    ensures FilledOn(steps, placed, idxs[t], market) ==>
              idxs[t] < |steps| && steps[idxs[t]].id in placed && placed[steps[idxs[t]].id].filled.Some?
    ensures NetsZeroFrom(steps, placed, idxs, log, market, t)
            <==> NetsZeroFrom(steps, placed, idxs, log, market, t + 1)
                 && (FilledOn(steps, placed, idxs[t], market) ==> StepNet(steps, log, idxs[t]) == 0.0)
    ensures TakeableFrom(steps, placed, idxs, p, market, t)
            <==> TakeableFrom(steps, placed, idxs, p, market, t + 1)
                 && (FilledOn(steps, placed, idxs[t], market) ==>
                       TakesBackAll(placed[steps[idxs[t]].id], HeldBefore(steps, placed, idxs, p, market, t + 1)))
  {
    hide Market, SymbolOf, TakesBackAll, StepNet, HeldBefore;
  }

  // ── Runs that end failed through rollback ──

  /** The run ended "failed" through its rollback: nothing pending, nothing quarantined. */
  ghost predicate EndsRolledBack(r: PlanResult) {
    r.status == PlanFailed && r.steps != [] && r.steps[|r.steps| - 1].status == RolledBack
  }

  lemma {:induction false} EndHolds(env: Env, steps: seq<PlanStep>, run: Run, i: nat)
    requires Honest(env) && DistinctIds(steps) && i <= |steps| && Running(steps, run, i) && Ledger(steps, run, i)
    ensures var e := EndOf(env, steps, run, i);
            e.i < |steps| && e.err.Some? && SkipOf(steps, e).None? ==> FailedAt(steps, e.run, e.i)
    decreases |steps| - i
  {
    hide ExecuteStep, OnThrow, Ledger, Running, FailedAt, SymbolOf;
    if i < |steps| {
      var next := Advance(env, steps, false, run, i);
      if next.Continue? {
        AdvanceKeepsRunning(env, steps, false, run, i);
        AdvanceKeepsLedger(env, steps, run, i);
        EndHolds(env, steps, next.run, i + 1);
      } else {
        var (w1, o) := ExecuteStep(env, run.w, i, steps[i]);
        if o.Failed? && !(steps[i].action in ORDER_ACTIONS && IsOutcomeUnknown(o.err)) {
          FailedStepHoldsNothing(env, steps, run, i);
        }
      }
    }
  }

  lemma StartHolds(steps: seq<PlanStep>, w: World)
    requires w.log == []
    ensures Ledger(steps, Start(w), 0)
  {
  }

  /** Such a run is a clean rollback from where its loop stopped. */
  lemma {:induction false} RolledBackIsClean(env: Env, plan: Plan, canClose: bool, w0: World) returns (final: Undo)
    requires Runs(env, plan, canClose, w0) && EndsRolledBack(PlanRun(env, plan, canClose, w0))
    ensures var e, r := EndOfPlan(env, plan, w0), PlanRun(env, plan, canClose, w0);
            && CleanRollback(env, plan.steps, e.run, e.i, final) && final.w == r.w && |r.steps| == e.i + 1
               && r.steps[..e.i] == final.results
  {
    hide EndOf, ExecuteFrom, ResultOf, StepOk, Ended, FailedAt, SymbolOf, RollbackSteps, Exposed, OneResultPerStep;
    var steps, e, r := plan.steps, EndOfPlan(env, plan, w0), PlanRun(env, plan, canClose, w0);
    ValidPlanHasDistinctIds(plan);
    StartIsRunning(steps, w0);
    StartHolds(steps, w0);
    EndHolds(env, steps, Start(w0), 0);
    PlanEnds(env, plan, canClose, w0);
    EveryRunIsWellShaped(env, plan, false, canClose, w0);
    RollbackIsTheEnd(env, steps, e);
    final := RollbackSteps(env, UndoOf(e.run), e.run.placed, None, Successes(e.run.results));
    forall k | 0 <= k < e.i ensures final.results[k].status != RollbackFailed { NotExposed(steps, r.steps, k); }
  }

  lemma NotExposed(steps: seq<PlanStep>, results: seq<StepView>, k: nat)
    requires |results| <= |steps| && k < |results| && Exposed(steps, results) == {}
    ensures results[k].status != RollbackFailed
  {
    assert SymbolOf(steps[k]) !in Exposed(steps, results);
  }

  lemma RollbackIsTheEnd(env: Env, steps: seq<PlanStep>, e: End)
    requires Ended(env, steps, e) && EndsRolledBack(ResultOf(env, steps, e))
    ensures e.i < |steps| && e.err.Some? && SkipOf(steps, e).None? && |e.run.results| == e.i
    ensures InRange(Successes(e.run.results), |e.run.results|)
    ensures var u, r := RollbackSteps(env, UndoOf(e.run), e.run.placed, None, Successes(e.run.results)),
            ResultOf(env, steps, e);
            && r.w == u.w && |r.steps| == e.i + 1 && r.steps[..e.i] == u.results && |u.results| == e.i
  {
    hide RollbackSteps, SymbolOf, LiveSoFar, Successes, OnThrow, PlacedSoFar, CompletedSoFar;
    if e.err.Some? {
      StopResult(env, steps, e);
      EndIsFresh(steps, e);
      AbortEndsFailed(env, steps, e);
    }
  }

  lemma AbortEndsFailed(env: Env, steps: seq<PlanStep>, e: End)
    requires e.i < |steps| && e.err.Some? && Running(steps, e.run, e.i)
             && OnThrow(env, e.run, steps[e.i], e.err.value).Stop?
    ensures SkipOf(steps, e).None? && !RollsBack(steps, e) ==> ResultOf(env, steps, e).steps[e.i].status == FailedStep
  {
    hide RollbackSteps, PlacedSoFar, CompletedSoFar, SymbolOf, Successes;
  }

  /** Rollback undoes the run, up to what the code itself leaves: when a plan ends "failed" through
      its rollback branch, every market_order step that had filled nets its measured fill minus what its
      one reversal closed, as MarketUndone bounds it, every other market_order step nets zero, and every
      limit / stop order that was placed was cancelled by its own id. Each call the rollback made is one
      of those reversals. */
  lemma {:induction false} RollbackUndoesTheRun(env: Env, plan: Plan, canClose: bool, w0: World)
      returns (final: Undo, closed: seq<real>)
    requires Runs(env, plan, canClose, w0) && EndsRolledBack(PlanRun(env, plan, canClose, w0))
    ensures var r, e := PlanRun(env, plan, canClose, w0), EndOfPlan(env, plan, w0);
            var idxs := Successes(e.run.results);
            && CleanRollback(env, plan.steps, e.run, e.i, final) && |closed| == |idxs|
            && final.w == r.w && |r.steps| == e.i + 1 && r.steps[..e.i] == final.results
            && (forall t :: 0 <= t < |idxs| && plan.steps[idxs[t]].action == MarketOrder ==>
                  MarketUndone(env, plan.steps, UndoOf(e.run), e.run.placed, idxs, t, final, closed[t]))
            && (forall k :: 0 <= k <= e.i && plan.steps[k].action == MarketOrder && k !in idxs ==>
                  StepNet(plan.steps, r.w.log, k) == 0.0)
            && (forall t :: 0 <= t < |idxs| && plan.steps[idxs[t]].action in {LimitOrder, StopOrder} ==>
                  RestingUndone(plan.steps, e.run.placed, r.w.log, final, idxs[t]))
            && |e.run.w.log| <= |r.w.log| && r.w.log[..|e.run.w.log|] == e.run.w.log
            && (forall k :: |e.run.w.log| <= k < |r.w.log| ==> UndoEvent(r.w.log[k], plan.steps, e.run.placed, None))
  {
    hide EndOf, ExecuteFrom, ResultOf, StepOk, Market, Runs, EndOfPlan, PlanRun, SymbolOf, Successes, EndsRolledBack;
    hide StepNet, MarketUndone, RestingUndone, UndoEvent, CleanRollback, RollbackSteps;
    RunsHonestly(env, plan, canClose, w0);
    var steps, e := plan.steps, EndOfPlan(env, plan, w0);
    var idxs := Successes(e.run.results);
    final := RolledBackIsClean(env, plan, canClose, w0);
    CleanSize(env, steps, e.run, e.i, final);
    closed := MarketStepsUndone(env, steps, e.run, e.i, final);
    forall k | 0 <= k <= e.i && steps[k].action == MarketOrder && k !in idxs
      ensures StepNet(steps, final.w.log, k) == 0.0 {
      UnfilledStepsNetZero(env, steps, e.run, e.i, final, k);
    }
    forall t | 0 <= t < |idxs| && steps[idxs[t]].action in {LimitOrder, StopOrder}
      ensures RestingUndone(steps, e.run.placed, final.w.log, final, idxs[t])
    {
      RestingOrdersUndone(env, steps, e.run, e.i, final, t);
    }
    CleanCalls(env, steps, e.run, e.i, final);
  }

  lemma CleanCalls(env: Env, steps: seq<PlanStep>, run: Run, i: nat, final: Undo)
    requires Honest(env) && CleanRollback(env, steps, run, i, final)
    ensures |run.w.log| <= |final.w.log| && final.w.log[..|run.w.log|] == run.w.log
    ensures forall k :: |run.w.log| <= k < |final.w.log| ==> UndoEvent(final.w.log[k], steps, run.placed, None)
  {
    hide RollbackSteps, SymbolOf, UndoEvent, Exposed, MarketStepHolds;
    RunningIsReversible(steps, run, i);
    RollbackCalls(env, steps, UndoOf(run), run.placed, None, Successes(run.results));
  }

  /** When a run ends failed through rollback on a liquid venue, the market orders of a market all net
      zero if and only if, before the first reversal, each fill lay on its step's grid and the position,
      less the newer fills of that market, still held it. */
  lemma {:induction false} RollbackExactIff(env: Env, plan: Plan, canClose: bool, w0: World, market: string)
    requires Runs(env, plan, canClose, w0) && FillsInFull(env) && EndsRolledBack(PlanRun(env, plan, canClose, w0))
    ensures var r, e := PlanRun(env, plan, canClose, w0), EndOfPlan(env, plan, w0);
            && |r.steps| <= |plan.steps|
            && ((forall k ::
                 0 <= k < |r.steps| && plan.steps[k].action == MarketOrder && MarketOf(plan.steps[k]) == market ==>
                   StepNet(plan.steps, r.w.log, k) == 0.0)
                <==> TakeableFrom(plan.steps, e.run.placed, Successes(e.run.results), PosOn(e.run.w, market), market,
                                  0))
  {
    hide EndOf, ExecuteFrom, ResultOf, StepOk, Market, Runs, EndOfPlan, PlanRun, SymbolOf, Successes, TakeableFrom;
    hide CleanRollback, EndsRolledBack, StepNet;
    RunsHonestly(env, plan, canClose, w0);
    var steps, r, e := plan.steps, PlanRun(env, plan, canClose, w0), EndOfPlan(env, plan, w0);
    var idxs := Successes(e.run.results);
    var final := RolledBackIsClean(env, plan, canClose, w0);
    CleanSize(env, steps, e.run, e.i, final);
    ExactFrom(env, steps, e.run, e.i, final, 0, market);
    forall k | 0 <= k <= e.i && steps[k].action == MarketOrder && MarketOf(steps[k]) == market
      ensures (FilledOn(steps, e.run.placed, k, market) && k in idxs) || StepNet(steps, r.w.log, k) == 0.0
    {
      if k in idxs {
        SuccessIsFilled(env, steps, e.run, e.i, final, k, market);
      } else {
        UnfilledStepsNetZero(env, steps, e.run, e.i, final, k);
      }
    }
    forall s | 0 <= s < |idxs| && FilledOn(steps, e.run.placed, idxs[s], market)
      ensures idxs[s] < |r.steps| && steps[idxs[s]].action == MarketOrder && MarketOf(steps[idxs[s]]) == market
    {
    }
  }

  lemma SuccessIsFilled(env: Env, steps: seq<PlanStep>, run: Run, i: nat, final: Undo, k: nat, market: string)
    requires CleanRollback(env, steps, run, i, final) && k in Successes(run.results)
    requires k < |steps| && steps[k].action == MarketOrder && MarketOf(steps[k]) == market
    ensures FilledOn(steps, run.placed, k, market)
  {
    hide RollbackSteps, SymbolOf, Market, MarketStepHolds;
    var t :| 0 <= t < |Successes(run.results)| && Successes(run.results)[t] == k;
    SuccessAt(steps, run, i, t);
  }

  /** Then the run's market orders together added nothing to the market. */
  lemma {:induction false} TakeableNetsZero(env: Env, plan: Plan, canClose: bool, w0: World, market: string)
    requires Runs(env, plan, canClose, w0) && FillsInFull(env) && EndsRolledBack(PlanRun(env, plan, canClose, w0))
    requires var e := EndOfPlan(env, plan, w0);
             TakeableFrom(plan.steps, e.run.placed, Successes(e.run.results), PosOn(e.run.w, market), market, 0)
    ensures var r := PlanRun(env, plan, canClose, w0);
            |r.steps| <= |plan.steps| && MarketTotal(plan.steps, r.w.log, market, |r.steps|) == 0.0
  {
    hide Runs, EndOfPlan, PlanRun, Market, TakeableFrom, EndsRolledBack;
    RunsHonestly(env, plan, canClose, w0);
    RollbackExactIff(env, plan, canClose, w0, market);
    var r := PlanRun(env, plan, canClose, w0);
    ZeroStepsZeroMarket(plan.steps, r.w.log, market, |r.steps|);
  }

  // ── The total of a market ──

  /** What a reversal on a liquid venue closes from a position of `held`: the floored fill, cut to what is open. */
  function Cut(order: PlacedOrder, held: real): real
    requires order.filled.Some?
  {
    var z := FillSize(order.filled.value, order.decimals);
    if z > 0.0 then Min(z, OpenFor(Opposite(order.side), held)) else 0.0
  }

  /** The position once the market's steps idxs[t..] are reversed one by one, newest first, from `p`. */
  function AfterCuts(steps: seq<PlanStep>, placed: map<string, PlacedOrder>, idxs: seq<nat>, p: real, market: string,
      t: nat): real
    decreases |idxs| - t
  {
    if t >= |idxs| then p
    else
      var held := AfterCuts(steps, placed, idxs, p, market, t + 1);
      if FilledOn(steps, placed, idxs[t], market) then
        var order := placed[steps[idxs[t]].id];
        held - Signed(order.side, Cut(order, held))
      else held
  }

  lemma {:induction false} StepCuts(env: Env, steps: seq<PlanStep>, run: Run, i: nat, final: Undo, t: nat,
      market: string)
    requires Honest(env) && FillsInFull(env) && CleanRollback(env, steps, run, i, final) && t < |Successes(run.results)|
    requires FilledOn(steps, run.placed, Successes(run.results)[t], market)
    ensures var idxs := Successes(run.results);
            var before := StateAfter(env, UndoOf(run), run.placed, None, idxs, t + 1);
            var order := run.placed[steps[idxs[t]].id];
            StepNet(steps, final.w.log, idxs[t])
            == FillOn(steps, run.placed, idxs[t], market) - Signed(order.side, Cut(order, PosOn(before.w, market)))
  {
    hide RollbackSteps, Market, SymbolOf, Exposed, Reverse, Successes, MarketStepHolds, FillSize;
    var idxs := Successes(run.results);
    var k := idxs[t];
    CleanSize(env, steps, run, i, final);
    RunningIsReversible(steps, run, i);
    var before, all := RollbackBefore(env, steps, UndoOf(run), run.placed, idxs, t);
    SuccessAt(steps, run, i, t);
    HoldsFill(steps, run, i, k, market);
    ReverseCuts(env, before.w, k, run.placed[steps[k].id]);
  }

  lemma ReverseCuts(env: Env, w: World, i: nat, order: PlacedOrder)
    requires Honest(env) && FillsInFull(env) && order.filled.Some?
    ensures var (w', v) := Reverse(env, w, i, order);
            v.MarkFailed? || NetOf(w'.log, i, Market(order.symbol))
                             == NetOf(w.log, i, Market(order.symbol)) - Signed(order.side,
                                                                               Cut(order, Pos(w, order.symbol)))
  {
    hide FillSize, Market, ClosePerp;
    var z := FillSize(order.filled.value, order.decimals);
    if z > 0.0 { FullClose(env, w, i, order.symbol, Opposite(order.side), z, order.decimals); }
  }

  /** What the market orders among the first `t` of `idxs` netted on the market. */
  function NetsTo(steps: seq<PlanStep>, placed: map<string, PlacedOrder>, idxs: seq<nat>, log: seq<Event>,
      market: string,
      t: nat): real
    requires t <= |idxs|
  {
    if t == 0 then 0.0
    else NetsTo(steps, placed, idxs, log, market, t - 1)
         + if FilledOn(steps, placed, idxs[t - 1], market) then StepNet(steps, log, idxs[t - 1]) else 0.0
  }

  /** Reversals move the position by what they take off the fills, on a liquid venue by the cut closes. */
  lemma {:induction false} CutsFrom(env: Env, steps: seq<PlanStep>, run: Run, i: nat, final: Undo, t: nat,
      market: string)
    requires Honest(env) && FillsInFull(env) && CleanRollback(env, steps, run, i, final)
             && t <= |Successes(run.results)|
    ensures var idxs, p := Successes(run.results), PosOn(run.w, market);
            && InRange(idxs, |run.results|)
            && PosOn(StateAfter(env, UndoOf(run), run.placed, None, idxs, t).w, market)
               == AfterCuts(steps, run.placed, idxs, p, market, t)
            && AfterCuts(steps, run.placed, idxs, p, market, t) - p
               == (NetsTo(steps, run.placed, idxs, final.w.log, market, |idxs|)
                   - NetsTo(steps, run.placed, idxs, final.w.log, market, t))
                  - (FillsTo(steps, run.placed, idxs, market, |idxs|) - FillsTo(steps, run.placed, idxs, market, t))
    decreases |Successes(run.results)| - t
  {
    hide RollbackSteps, Market, SymbolOf, Successes, CleanRollback, StepNet, FilledOn, StateAfter, PosOn, FillOn, Cut;
    hide FillsInFull;
    var idxs, p := Successes(run.results), PosOn(run.w, market);
    if t == |idxs| {
      NothingReversed(env, UndoOf(run), run.placed, idxs);
    } else {
      CutsFrom(env, steps, run, i, final, t + 1, market);
      PositionStep(env, steps, run, i, final, t, market);
      if FilledOn(steps, run.placed, idxs[t], market) {
        StepCuts(env, steps, run, i, final, t, market);
      } else {
        NoFill(steps, run.placed, idxs[t], market);
      }
    }
  }

  /** Step `k` was a success with a fill on the market, or netted nothing on it. */
  ghost predicate Accounted(steps: seq<PlanStep>, placed: map<string, PlacedOrder>, v: StepView, log: seq<Event>,
      market: string, k: nat)
    requires k < |steps|
  {
    steps[k].action == MarketOrder && MarketOf(steps[k]) == market ==>
      (v.status == Success && FilledOn(steps, placed, k, market))
        || (v.status != Success && StepNet(steps, log, k) == 0.0)
  }

  /** The market's total is that of the steps that filled, the others netting nothing. */
  lemma {:induction false} TotalOfFilled(steps: seq<PlanStep>, placed: map<string, PlacedOrder>, results: seq<StepView>,
      log: seq<Event>, market: string)
    requires |results| <= |steps|
    requires forall k :: 0 <= k < |results| ==> Accounted(steps, placed, results[k], log, market, k)
    ensures MarketTotal(steps, log, market, |results|)
            == NetsTo(steps, placed, Successes(results), log, market, |Successes(results)|)
  {
    hide StepNet, MarketOf, FilledOn, Successes, Accounted, MarketTotal, NetsTo;
    if results == [] {
      NothingTotals(steps, placed, log, market);
    } else {
      var n := |results| - 1;
      var init := results[..n];
      forall k | 0 <= k < n ensures Accounted(steps, placed, init[k], log, market, k) { assert init[k] == results[k]; }
      TotalOfFilled(steps, placed, init, log, market);
      SuccessesNext(init, results[n]);
      assert init + [results[n]] == results;
      NetsNext(steps, placed, Successes(init), log, market, n, results[n]);
    }
  }

  lemma NothingTotals(steps: seq<PlanStep>, placed: map<string, PlacedOrder>, log: seq<Event>, market: string)
    ensures MarketTotal(steps, log, market, 0) == NetsTo(steps, placed, Successes([]), log, market, |Successes([])|)
            == 0.0
  {
    NoSuccesses();
  }

  lemma NetsNext(steps: seq<PlanStep>, placed: map<string, PlacedOrder>, a: seq<nat>, log: seq<Event>, market: string,
      n: nat, v: StepView)
    requires n < |steps| && Accounted(steps, placed, v, log, market, n)
    ensures var b := a + (if v.status == Success then [n] else []);
            NetsTo(steps, placed, b, log, market, |b|) - NetsTo(steps, placed, a, log, market, |a|)
            == MarketTotal(steps, log, market, n + 1) - MarketTotal(steps, log, market, n)
  {
    hide StepNet, MarketOf, FilledOn;
    FilledMeans(steps, placed, n, market);
    var b := a + (if v.status == Success then [n] else []);
    NetsSame(steps, placed, a, b, log, market, |a|);
  }

  lemma NoSuccesses()
    ensures Successes([]) == []
  {
  }

  lemma FilledMeans(steps: seq<PlanStep>, placed: map<string, PlacedOrder>, k: nat, market: string)
    ensures FilledOn(steps, placed, k, market) ==>
              k < |steps| && steps[k].action == MarketOrder && MarketOf(steps[k]) == market
  {
  }

  lemma {:induction false} NetsSame(steps: seq<PlanStep>, placed: map<string, PlacedOrder>, a: seq<nat>, b: seq<nat>,
      log: seq<Event>, market: string, t: nat)
    requires t <= |a| <= |b| && b[..|a|] == a
    ensures NetsTo(steps, placed, b, log, market, t) == NetsTo(steps, placed, a, log, market, t)
  {
    hide StepNet, FilledOn;
    if t > 0 {
      NetsSame(steps, placed, a, b, log, market, t - 1);
      assert b[t - 1] == b[..|a|][t - 1];
    }
  }

  /** On a liquid venue the market orders of a run that ends failed through rollback add nothing to a
      market together if and only if the closes, each the floored fill cut to what the newer closes left
      open, take back together what the fills had put in. */
  lemma {:induction false} RollbackTotalIff(env: Env, plan: Plan, canClose: bool, w0: World, market: string)
    requires Runs(env, plan, canClose, w0) && FillsInFull(env) && EndsRolledBack(PlanRun(env, plan, canClose, w0))
    ensures var r, e := PlanRun(env, plan, canClose, w0), EndOfPlan(env, plan, w0);
            var idxs, p := Successes(e.run.results), PosOn(e.run.w, market);
            && |r.steps| <= |plan.steps|
            && (MarketTotal(plan.steps, r.w.log, market, |r.steps|) == 0.0
                <==> p - AfterCuts(plan.steps, e.run.placed, idxs, p, market, 0)
                     == FillsTo(plan.steps, e.run.placed, idxs, market, |idxs|))
  {
    hide EndOf, ExecuteFrom, ResultOf, StepOk, Market, Runs, EndOfPlan, PlanRun, SymbolOf, CleanRollback;
    hide EndsRolledBack;
    hide StepNet, FilledOn, PosOn, AfterCuts, StateAfter, RollbackSteps;
    RunsHonestly(env, plan, canClose, w0);
    var steps, r, e := plan.steps, PlanRun(env, plan, canClose, w0), EndOfPlan(env, plan, w0);
    var final := RolledBackIsClean(env, plan, canClose, w0);
    CleanSize(env, steps, e.run, e.i, final);
    CutsFrom(env, steps, e.run, e.i, final, 0, market);
    forall k | 0 <= k < e.i ensures Accounted(steps, e.run.placed, e.run.results[k], r.w.log, market, k) {
      if steps[k].action == MarketOrder && MarketOf(steps[k]) == market {
        if e.run.results[k].status == Success {
          SuccessIsFilled(env, steps, e.run, e.i, final, k, market);
        } else {
          UnfilledStepsNetZero(env, steps, e.run, e.i, final, k);
        }
      }
    }
    hide Successes;
    TotalOfFilled(steps, e.run.placed, e.run.results, r.w.log, market);
    LastStepNetsZero(env, steps, e.run, e.i, final);
  }

  lemma LastStepNetsZero(env: Env, steps: seq<PlanStep>, run: Run, i: nat, final: Undo)
    requires Honest(env) && CleanRollback(env, steps, run, i, final)
    ensures i < |steps| && (steps[i].action == MarketOrder ==> StepNet(steps, final.w.log, i) == 0.0)
  {
    hide RollbackSteps, StepNet;
    if steps[i].action == MarketOrder { UnfilledStepsNetZero(env, steps, run, i, final, i); }
  }

  /** What taking a fill back in full asks for: a fill on the grid that is still held; or one that the
      1e-9 allowance of fillSizeString rounds up, held exactly. */
  lemma TakesBackAllIff(order: PlacedOrder, held: real)
    requires order.filled.Some? && order.filled.value > 0.0
    ensures var q, z, open := order.filled.value, FillSize(order.filled.value, order.decimals),
            OpenFor(Opposite(order.side), held);
            && (TakesBackAll(order, held) <==> (z == q && open >= q) || (z > q && open == q))
            && z <= q + 0.000000001 * Unit(order.decimals)
  {
    hide FillSize;
    FillSizeBelow(order.filled.value, order.decimals);
  }

  /** Such a fill exists: one unit less 1e-10 is floored to one unit, and a close of one unit takes back exactly it. */
  lemma RoundedUpFill()
    ensures FillSize(0.9999999999, 0) == 1.0
    ensures TakesBackAll(PlacedOrder("X", Buy, Some(0.9999999999), 0, None), 0.9999999999)
  {
    assert Pow10(0) == 1.0 && Unit(0) == 1.0;
    assert (0.9999999999 * Pow10(0) + 0.000000001).Floor == 1;
  }

  // ── Markets traded only by market orders ──

  /** No limit, stop or close step of the plan names the market. */
  ghost predicate OnlyMarketOrders(steps: seq<PlanStep>, market: string) {
    forall k :: 0 <= k < |steps| && MarketOf(steps[k]) == market ==>
      steps[k].action !in {LimitOrder, StopOrder, ClosePosition}
  }

  /** What the first `t` of the steps `idxs` added to the market. */
  function FillsTo(steps: seq<PlanStep>, placed: map<string, PlacedOrder>, idxs: seq<nat>, market: string, t: nat): real
    requires t <= |idxs|
  {
    if t == 0 then 0.0 else FillsTo(steps, placed, idxs, market, t - 1) + FillOn(steps, placed, idxs[t - 1], market)
  }

  function AllFills(steps: seq<PlanStep>, placed: map<string, PlacedOrder>, results: seq<StepView>,
      market: string): real {
    FillsTo(steps, placed, Successes(results), market, |Successes(results)|)
  }

  lemma {:induction false} HeldIsOlder(steps: seq<PlanStep>, placed: map<string, PlacedOrder>, idxs: seq<nat>, p: real,
      market: string, t: nat)
    requires t <= |idxs|
    ensures HeldBefore(steps, placed, idxs, p, market, t)
            == p - FillsTo(steps, placed, idxs, market, |idxs|) + FillsTo(steps, placed, idxs, market, t)
    decreases |idxs| - t
  {
    hide FillOn;
    if t < |idxs| { HeldIsOlder(steps, placed, idxs, p, market, t + 1); }
  }

  lemma {:induction false} FillsSame(steps: seq<PlanStep>, placed: map<string, PlacedOrder>,
      placed': map<string, PlacedOrder>, a: seq<nat>, b: seq<nat>, market: string, t: nat)
    requires t <= |a| <= |b| && b[..|a|] == a
    requires forall s :: 0 <= s < t ==> a[s] < |steps| && (steps[a[s]].id in placed <==> steps[a[s]].id in placed')
                                        && (steps[a[s]].id in placed ==>
                                            placed[steps[a[s]].id] == placed'[steps[a[s]].id])
    ensures FillsTo(steps, placed', b, market, t) == FillsTo(steps, placed, a, market, t)
  {
    hide Market, SymbolOf;
    if t > 0 {
      FillsSame(steps, placed, placed', a, b, market, t - 1);
      assert b[t - 1] == b[..|a|][t - 1];
    }
  }

  /** A step moves the market only by its own market order, if the market is traded by no other kind. */
  lemma StepMoves(env: Env, w: World, i: nat, step: PlanStep, market: string)
    requires Honest(env) && (MarketOf(step) == market ==> step.action !in {LimitOrder, StopOrder, ClosePosition})
    ensures var w' := ExecuteStep(env, w, i, step).0;
            PosOn(w', market) == PosOn(w, market)
              + if step.action == MarketOrder && MarketOf(step) == market
                then NetOf(w'.log, i, market) - NetOf(w.log, i, market) else 0.0
  {
    hide Market, SymbolOf, ExecuteClose;
    match step.action
    case MarketOrder =>
      var c := Place(SymbolOf(step), SideOf(step), SizeOf(step).qty, false);
      NetOfAppend(w.log, Event(i, false, c, env(w, c)), i, market);
    case ClosePosition => CloseMoves(env, w, i, SymbolOf(step), market);
    case CancelOrder => PlainMoves(env, w, i, Cancel(SymbolOf(step), step.params.orderId), market);
    case CancelAllOrders => PlainMoves(env, w, i, CancelAll(SymbolOf(step)), market);
    case SetLeverageTo => PlainMoves(env, w, i, SetLeverage(SymbolOf(step)), market);
    case CheckBalance => PlainMoves(env, w, i, ReadBalance(SymbolOf(step)), market);
    case CheckPosition => PlainMoves(env, w, i, FindPosition(SymbolOf(step)), market);
    case _ =>
  }

  lemma PlainMoves(env: Env, w: World, i: nat, c: Call, market: string)
    requires Honest(env) && !c.Place? && !c.Rest?
    ensures PosOn(Send(env, w, i, false, c).0, market) == PosOn(w, market)
  {
    hide Market;
    assert Admissible(w, c, env(w, c));
  }

  lemma CloseMoves(env: Env, w: World, i: nat, symbol: string, market: string)
    requires Honest(env) && Market(symbol) != market
    ensures PosOn(ExecuteClose(env, w, i, symbol).0, market) == PosOn(w, market)
  {
    hide Market, ClosePerp;
    var c := FindPosition(symbol);
    var (w1, r) := Send(env, w, i, false, c);
    PlainMoves(env, w, i, c, market);
    assert Admissible(w, c, env(w, c));
    if r.Found? && r.position.Some? {
      var lp := r.position.value;
      var _ := ClosePerpEffect(env, w1, i, false, lp.symbol, if lp.signed > 0.0 then Sell else Buy, Abs(lp.signed),
                               lp.decimals);
    }
  }

  /** One step more: the position and the fills grow alike. */
  lemma BalancedNext(env: Env, steps: seq<PlanStep>, run: Run, i: nat, market: string)
    requires Honest(env) && DistinctIds(steps) && i < |steps| && Running(steps, run, i)
             && OnlyMarketOrders(steps, market)
    requires Ledger(steps, run, i)
    ensures var (w', o) := ExecuteStep(env, run.w, i, steps[i]);
            && (o.Failed? && !(steps[i].action in ORDER_ACTIONS && IsOutcomeUnknown(o.err)) ==>
                PosOn(w', market) == PosOn(run.w, market))
            && (o.Succeeded? ==>
                PosOn(w', market)
                == PosOn(run.w, market) + FillOn(steps, Place1(run.placed, steps[i].id, o.placed), i, market))
  {
    hide ExecuteStep, Running, Ledger, Market, SymbolOf;
    StepMoves(env, run.w, i, steps[i], market);
    StepPlacement(env, run.w, i, steps[i]);
    IdIsNew(steps, run, i);
    if steps[i].action == MarketOrder {
      MarketStepNet(env, run.w, i, steps[i]);
    }
  }

  lemma IdIsNew(steps: seq<PlanStep>, run: Run, i: nat)
    requires DistinctIds(steps) && i < |steps| && Running(steps, run, i)
    ensures steps[i].id !in run.placed && |run.results| == i
  {
    hide PlacedFor;
  }

  lemma {:induction false} AllFillsNext(steps: seq<PlanStep>, placed: map<string, PlacedOrder>, results: seq<StepView>,
      v: StepView, placed': map<string, PlacedOrder>, market: string)
    requires DistinctIds(steps) && |results| < |steps|
    requires forall id :: id != steps[|results|].id ==>
             (id in placed' <==> id in placed) && (id in placed ==> placed'[id] == placed[id])
    ensures AllFills(steps, placed', results + [v], market)
            == AllFills(steps, placed, results, market)
               + if v.status == Success then FillOn(steps, placed', |results|, market) else 0.0
  {
    hide Market, SymbolOf, FillOn;
    var i := |results|;
    var a, b := Successes(results), Successes(results + [v]);
    SuccessesNext(results, v);
    hide Successes;
    forall s | 0 <= s < |a| ensures a[s] < |steps| && steps[a[s]].id != steps[i].id {}
    hide DistinctIds;
    assert b[..|a|] == a;
    FillsSame(steps, placed, placed', a, b, market, |a|);
  }

  lemma SuccessesNext(results: seq<StepView>, v: StepView)
    ensures Successes(results + [v]) == Successes(results) + (if v.status == Success then [|results|] else [])
  {
    assert (results + [v])[..|results|] == results;
  }

  lemma BalancedAdvance(env: Env, steps: seq<PlanStep>, run: Run, i: nat, market: string, start: real)
    requires Honest(env) && DistinctIds(steps) && i < |steps| && Running(steps, run, i)
             && OnlyMarketOrders(steps, market)
    requires Ledger(steps, run, i) && PosOn(run.w, market) == start + AllFills(steps, run.placed, run.results, market)
    requires Advance(env, steps, false, run, i).Continue?
    ensures var run' := Advance(env, steps, false, run, i).run;
            PosOn(run'.w, market) == start + AllFills(steps, run'.placed, run'.results, market)
  {
    hide ExecuteStep, Running, Ledger, Market, SymbolOf, RollbackSteps, AllFills, OnlyMarketOrders, PosOn;
    hide DependencyMet, FillOn;
    var step := steps[i];
    IdIsNew(steps, run, i);
    if !DependencyMet(run, step) {
      AllFillsNext(steps, run.placed, run.results, StepView(step.id, step.action, Skipped, Some(DEPENDENCY_FAILED)),
                   run.placed, market);
    } else {
      var (w1, o) := ExecuteStep(env, run.w, i, step);
      BalancedNext(env, steps, run, i, market);
      if o.Succeeded? {
        AllFillsNext(steps, run.placed, run.results, StepView(step.id, step.action, Success, None),
                     Place1(run.placed, step.id, o.placed), market);
      } else {
        AllFillsNext(steps, run.placed, run.results, StepView(step.id, step.action, Skipped, Some(STEP_FAILED)),
                     run.placed, market);
      }
    }
  }

  /** Where the run stops, the position is the one it started from and the fills. */
  lemma {:induction false} EndBalanced(env: Env, steps: seq<PlanStep>, run: Run, i: nat, market: string, start: real)
    requires Honest(env) && DistinctIds(steps) && i <= |steps| && Running(steps, run, i)
             && OnlyMarketOrders(steps, market)
    requires Ledger(steps, run, i) && PosOn(run.w, market) == start + AllFills(steps, run.placed, run.results, market)
    ensures var e := EndOf(env, steps, run, i);
            SkipOf(steps, e).None? ==>
              PosOn(e.run.w, market) == start + AllFills(steps, e.run.placed, e.run.results, market)
    decreases |steps| - i
  {
    hide ExecuteStep, Running, Ledger, OnlyMarketOrders, AllFills, PosOn, OnThrow, SymbolOf;
    if i < |steps| {
      var next := Advance(env, steps, false, run, i);
      if next.Continue? {
        AdvanceKeepsRunning(env, steps, false, run, i);
        AdvanceKeepsLedger(env, steps, run, i);
        BalancedAdvance(env, steps, run, i, market, start);
        EndBalanced(env, steps, next.run, i + 1, market, start);
      } else {
        BalancedNext(env, steps, run, i, market);
        var (w1, o) := ExecuteStep(env, run.w, i, steps[i]);
        assert o.Failed?;
        assert EndOf(env, steps, run, i) == End(run.(w := w1), i, Some(o.err));
      }
    }
  }

  /** From a position of `before`, the order's fill lay on the grid and was not against the position
      (or was rounded up, and made from a flat position). */
  predicate OpensOrAdds(order: PlacedOrder, before: real)
    requires order.filled.Some?
  {
    var q, z := order.filled.value, FillSize(order.filled.value, order.decimals);
    (z == q && Signed(order.side, before) >= 0.0) || (z > q && before == 0.0)
  }

  /** Every one of the steps `idxs` that filled on the market did, from a position that was `start` before the first. */
  ghost predicate AllOpenOrAdd(steps: seq<PlanStep>, placed: map<string, PlacedOrder>, idxs: seq<nat>, start: real,
      market: string) {
    forall s :: 0 <= s < |idxs| && FilledOn(steps, placed, idxs[s], market) ==>
      OpensOrAdds(placed[steps[idxs[s]].id], start + FillsTo(steps, placed, idxs, market, s))
  }

  /** On a market the plan trades only by market orders, they all net zero if and only if every fill
      lay on its grid and none reduced an opposite position. */
  lemma {:induction false} MarketOnlyIff(env: Env, plan: Plan, canClose: bool, w0: World, market: string)
    requires Runs(env, plan, canClose, w0) && FillsInFull(env) && EndsRolledBack(PlanRun(env, plan, canClose, w0))
    requires OnlyMarketOrders(plan.steps, market)
    ensures var r, e := PlanRun(env, plan, canClose, w0), EndOfPlan(env, plan, w0);
            && |r.steps| <= |plan.steps|
            && ((forall k ::
                 0 <= k < |r.steps| && plan.steps[k].action == MarketOrder && MarketOf(plan.steps[k]) == market ==>
                   StepNet(plan.steps, r.w.log, k) == 0.0)
                <==> AllOpenOrAdd(plan.steps, e.run.placed, Successes(e.run.results), PosOn(w0, market), market))
  {
    hide Runs, EndOfPlan, PlanRun, Market, EndsRolledBack, FilledOn, FillsTo, StepNet, Successes, PosOn, CleanRollback;
    hide TakeableFrom, AllOpenOrAdd;
    RunsHonestly(env, plan, canClose, w0);
    RollbackExactIff(env, plan, canClose, w0, market);
    var steps, e := plan.steps, EndOfPlan(env, plan, w0);
    PlanBalanced(env, plan, canClose, w0, market);
    var final := RolledBackIsClean(env, plan, canClose, w0);
    FillsArePositive(env, steps, e.run, e.i, final, market);
    TakeableIsOpening(steps, e.run.placed, Successes(e.run.results), PosOn(e.run.w, market), PosOn(w0, market), market);
  }

  ghost predicate PositiveFills(steps: seq<PlanStep>, placed: map<string, PlacedOrder>, idxs: seq<nat>,
      market: string) {
    forall s :: 0 <= s < |idxs| && FilledOn(steps, placed, idxs[s], market) ==>
      placed[steps[idxs[s]].id].filled.value > 0.0
  }

  lemma FillsArePositive(env: Env, steps: seq<PlanStep>, run: Run, i: nat, final: Undo, market: string)
    requires CleanRollback(env, steps, run, i, final)
    ensures PositiveFills(steps, run.placed, Successes(run.results), market)
  {
    hide RollbackSteps, Market, SymbolOf, MarketStepHolds, Successes, Running;
    var idxs := Successes(run.results);
    forall s | 0 <= s < |idxs| && FilledOn(steps, run.placed, idxs[s], market)
      ensures run.placed[steps[idxs[s]].id].filled.value > 0.0 {
      SuccessAt(steps, run, i, s);
      HoldsFill(steps, run, i, idxs[s], market);
    }
  }

  lemma TakeableIsOpening(steps: seq<PlanStep>, placed: map<string, PlacedOrder>, idxs: seq<nat>, p: real, start: real,
      market: string)
    requires PositiveFills(steps, placed, idxs, market) && p == start + FillsTo(steps, placed, idxs, market, |idxs|)
    ensures TakeableFrom(steps, placed, idxs, p, market, 0) <==> AllOpenOrAdd(steps, placed, idxs, start, market)
  {
    hide Market, SymbolOf, TakesBackAll, OpensOrAdds, FillsTo, HeldBefore;
    forall s | 0 <= s < |idxs| && FilledOn(steps, placed, idxs[s], market)
      ensures TakesBackAll(placed[steps[idxs[s]].id], HeldBefore(steps, placed, idxs, p, market, s + 1))
              <==> OpensOrAdds(placed[steps[idxs[s]].id], start + FillsTo(steps, placed, idxs, market, s))
    {
      HeldIsOlder(steps, placed, idxs, p, market, s + 1);
      FillsNext(steps, placed, idxs, market, s);
      TakesBackOwnFill(placed[steps[idxs[s]].id], start + FillsTo(steps, placed, idxs, market, s));
    }
  }

  lemma FillsNext(steps: seq<PlanStep>, placed: map<string, PlacedOrder>, idxs: seq<nat>, market: string, s: nat)
    requires s < |idxs| && FilledOn(steps, placed, idxs[s], market)
    ensures var o := placed[steps[idxs[s]].id];
            FillsTo(steps, placed, idxs, market, s + 1)
              == FillsTo(steps, placed, idxs, market, s) + Signed(o.side, o.filled.value)
  {
    hide Market, SymbolOf;
  }

  lemma TakesBackOwnFill(order: PlacedOrder, before: real)
    requires order.filled.Some? && order.filled.value > 0.0
    ensures TakesBackAll(order, before + Signed(order.side, order.filled.value)) <==> OpensOrAdds(order, before)
  {
    hide FillSize;
  }

  lemma {:induction false} PlanBalanced(env: Env, plan: Plan, canClose: bool, w0: World, market: string)
    requires Runs(env, plan, canClose, w0) && EndsRolledBack(PlanRun(env, plan, canClose, w0))
             && OnlyMarketOrders(plan.steps, market)
    ensures var e := EndOfPlan(env, plan, w0);
            PosOn(e.run.w, market) == PosOn(w0, market) + AllFills(plan.steps, e.run.placed, e.run.results, market)
  {
    hide EndOf, ExecuteFrom, ResultOf, StepOk, Ended, RollbackSteps, OnlyMarketOrders, PosOn;
    ValidPlanHasDistinctIds(plan);
    StartIsRunning(plan.steps, w0);
    StartHolds(plan.steps, w0);
    PlanEnds(env, plan, canClose, w0);
    RollbackIsTheEnd(env, plan.steps, EndOfPlan(env, plan, w0));
    EndBalanced(env, plan.steps, Start(w0), 0, market, PosOn(w0, market));
  }
}
