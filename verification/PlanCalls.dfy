/** What a plan may ask of the venue: only what its steps say, in plan order, each order once, and
    nothing but reversals after the first reversal. */
module PlanCalls {
  import opened Prelude
  import opened Errors
  import opened Venue
  import opened PlanExecutor
  import opened PlanProperties
  import opened PlanLedger

  /** A call a live step makes for itself, not to undo anything. */
  predicate Asked(step: PlanStep, c: Call) {
    var symbol, side, qty := SymbolOf(step), SideOf(step), SizeOf(step).qty;
    match step.action
    case MarketOrder => c == Place(symbol, side, qty, false)
    case LimitOrder => c == Rest(symbol, side, qty, false)
    case StopOrder => c == Rest(symbol, side, qty, true)
    case CancelOrder => c == Cancel(symbol, step.params.orderId)
    case CancelAllOrders => c == CancelAll(symbol)
    case SetLeverageTo => c == SetLeverage(symbol)
    case ClosePosition =>
      Market(c.symbol) == Market(symbol) && (c.FindPosition? || c.ReadNet? || (c.Place? && c.reduceOnly))
    case CheckBalance => c == ReadBalance(symbol)
    case CheckPosition => c == FindPosition(symbol)
    case _ => false
  }

  /** A call that takes back what an order step did: a reduce-only order of the opposite side with
      position reads, or a cancellation, on that step's own symbol. */
  predicate TakesBack(step: PlanStep, c: Call) {
    && step.action in RESTABLE && c.symbol == SymbolOf(step)
    && if step.action == MarketOrder then c.ReadNet? || (c.Place? && c.reduceOnly && c.side == Opposite(SideOf(step)))
       else c.Cancel?
  }

  predicate Planned(steps: seq<PlanStep>, e: Event) {
    e.step < |steps| && if e.undo then TakesBack(steps[e.step], e.call) else Asked(steps[e.step], e.call)
  }

  /** The order of a run's calls. */
  ghost predicate InPlanOrder(steps: seq<PlanStep>, log: seq<Event>) {
    && (forall k :: 0 <= k < |log| ==> Planned(steps, log[k]))
    && (forall a, b :: 0 <= a < b < |log| ==> Follows(steps, log[a], log[b]))
  }

  /** `f` may come after `e`: nothing live follows a reversal, live calls follow the plan's order,
      and no order is sent a second time. */
  predicate Follows(steps: seq<PlanStep>, e: Event, f: Event) {
    !f.undo ==>
      !e.undo && e.step <= f.step && (e.step == f.step && e.step < |steps| ==> steps[e.step].action !in RESTABLE)
  }

  /** From `w` to `w'`: live calls of step `i` that it asked for, and only one if it places an order. */
  ghost predicate LiveCalls(steps: seq<PlanStep>, w: World, w': World, i: nat) {
    && i < |steps| && StepEvents(w, w', i)
    && (forall k :: |w.log| <= k < |w'.log| ==> Asked(steps[i], w'.log[k].call))
    && (steps[i].action in RESTABLE ==> |w'.log| <= |w.log| + 1)
  }

  lemma CloseAsks(env: Env, w: World, i: nat, symbol: string)
    requires Honest(env)
    ensures var w' := ExecuteClose(env, w, i, symbol).0;
            |w.log| <= |w'.log| && forall k :: |w.log| <= k < |w'.log| ==>
              var c := w'.log[k].call;
                Market(c.symbol) == Market(symbol) && (c.FindPosition? || c.ReadNet? || (c.Place? && c.reduceOnly))
  {
    hide ClosePerp, Market;
    var (w1, r) := Send(env, w, i, false, FindPosition(symbol));
    assert Admissible(w, FindPosition(symbol), r);
    if r.Found? && r.position.Some? {
      var lp := r.position.value;
      var side := if lp.signed > 0.0 then Sell else Buy;
      var _ := ClosePerpEffect(env, w1, i, false, lp.symbol, side, Abs(lp.signed), lp.decimals);
      var w2 := ClosePerp(env, w1, i, false, lp.symbol, side, Abs(lp.signed), lp.decimals).0;
      forall k | |w1.log| <= k < |w2.log| ensures ClosingEvent(w2.log[k], i, false, lp.symbol, side) {}
      assert w2.log[|w.log|] == w2.log[..|w1.log|][|w.log|];
    }
  }

  lemma StepAsks(env: Env, steps: seq<PlanStep>, w: World, i: nat)
    requires Honest(env) && i < |steps|
    ensures LiveCalls(steps, w, ExecuteStep(env, w, i, steps[i]).0, i)
  {
    hide ExecuteClose, Market, SymbolOf;
    ExecuteStepEvents(env, w, i, steps[i]);
    if steps[i].action == ClosePosition { CloseAsks(env, w, i, SymbolOf(steps[i])); }
  }

  /** While a plan runs: live calls of the steps so far, in order. */
  ghost predicate LiveSoFar(steps: seq<PlanStep>, log: seq<Event>, i: nat) {
    InPlanOrder(steps, log) && forall k :: 0 <= k < |log| ==> !log[k].undo && log[k].step < i
  }

  lemma LiveNext(steps: seq<PlanStep>, w: World, w': World, i: nat)
    requires LiveSoFar(steps, w.log, i) && LiveCalls(steps, w, w', i)
    ensures LiveSoFar(steps, w'.log, i + 1)
  {
    hide Asked, TakesBack;
    var n := |w.log|;
    forall k | 0 <= k < |w'.log|
      ensures Planned(steps, w'.log[k]) && !w'.log[k].undo && w'.log[k].step <= i
              && (k < n ==> w'.log[k] == w.log[k] && w.log[k].step < i) {
      if k < n { assert w'.log[k] == w'.log[..n][k] && Planned(steps, w.log[k]); }
    }
    forall a, b | 0 <= a < b < |w'.log| ensures Follows(steps, w'.log[a], w'.log[b]) {
      if b < n { assert Follows(steps, w.log[a], w.log[b]); }
    }
  }

  lemma LiveLater(steps: seq<PlanStep>, log: seq<Event>, i: nat)
    requires LiveSoFar(steps, log, i)
    ensures LiveSoFar(steps, log, i + 1)
  {
  }

  lemma ReversalsLast(steps: seq<PlanStep>, w: World, w': World, i: nat)
    requires LiveSoFar(steps, w.log, i) && |w.log| <= |w'.log| && w'.log[..|w.log|] == w.log
    requires forall k :: |w.log| <= k < |w'.log| ==> w'.log[k].undo && Planned(steps, w'.log[k])
    ensures InPlanOrder(steps, w'.log)
  {
    hide Asked, TakesBack;
    var n := |w.log|;
    forall k | 0 <= k < n ensures w'.log[k] == w.log[k] { assert w'.log[k] == w'.log[..n][k]; }
    forall k | 0 <= k < |w'.log| ensures Planned(steps, w'.log[k]) {
      if k < n { assert Planned(steps, w.log[k]); }
    }
    forall a, b | 0 <= a < b < |w'.log| ensures Follows(steps, w'.log[a], w'.log[b]) {
      if b < n { assert Follows(steps, w.log[a], w.log[b]); }
    }
  }

  /** The rollback's calls take back steps of the plan. */
  lemma UndoIsPlanned(steps: seq<PlanStep>, run: Run, i: nat, u: Undo, skip: Option<string>, idxs: seq<nat>, e: Event)
    requires DistinctIds(steps) && Running(steps, run, i) && Reversible(steps, u, run.placed, idxs)
    requires UndoEvent(e, steps, run.placed, skip) && e.step in idxs
    ensures e.undo && Planned(steps, e)
  {
    hide SymbolOf, Actionable;
    var k := e.step;
    assert steps[k].id in run.placed && PlacedFor(run.placed[steps[k].id], steps[k]);
    var j :| 0 <= j < |idxs| && idxs[j] == k;
    assert u.results[idxs[j]].status == Success;
    RunningPlacement(steps, run, i, k);
  }

  lemma RunningPlacement(steps: seq<PlanStep>, run: Run, i: nat, k: nat)
    requires Running(steps, run, i) && k < |steps| && steps[k].id in run.placed && DistinctIds(steps)
    ensures steps[k].action in RESTABLE
  {
    hide SymbolOf, PlacedFor;
    var l :| 0 <= l < i && steps[l].id == steps[k].id;
  }

  lemma RollbackIsPlanned(env: Env, steps: seq<PlanStep>, run: Run, i: nat, u: Undo, skip: Option<string>,
      idxs: seq<nat>)
    requires Honest(env) && DistinctIds(steps) && Running(steps, run, i) && Reversible(steps, u, run.placed, idxs)
             && LiveSoFar(steps, u.w.log, i + 1)
    ensures InPlanOrder(steps, RollbackSteps(env, u, run.placed, skip, idxs).w.log)
  {
    hide RollbackSteps, UndoEvent, Planned, Running, LiveSoFar, InPlanOrder;
    RollbackCalls(env, steps, u, run.placed, skip, idxs);
    var w' := RollbackSteps(env, u, run.placed, skip, idxs).w;
    forall k | |u.w.log| <= k < |w'.log| ensures w'.log[k].undo && Planned(steps, w'.log[k]) {
      UndoIsPlanned(steps, run, i, u, skip, idxs, w'.log[k]);
    }
    ReversalsLast(steps, u.w, w', i + 1);
  }

  lemma StopIsPlanned(env: Env, steps: seq<PlanStep>, run: Run, i: nat, err: Thrown)
    requires Honest(env) && DistinctIds(steps) && i < |steps| && Running(steps, run, i)
             && LiveSoFar(steps, run.w.log, i + 1)
    requires OnThrow(env, run, steps[i], err).Stop?
    ensures InPlanOrder(steps, OnThrow(env, run, steps[i], err).result.w.log)
  {
    hide RollbackSteps, Running, SymbolOf, InPlanOrder, Successes;
    var step := steps[i];
    assert InPlanOrder(steps, run.w.log) by { LiveIsOrdered(steps, run.w.log, i + 1); }
    if step.action in ORDER_ACTIONS && IsOutcomeUnknown(err) {
      var v := StepView(step.id, step.action, Pending, Some(OUTCOME_PENDING));
      var u := Undo(run.w, run.results + [v], run.quarantined + {Upper(SymbolOf(step))});
      PendingIsReversible(steps, run, i, v, run.w, u.quarantined);
      RollbackIsPlanned(env, steps, run, i, u, Some(SymbolOf(step)), Successes(u.results));
    } else if step.onFailure == Rollback {
      RunningIsReversible(steps, run, i);
      RollbackIsPlanned(env, steps, run, i, UndoOf(run), None, Successes(run.results));
    }
  }

  lemma LiveIsOrdered(steps: seq<PlanStep>, log: seq<Event>, i: nat)
    requires LiveSoFar(steps, log, i)
    ensures InPlanOrder(steps, log)
  {
  }

  lemma {:induction false} RunFromIsPlanned(env: Env, steps: seq<PlanStep>, dryRun: bool, run: Run, i: nat)
    requires Honest(env) && DistinctIds(steps) && Running(steps, run, i) && LiveSoFar(steps, run.w.log, i)
    ensures InPlanOrder(steps, ExecuteFrom(env, steps, dryRun, run, i).w.log)
    decreases |steps| - i
  {
    hide ExecuteStep, OnThrow, ResultsSoFar, CompletedSoFar, PlacedSoFar, LiveSoFar, InPlanOrder, DependencyMet;
    hide LiveCalls;
    if i == |steps| {
      LiveIsOrdered(steps, run.w.log, i);
    } else {
      var next := Advance(env, steps, dryRun, run, i);
      LiveLater(steps, run.w.log, i);
      StepAsks(env, steps, run.w, i);
      var (w1, o) := ExecuteStep(env, run.w, i, steps[i]);
      LiveNext(steps, run.w, w1, i);
      if next.Continue? {
        AdvanceKeepsRunning(env, steps, dryRun, run, i);
        AdvanceWorld(env, steps, dryRun, run, i);
        RunFromIsPlanned(env, steps, dryRun, next.run, i + 1);
      } else {
        WorldKeepsRunning(steps, run, i, w1);
        StopIsPlanned(env, steps, run.(w := w1), i, o.err);
      }
    }
  }

  lemma WorldKeepsRunning(steps: seq<PlanStep>, run: Run, i: nat, w: World)
    requires Running(steps, run, i)
    ensures Running(steps, run.(w := w), i)
  {
    hide PlacedFor;
  }

  lemma AdvanceWorld(env: Env, steps: seq<PlanStep>, dryRun: bool, run: Run, i: nat)
    requires i < |steps| && Advance(env, steps, dryRun, run, i).Continue?
    ensures Advance(env, steps, dryRun, run, i).run.w in {run.w, ExecuteStep(env, run.w, i, steps[i]).0}
  {
    hide ExecuteStep, RollbackSteps;
  }

  /** Whatever the venue answers, a run of an accepted plan only makes the calls its steps ask for,
      in plan order, sends each market, limit and stop order at most once, and after its first
      reversal makes only reversals, each of one of its own steps. */
  lemma {:induction false} RunDoesOnlyWhatIsAsked(env: Env, plan: Plan, dryRun: bool, canClose: bool, w: World)
    requires Honest(env) && ValidPlan(plan) && w.log == []
    ensures var r := ExecutePlan(env, plan.steps, dryRun, canClose, w);
            r.Some? ==> InPlanOrder(plan.steps, r.value.w.log)
  {
    hide ExecuteFrom, InPlanOrder;
    ValidPlanHasDistinctIds(plan);
    StartIsRunning(plan.steps, w);
    RunFromIsPlanned(env, plan.steps, dryRun, Start(w), 0);
  }

  lemma StartIsRunning(steps: seq<PlanStep>, w: World)
    requires w.log == []
    ensures Running(steps, Start(w), 0) && LiveSoFar(steps, w.log, 0)
  {
  }
}
