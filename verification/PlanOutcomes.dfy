/** How a step and a plan end, read from what the venue answered. */
module PlanOutcomes {
  import opened Prelude
  import opened Errors
  import opened Venue
  import opened PlanExecutor
  import opened PlanProperties
  import opened PlanLedger

  // ── Which plans are accepted ──

  /** Every parameter an action needs is there. */
  predicate Given(step: PlanStep) {
    var a, p := step.action, step.params;
    && (a in {MarketOrder, LimitOrder, StopOrder, CancelOrder, SetLeverageTo} ==> p.symbol != "")
    && (a in {MarketOrder, LimitOrder, StopOrder} ==> p.side != None && p.size != None)
    && (a == LimitOrder ==> p.hasPrice)
    && (a == StopOrder ==> p.hasTriggerPrice)
    && (a == CancelOrder ==> p.orderId != "")
    && (a == SetLeverageTo ==> p.hasLeverage)
    && (a == Wait ==> p.hasMs)
  }

  /** A known action and policy, an id, its parameters, and a dependency that is some step of the plan. */
  predicate WellMade(plan: Plan, step: PlanStep) {
    && step.id != "" && Given(step)
    && !step.action.OtherAction? && step.onFailure in {Unset, Abort, Skip, Rollback}
    && (step.dependsOn != "" ==> exists s :: s in plan.steps && s.id == step.dependsOn)
  }

  /** A plan is accepted exactly when it has version 1.0, at least one step, no id twice and well-made steps. */
  lemma AcceptedIff(plan: Plan)
    ensures ValidPlan(plan) <==>
              && plan.version == "1.0" && 0 < |plan.steps|
              && (forall i, j :: 0 <= i < j < |plan.steps| ==> plan.steps[i].id != plan.steps[j].id)
              && (forall step :: step in plan.steps ==> WellMade(plan, step))
  {
    forall i | 0 <= i < |plan.steps|
      ensures StepOk(plan.steps, i) <==>
                WellMade(plan, plan.steps[i]) && forall j :: 0 <= j < i ==> plan.steps[j].id != plan.steps[i].id
    {
      StepOkIff(plan, i);
    }
    if ValidPlan(plan) {
      forall step | step in plan.steps ensures WellMade(plan, step) {
        var i :| 0 <= i < |plan.steps| && plan.steps[i] == step;
        assert StepOk(plan.steps, i);
      }
      forall i, j | 0 <= i < j < |plan.steps| ensures plan.steps[i].id != plan.steps[j].id {
        assert StepOk(plan.steps, j);
      }
    }
  }

  lemma StepOkIff(plan: Plan, i: nat)
    requires i < |plan.steps|
    ensures StepOk(plan.steps, i) <==>
              WellMade(plan, plan.steps[i]) && forall j :: 0 <= j < i ==> plan.steps[j].id != plan.steps[i].id
  {
    var s := plan.steps[i];
    assert HasId(plan.steps, s.dependsOn) <==> exists t :: t in plan.steps && t.id == s.dependsOn by {
      if t :| t in plan.steps && t.id == s.dependsOn {
        var j :| 0 <= j < |plan.steps| && plan.steps[j] == t;
      }
      if HasId(plan.steps, s.dependsOn) {
        var j :| 0 <= j < |plan.steps| && plan.steps[j].id == s.dependsOn;
        assert plan.steps[j] in plan.steps;
      }
    }
    assert ParamsPresent(s) <==> Given(s);
  }

  /** The reply to a step's first call. */
  function FirstReply(env: Env, w: World, step: PlanStep): Reply {
    var symbol, side, size := SymbolOf(step), SideOf(step), SizeOf(step);
    match step.action
    case MarketOrder => env(w, Place(symbol, side, size.qty, false))
    case LimitOrder => env(w, Rest(symbol, side, size.qty, false))
    case StopOrder => env(w, Rest(symbol, side, size.qty, true))
    case CancelOrder => env(w, Cancel(symbol, step.params.orderId))
    case CancelAllOrders => env(w, CancelAll(symbol))
    case SetLeverageTo => env(w, SetLeverage(symbol))
    case CheckBalance => env(w, ReadBalance(symbol))
    case ClosePosition => env(w, FindPosition(symbol))
    case CheckPosition => env(w, FindPosition(symbol))
    case _ => Done
  }

  /** A step succeeds exactly when: a market order was filled, a resting order rests, a cancellation or a
      leverage change did not throw; the balance read is at least a positive minimum asked for; the position
      read is there if it must be and absent if it must be; a wait always, an unknown action never; and the
      close of a position that is there left nothing open. */
  lemma StepSucceedsIff(env: Env, w: World, i: nat, step: PlanStep)
    requires Honest(env)
    ensures var r, p := FirstReply(env, w, step), step.params;
            ExecuteStep(env, w, i, step).1.Succeeded? <==>
              match step.action
              case MarketOrder => r.Filled?
              case LimitOrder => r.Rested?
              case StopOrder => r.Rested?
              case CancelOrder => !r.Threw?
              case CancelAllOrders => !r.Threw?
              case SetLeverageTo => !r.Threw?
              case CheckBalance => r.Balance? && (p.minAvailable <= 0.0 || p.minAvailable <= r.available)
              case CheckPosition => r.Found? && (p.mustExist ==> r.position.Some?)
                && (p.mustNotExist ==> r.position.None?)
              case Wait => true
              case OtherAction(_) => false
              case ClosePosition =>
                r.Found? && r.position.Some? &&
                var lp := r.position.value;
                var side, size := if lp.signed > 0.0 then Sell else Buy, if lp.signed > 0.0 then lp.signed
                  else -lp.signed;
                var w1 := Send(env, w, i, false, FindPosition(SymbolOf(step))).0;
                var c := ClosePerp(env, w1, i, false, lp.symbol, side, size, lp.decimals).1;
                c.Closed? && c.residual <= 0.0
  {
    hide ClosePerp, Market, SymbolOf;
  }

  /** The side of an order step: a buy only when it says so. */
  lemma SideIs(step: PlanStep)
    ensures SideOf(step) == Buy <==> step.params.side == Some(Buy)
  {
  }

  // ── How a plan ends ──

  /** The status a list of results stands for. */
  ghost function StatusFor(steps: seq<PlanStep>, results: seq<StepView>): PlanStatus
    requires results != [] && |results| <= |steps|
  {
    var last := results[|results| - 1].status;
    if last == Pending then PlanPending
    else if exists k :: 0 <= k < |results| && results[k].status == RollbackFailed then Quarantined
    else if last == FailedStep then
      if exists k :: 0 <= k < |results| && results[k].status == Success then Partial else PlanFailed
    else if last == RolledBack then PlanFailed
    else Completed
  }

  lemma {:induction false} EndsWithStatus(env: Env, steps: seq<PlanStep>, run: Run, i: nat)
    requires DistinctIds(steps) && Running(steps, run, i) && steps != []
    ensures var r := ExecuteFrom(env, steps, false, run, i);
            && 0 < |r.steps| <= |steps| && r.status == StatusFor(steps, r.steps)
            && (r.status == Completed ==> |r.steps| == |steps|)
    decreases |steps| - i
  {
    hide ExecuteStep, OnThrow, StatusFor, CompletedSoFar, PlacedSoFar, DependencyMet;
    if i == |steps| {
      CompletedStatus(steps, run);
    } else if Advance(env, steps, false, run, i).Continue? {
      AdvanceKeepsRunning(env, steps, false, run, i);
      EndsWithStatus(env, steps, Advance(env, steps, false, run, i).run, i + 1);
    } else {
      var (w1, o) := ExecuteStep(env, run.w, i, steps[i]);
      RunningIgnoresWorld(steps, run, i, w1);
      StopStatus(env, steps, run.(w := w1), i, o.err);
    }
  }

  lemma CompletedStatus(steps: seq<PlanStep>, run: Run)
    requires steps != [] && Running(steps, run, |steps|)
    ensures Finish(Completed, UndoOf(run)).status == Completed == StatusFor(steps, run.results)
  {
    hide CompletedSoFar, PlacedSoFar;
  }

  lemma ExposedIff(steps: seq<PlanStep>, results: seq<StepView>)
    requires |results| <= |steps|
    ensures Exposed(steps, results) == {}
            <==> forall k :: 0 <= k < |results| ==> results[k].status !in {Pending, RollbackFailed}
  {
    hide SymbolOf;
    if k :| 0 <= k < |results| && results[k].status in {Pending, RollbackFailed} {
      assert SymbolOf(steps[k]) in Exposed(steps, results);
    }
  }

  lemma {:induction false} StopStatus(env: Env, steps: seq<PlanStep>, run: Run, i: nat, err: Thrown)
    requires i < |steps| && Running(steps, run, i) && OnThrow(env, run, steps[i], err).Stop?
    ensures var r := OnThrow(env, run, steps[i], err).result;
            0 < |r.steps| <= |steps| && r.status == StatusFor(steps, r.steps) && r.status != Completed
  {
    hide RollbackSteps, SymbolOf, Exposed, CompletedSoFar, PlacedSoFar, Successes;
    var step := steps[i];
    StopIsWellShaped(env, steps, run, i, err);
    var r := OnThrow(env, run, step, err).result;
    ExposedIff(steps, r.steps);
    if step.action in ORDER_ACTIONS && IsOutcomeUnknown(err) {
    } else if step.onFailure == Rollback {
      RunningIsReversible(steps, run, i);
    } else {
      SuccessesEmptyIff(r.steps);
    }
  }

  lemma {:induction false} SuccessesEmptyIff(results: seq<StepView>)
    ensures Successes(results) == [] <==> forall k :: 0 <= k < |results| ==> results[k].status != Success
  {
    if results != [] { SuccessesEmptyIff(results[..|results| - 1]); }
  }

  /** The status of every live run of an accepted plan: pending when its last step is; otherwise quarantined
      when a reversal failed; otherwise partial or failed when it stopped at a failed step, by whether any
      step succeeded; failed when it was rolled back; otherwise completed, with a result for every step. */
  lemma StatusIs(env: Env, plan: Plan, canClose: bool, w0: World)
    requires ValidPlan(plan) && ExecutePlan(env, plan.steps, false, canClose, w0).Some?
    ensures var r := ExecutePlan(env, plan.steps, false, canClose, w0).value;
            && 0 < |r.steps| <= |plan.steps| && r.status == StatusFor(plan.steps, r.steps)
            && (r.status == Completed ==> |r.steps| == |plan.steps|)
  {
    hide StepOk, StatusFor;
    ValidPlanHasDistinctIds(plan);
    EndsWithStatus(env, plan.steps, Start(w0), 0);
  }

  /** An order step's symbol is sent in upper case, with the size as typed. */
  lemma OrderIs(step: PlanStep)
    ensures |SymbolOf(step)| == |step.params.symbol|
    ensures forall i :: 0 <= i < |SymbolOf(step)| ==> SymbolOf(step)[i] == UpperChar(step.params.symbol[i])
    ensures step.params.size.Some? ==> SizeOf(step) == step.params.size.value
  {
  }

  /** A plan is refused before its first step exactly when it runs live, places an order, and the venue cannot
      close positions. */
  lemma RefusedIff(env: Env, plan: Plan, dryRun: bool, canClose: bool, w: World)
    ensures ExecutePlan(env, plan.steps, dryRun, canClose, w).None? <==>
              && !dryRun && !canClose
              && exists step :: step in plan.steps
                                && step.action in {MarketOrder, LimitOrder, StopOrder, ClosePosition}
  {
    hide ExecuteFrom;
    if step :| step in plan.steps && step.action in {MarketOrder, LimitOrder, StopOrder, ClosePosition} {
      var i :| 0 <= i < |plan.steps| && plan.steps[i] == step;
      assert plan.steps[i].action in ORDER_ACTIONS;
    }
  }

  // ── What a result says ──

  /** What a step's status and error code may be, given its failure policy. */
  predicate Fits(step: PlanStep, v: StepView) {
    match v.status
    case Success => v.code == None
    case DryRun => v.code == None
    case Cancelled => v.code == None
    case Pending => v.code == Some(OUTCOME_PENDING)
      && step.action in {MarketOrder, LimitOrder, StopOrder, ClosePosition}
    case FailedStep => v.code == Some(STEP_FAILED) && step.onFailure != Skip && step.onFailure != Rollback
    case Skipped => v.code == Some(DEPENDENCY_FAILED) || (v.code == Some(STEP_FAILED) && step.onFailure == Skip)
    case RolledBack => v.code == None || (v.code == Some(STEP_FAILED) && step.onFailure == Rollback)
    case RollbackFailed => v.code == Some(OUTCOME_PENDING) || v.code == Some(ROLLBACK_FAILED)
  }

  ghost predicate AllFit(steps: seq<PlanStep>, results: seq<StepView>) {
    |results| <= |steps| && forall k :: 0 <= k < |results| ==> Fits(steps[k], results[k])
  }

  lemma {:induction false} RollbackFits(env: Env, steps: seq<PlanStep>, u: Undo, placed: map<string, PlacedOrder>,
      skip: Option<string>, idxs: seq<nat>)
    requires AllFit(steps, u.results) && InRange(idxs, |u.results|)
    requires forall k :: 0 <= k < |idxs| ==> u.results[idxs[k]].status == Success
    requires forall k, l :: 0 <= k < l < |idxs| ==> idxs[k] < idxs[l]
    ensures AllFit(steps, RollbackSteps(env, u, placed, skip, idxs).results)
    decreases |idxs|
  {
    hide Reverse;
    if idxs != [] {
      var n := |idxs| - 1;
      RollbackFits(env, steps, ReverseStep(env, u, placed, skip, idxs[n]), placed, skip, idxs[..n]);
    }
  }

  lemma OneMoreFits(steps: seq<PlanStep>, results: seq<StepView>, v: StepView)
    requires AllFit(steps, results) && |results| < |steps| && Fits(steps[|results|], v)
    ensures AllFit(steps, results + [v])
  {
    hide Fits;
  }

  lemma ThrowFits(env: Env, steps: seq<PlanStep>, run: Run, i: nat, err: Thrown)
    requires i < |steps| && |run.results| == i && AllFit(steps, run.results)
    ensures match OnThrow(env, run, steps[i], err)
            case Continue(run') => AllFit(steps, run'.results)
            case Stop(r) => AllFit(steps, r.steps)
  {
    hide RollbackSteps, SymbolOf, AllFit, Successes;
    var step := steps[i];
    if step.action in ORDER_ACTIONS && IsOutcomeUnknown(err) {
      var v := StepView(step.id, step.action, Pending, Some(OUTCOME_PENDING));
      OneMoreFits(steps, run.results, v);
      var u := Undo(run.w, run.results + [v], run.quarantined + {Upper(SymbolOf(step))});
      RollbackFits(env, steps, u, run.placed, Some(SymbolOf(step)), Successes(u.results));
    } else if step.onFailure == Rollback {
      RollbackFits(env, steps, UndoOf(run), run.placed, None, Successes(run.results));
      OneMoreFits(steps, RollbackSteps(env, UndoOf(run), run.placed, None, Successes(run.results)).results,
                  StepView(step.id, step.action, RolledBack, Some(STEP_FAILED)));
    } else {
      OneMoreFits(steps, run.results,
                  StepView(step.id, step.action, if step.onFailure == Skip then Skipped else FailedStep,
                           Some(STEP_FAILED)));
    }
  }

  lemma {:induction false} RunFits(env: Env, steps: seq<PlanStep>, dryRun: bool, run: Run, i: nat)
    requires i <= |steps| && |run.results| == i && AllFit(steps, run.results)
    ensures AllFit(steps, ExecuteFrom(env, steps, dryRun, run, i).steps)
    decreases |steps| - i
  {
    hide ExecuteStep, OnThrow, DependencyMet;
    if i < |steps| {
      var (w1, o) := ExecuteStep(env, run.w, i, steps[i]);
      if o.Failed? {
        ThrowFits(env, steps, run.(w := w1), i, o.err);
        ThrowRecords(env, run.(w := w1), steps[i], o.err);
      }
      var next := Advance(env, steps, dryRun, run, i);
      if next.Continue? { RunFits(env, steps, dryRun, next.run, i + 1); }
    }
  }

  lemma ThrowRecords(env: Env, run: Run, step: PlanStep, err: Thrown)
    ensures var n := OnThrow(env, run, step, err); n.Continue? ==> |n.run.results| == |run.results| + 1
  {
    hide RollbackSteps, SymbolOf;
  }

  /** Over every run: what fails under "skip" is skipped with STEP_FAILED, under "rollback" rolled_back with it,
      otherwise failed with it; a step is skipped for its policy or its dependency and for nothing else; only a
      failed reversal and a pending step carry another error, and what succeeded or was undone carries none. */
  lemma FailureFollowsPolicy(env: Env, plan: Plan, dryRun: bool, canClose: bool, w: World)
    requires ExecutePlan(env, plan.steps, dryRun, canClose, w).Some?
    ensures var r := ExecutePlan(env, plan.steps, dryRun, canClose, w).value;
            |r.steps| <= |plan.steps| && forall k :: 0 <= k < |r.steps| ==> Fits(plan.steps[k], r.steps[k])
  {
    RunFits(env, plan.steps, dryRun, Start(w), 0);
  }

  /** A reversal fails when the venue threw, part of the close stays, or there is no order id to cancel; its
      code is OUTCOME_PENDING (the source's ORDER_PENDING) exactly when the thrown outcome is unknown. */
  lemma ReversalCode(env: Env, u: Undo, placed: map<string, PlacedOrder>, skip: Option<string>, i: nat)
    requires i < |u.results| && u.results[i].stepId in placed && !Skips(skip, placed[u.results[i].stepId])
    ensures var v, o := ReverseStep(env, u, placed, skip, i).results[i], placed[u.results[i].stepId];
            match o.filled
            case Some(filled) =>
              var size := FillSize(filled, o.decimals);
              var c := ClosePerp(env, u.w, i, true, o.symbol, if o.side == Buy then Sell else Buy, size, o.decimals).1;
              if size <= 0.0 then v == u.results[i]
              else if c.CloseThrew? then FailedWith(v, u.results[i], Some(c.err))
              else if c.residual > 0.0 then FailedWith(v, u.results[i], None)
              else v == u.results[i].(status := RolledBack)
            case None =>
              if o.orderId.None? then FailedWith(v, u.results[i], None)
              else
                var r := env(u.w, Cancel(o.symbol, o.orderId.value));
                if r.Threw? then FailedWith(v, u.results[i], Some(r.err)) else v == u.results[i].(status := Cancelled)
  {
    hide ClosePerp, FillSize;
  }

  predicate FailedWith(v: StepView, was: StepView, err: Option<Thrown>) {
    var unknown := err.Some? && err.value.PerpError? && err.value.code == ORDER_PENDING;
    v == was.(status := RollbackFailed, code := v.code) && v.code.Some?
    && (if unknown then v.code == Some(OUTCOME_PENDING) else v.code == Some(ROLLBACK_FAILED))
  }
}
