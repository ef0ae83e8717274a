/** What follows an order whose outcome is unknown, over whole runs: when the plan stops and
    quarantines its symbol, and exactly when a later call still names its market. */
module PlanIsolation {
  import opened Prelude
  import opened Errors
  import opened Venue
  import opened PlanExecutor
  import opened PlanProperties
  import opened PlanLedger
  import opened PlanCalls

  // ── Where a run ends ──

  /** The run when its loop stops (with the calls of the failing step, before the rollback), the
      index of the failing step and its error; None when every step was dealt with. */
  datatype End = End(run: Run, i: nat, err: Option<Thrown>)

  function EndOf(env: Env, steps: seq<PlanStep>, run: Run, i: nat): End
    requires i <= |steps|
    decreases |steps| - i
  {
    if i == |steps| then End(run, i, None)
    else
      match Advance(env, steps, false, run, i)
      case Continue(run') => EndOf(env, steps, run', i + 1)
      case Stop(_) => var (w1, o) := ExecuteStep(env, run.w, i, steps[i]);
        End(run.(w := w1), i, if o.Failed? then Some(o.err) else None)
  }

  function ResultOf(env: Env, steps: seq<PlanStep>, e: End): PlanResult {
    if e.err.None? || e.i >= |steps| then Finish(Completed, UndoOf(e.run))
    else
      var next := OnThrow(env, e.run, steps[e.i], e.err.value);
      if next.Stop? then next.result else Finish(Completed, UndoOf(e.run))
  }

  /** What holds where a run ends. */
  ghost predicate Ended(env: Env, steps: seq<PlanStep>, e: End) {
    && e.i <= |steps| && Running(steps, e.run, e.i)
    && (e.err.None? <==> e.i == |steps|)
    && (e.err.Some? ==> OnThrow(env, e.run, steps[e.i], e.err.value).Stop?)
    && LiveSoFar(steps, e.run.w.log, if e.err.Some? then e.i + 1 else e.i)
  }

  lemma {:induction false} EndIsReached(env: Env, steps: seq<PlanStep>, run: Run, i: nat)
    requires Honest(env) && DistinctIds(steps) && Running(steps, run, i) && LiveSoFar(steps, run.w.log, i)
    ensures var e := EndOf(env, steps, run, i);
            Ended(env, steps, e) && ExecuteFrom(env, steps, false, run, i) == ResultOf(env, steps, e)
    decreases |steps| - i
  {
    hide ExecuteStep, OnThrow, ResultsSoFar, CompletedSoFar, PlacedSoFar, LiveSoFar, DependencyMet, LiveCalls;
    if i < |steps| {
      var next := Advance(env, steps, false, run, i);
      LiveLater(steps, run.w.log, i);
      StepAsks(env, steps, run.w, i);
      var (w1, o) := ExecuteStep(env, run.w, i, steps[i]);
      LiveNext(steps, run.w, w1, i);
      if next.Continue? {
        AdvanceKeepsRunning(env, steps, false, run, i);
        AdvanceWorld(env, steps, false, run, i);
        EndIsReached(env, steps, next.run, i + 1);
      } else {
        WorldKeepsRunning(steps, run, i, w1);
      }
    }
  }

  // ── Which steps call the venue ──

  predicate CallsVenue(a: Action) {
    !a.Wait? && !a.OtherAction?
  }

  lemma StepCalls(env: Env, w: World, i: nat, step: PlanStep)
    requires Honest(env)
    ensures |ExecuteStep(env, w, i, step).0.log| > |w.log| <==> CallsVenue(step.action)
  {
    hide ClosePerp, Market, SymbolOf;
    if step.action == ClosePosition { CloseCalls(env, w, i, SymbolOf(step)); }
  }

  lemma CloseCalls(env: Env, w: World, i: nat, symbol: string)
    requires Honest(env)
    ensures |ExecuteClose(env, w, i, symbol).0.log| > |w.log|
  {
    hide ClosePerp, Market;
    var (w1, r) := Send(env, w, i, false, FindPosition(symbol));
    if r.Found? && r.position.Some? {
      var lp := r.position.value;
      var side := if lp.signed > 0.0 then Sell else Buy;
      var _ := ClosePerpEffect(env, w1, i, false, lp.symbol, side, Abs(lp.signed), lp.decimals);
    }
  }

  /** Every call of a live step is on that step's market. */
  lemma AskedMarket(step: PlanStep, c: Call)
    requires Asked(step, c)
    ensures Market(c.symbol) == MarketOf(step)
  {
    hide Market, SymbolOf;
  }

  ghost predicate Called(log: seq<Event>, j: nat) {
    exists e :: 0 <= e < |log| && log[e].step == j
  }

  /** Exactly the steps that got past their dependency check, and have something to ask, called the venue. */
  ghost predicate CalledSoFar(steps: seq<PlanStep>, run: Run, i: nat)
    requires i <= |steps|
  {
    && |run.results| == i && (forall e :: 0 <= e < |run.w.log| ==> run.w.log[e].step < i)
    && forall j :: 0 <= j < i ==> (Called(run.w.log, j) <==> Ran(run.results[j]) && CallsVenue(steps[j].action))
  }

  lemma CalledNext(steps: seq<PlanStep>, run: Run, i: nat, w: World, ran: bool, run': Run)
    requires i < |steps| && CalledSoFar(steps, run, i) && StepEvents(run.w, w, i)
    requires |w.log| > |run.w.log| <==> ran && CallsVenue(steps[i].action)
    requires run'.w == w && |run'.results| == i + 1 && run'.results[..i] == run.results
             && (Ran(run'.results[i]) <==> ran)
    ensures CalledSoFar(steps, run', i + 1)
  {
    var n := |run.w.log|;
    forall e | 0 <= e < |w.log|
      ensures w.log[e].step <= i && (e < n ==> w.log[e] == run.w.log[e] && w.log[e].step < i) {
      if e < n { assert w.log[e] == w.log[..n][e]; }
    }
    forall j | 0 <= j <= i ensures Called(w.log, j) <==> Ran(run'.results[j]) && CallsVenue(steps[j].action) {
      if j < i {
        assert run'.results[j] == run'.results[..i][j];
        CalledKeeps(run.w, w, i, j);
      } else if |w.log| > n {
        assert w.log[n].step == i;
      }
    }
  }

  lemma CalledKeeps(w: World, w': World, i: nat, j: nat)
    requires StepEvents(w, w', i) && j < i
    ensures Called(w'.log, j) <==> Called(w.log, j)
  {
    var n := |w.log|;
    forall e | 0 <= e < n ensures w'.log[e] == w.log[e] { assert w'.log[e] == w'.log[..n][e]; }
    if e :| 0 <= e < n && w.log[e].step == j { assert w'.log[e].step == j; }
  }

  lemma {:induction false} EndCalled(env: Env, steps: seq<PlanStep>, run: Run, i: nat)
    requires Honest(env) && DistinctIds(steps) && Running(steps, run, i) && CalledSoFar(steps, run, i)
    ensures var e := EndOf(env, steps, run, i);
            && e.i <= |steps| && (e.err.Some? ==> e.i < |steps|)
            && (e.err.None? ==> CalledSoFar(steps, e.run, e.i))
            && (e.err.Some? ==> forall v: StepView :: Ran(v) ==>
                CalledSoFar(steps, e.run.(results := e.run.results + [v]), e.i + 1))
    decreases |steps| - i
  {
    hide ExecuteStep, OnThrow, ResultsSoFar, CompletedSoFar, PlacedSoFar, DependencyMet, CalledSoFar, CallsVenue;
    hide StepEvents;
    if i < |steps| {
      var next := Advance(env, steps, false, run, i);
      StepCalls(env, run.w, i, steps[i]);
      ExecuteStepEvents(env, run.w, i, steps[i]);
      var (w1, o) := ExecuteStep(env, run.w, i, steps[i]);
      if next.Continue? {
        AdvanceKeepsRunning(env, steps, false, run, i);
        AdvanceCalls(env, steps, run, i);
        EndCalled(env, steps, next.run, i + 1);
      } else {
        assert |run.results| == i by { RunningLength(steps, run, i); }
        forall v: StepView | Ran(v) ensures CalledSoFar(steps, run.(w := w1, results := run.results + [v]), i + 1) {
          assert (run.results + [v])[..i] == run.results;
          CalledNext(steps, run, i, w1, true, run.(w := w1, results := run.results + [v]));
        }
      }
    }
  }

  lemma AdvanceCalls(env: Env, steps: seq<PlanStep>, run: Run, i: nat)
    requires Honest(env) && i < |steps| && CalledSoFar(steps, run, i) && Advance(env, steps, false, run, i).Continue?
    ensures CalledSoFar(steps, Advance(env, steps, false, run, i).run, i + 1)
  {
    hide ExecuteStep, RollbackSteps, DependencyMet, CalledSoFar, CallsVenue, StepEvents;
    var run' := Advance(env, steps, false, run, i).run;
    StepCalls(env, run.w, i, steps[i]);
    ExecuteStepEvents(env, run.w, i, steps[i]);
    assert |run.results| == i by { CalledSize(steps, run, i); }
    assert run'.results[..i] == run.results;
    if !DependencyMet(run, steps[i]) {
      assert StepEvents(run.w, run.w, i) by { NoEvents(run.w, i); }
      CalledNext(steps, run, i, run.w, false, run');
    } else {
      CalledNext(steps, run, i, ExecuteStep(env, run.w, i, steps[i]).0, true, run');
    }
  }

  lemma CalledSize(steps: seq<PlanStep>, run: Run, i: nat)
    requires i <= |steps| && CalledSoFar(steps, run, i)
    ensures |run.results| == i
  {
  }

  lemma NoEvents(w: World, i: nat)
    ensures StepEvents(w, w, i)
  {
  }

  // ── The calls after a step ──

  /** What the rollback that ends the run leaves out: the symbol of a pending order. */
  function SkipOf(steps: seq<PlanStep>, e: End): Option<string> {
    if e.i < |steps| && e.err.Some? && steps[e.i].action in ORDER_ACTIONS && IsOutcomeUnknown(e.err.value)
      then Some(SymbolOf(steps[e.i])) else None
  }

  ghost predicate RollsBack(steps: seq<PlanStep>, e: End) {
    e.i < |steps| && e.err.Some? && steps[e.i].onFailure == Rollback
  }

  /** The run ends with a rollback, and that reverses something on the market. */
  ghost predicate DueOn(steps: seq<PlanStep>, e: End, market: string) {
    && RollsBack(steps, e)
    && exists j ::
       j in Successes(e.run.results) && Due(steps, e.run.placed, j) && Some(SymbolOf(steps[j])) != SkipOf(steps, e)
                   && Market(SymbolOf(steps[j])) == market
  }

  /** The rollback as the catch block starts it. */
  function UndoAt(steps: seq<PlanStep>, e: End): Undo
    requires e.i < |steps|
  {
    if SkipOf(steps, e).Some? then
      Undo(e.run.w, e.run.results + [StepView(steps[e.i].id, steps[e.i].action, Pending, Some(OUTCOME_PENDING))],
           e.run.quarantined + {Upper(SymbolOf(steps[e.i]))})
    else UndoOf(e.run)
  }

  function Reversed(env: Env, steps: seq<PlanStep>, e: End): Undo
    requires e.i < |steps| && InRange(Successes(e.run.results), |UndoAt(steps, e).results|)
  {
    RollbackSteps(env, UndoAt(steps, e), e.run.placed, SkipOf(steps, e), Successes(e.run.results))
  }

  lemma UndoIsReversible(steps: seq<PlanStep>, e: End)
    requires e.i < |steps| && Running(steps, e.run, e.i)
    ensures Reversible(steps, UndoAt(steps, e), e.run.placed, Successes(e.run.results))
    ensures UndoAt(steps, e).quarantined == Exposed(steps, UndoAt(steps, e).results)
    ensures UndoAt(steps, e).w == e.run.w && e.i !in Successes(e.run.results)
  {
    hide Running, Reversible, Exposed, SymbolOf, Successes;
    var step := steps[e.i];
    RunningIsReversible(steps, e.run, e.i);
    if SkipOf(steps, e).Some? {
      var v := StepView(step.id, step.action, Pending, Some(OUTCOME_PENDING));
      PendingIsReversible(steps, e.run, e.i, v, e.run.w, e.run.quarantined + {Upper(SymbolOf(step))});
      SuccessesAppend(e.run.results, v);
      PendingQuarantine(step);
    }
    EndIsFresh(steps, e);
  }

  lemma EndIsFresh(steps: seq<PlanStep>, e: End)
    requires e.i < |steps| && Running(steps, e.run, e.i)
    ensures |e.run.results| == e.i && e.run.quarantined == {} && e.i !in Successes(e.run.results)
  {
  }

  /** The catch block in terms of that rollback. */
  lemma StopResult(env: Env, steps: seq<PlanStep>, e: End)
    requires e.i < |steps| && e.err.Some? && Running(steps, e.run, e.i)
             && OnThrow(env, e.run, steps[e.i], e.err.value).Stop?
    ensures InRange(Successes(e.run.results), |UndoAt(steps, e).results|)
    ensures var r, u := ResultOf(env, steps, e), if RollsBack(steps, e) then Reversed(env, steps, e)
            else UndoAt(steps, e);
            && r.w == u.w && r.quarantined == u.quarantined && |r.steps| == e.i + 1
               && r.steps[..e.i] == u.results[..e.i]
            && (SkipOf(steps, e).Some? ==> r.steps == u.results && r.status == PlanPending)
            && (SkipOf(steps, e).None? ==>
                r.status in {Partial, PlanFailed, Quarantined} && r.steps[e.i].status in {RolledBack, FailedStep})
  {
    hide RollbackSteps, SymbolOf, Running, Successes;
    UndoIsReversible(steps, e);
    EndIsFresh(steps, e);
    if SkipOf(steps, e).Some? {
      var v := StepView(steps[e.i].id, steps[e.i].action, Pending, Some(OUTCOME_PENDING));
      SuccessesAppend(e.run.results, v);
    }
  }

  /** A rollback only adds reversals to the log, and it touches a market exactly when one is due there. */
  lemma EndCalls(env: Env, steps: seq<PlanStep>, e: End, market: string)
    requires Honest(env) && Ended(env, steps, e)
    ensures var r, n := ResultOf(env, steps, e), |e.run.w.log|;
            && n <= |r.w.log| && r.w.log[..n] == e.run.w.log && (forall k :: n <= k < |r.w.log| ==> r.w.log[k].undo)
            && ((exists k :: n <= k < |r.w.log| && Market(r.w.log[k].call.symbol) == market)
                <==> DueOn(steps, e, market))
  {
    hide RollbackSteps, SymbolOf, Running, Successes, Market, Due, OnThrow, LiveSoFar, Reversible;
    if e.err.Some? {
      StopResult(env, steps, e);
      UndoIsReversible(steps, e);
      if RollsBack(steps, e) {
        RollbackCalls(env, steps, UndoAt(steps, e), e.run.placed, SkipOf(steps, e), Successes(e.run.results));
        RollbackTouches(env, steps, UndoAt(steps, e), e.run.placed, SkipOf(steps, e), Successes(e.run.results), market);
      }
    }
  }

  /** The results a run ends with tell which steps got past their dependency check. */
  lemma EndRan(env: Env, steps: seq<PlanStep>, e: End)
    requires Ended(env, steps, e)
    ensures var r := ResultOf(env, steps, e);
            && |r.steps| == (if e.err.Some? then e.i + 1 else e.i) && |e.run.results| == e.i
            && (forall j :: 0 <= j < e.i ==> (Ran(r.steps[j]) <==> Ran(e.run.results[j])))
            && (e.err.Some? ==> Ran(r.steps[e.i]))
  {
    hide RollbackSteps, SymbolOf, Market, OnThrow, LiveSoFar, Exposed, CompletedSoFar, PlacedSoFar;
    if e.err.Some? {
      StopResult(env, steps, e);
      UndoIsReversible(steps, e);
      EndIsFresh(steps, e);
      var u := UndoAt(steps, e);
      if RollsBack(steps, e) {
        RollbackShape(env, steps, u, e.run.placed, SkipOf(steps, e), Successes(e.run.results));
        var u' := Reversed(env, steps, e);
        forall j | 0 <= j < e.i ensures Ran(u'.results[j]) <==> Ran(e.run.results[j]) {
          assert u.results[j] == e.run.results[j];
        }
        if SkipOf(steps, e).Some? { assert u'.results[e.i] == u.results[e.i]; }
      }
      forall j | 0 <= j < e.i ensures Ran(ResultOf(env, steps, e).steps[j]) <==> Ran(e.run.results[j]) {
        var r := ResultOf(env, steps, e);
        assert r.steps[j] == r.steps[..e.i][j];
      }
    }
  }

  /** The run of a whole plan, from its first step. */
  ghost predicate Runs(env: Env, plan: Plan, canClose: bool, w0: World) {
    Honest(env) && ValidPlan(plan) && w0.log == [] && ExecutePlan(env, plan.steps, false, canClose, w0).Some?
  }

  function EndOfPlan(env: Env, plan: Plan, w0: World): End {
    EndOf(env, plan.steps, Start(w0), 0)
  }

  function PlanRun(env: Env, plan: Plan, canClose: bool, w0: World): PlanResult
    requires ExecutePlan(env, plan.steps, false, canClose, w0).Some?
  {
    ExecutePlan(env, plan.steps, false, canClose, w0).value
  }

  lemma PlanEnds(env: Env, plan: Plan, canClose: bool, w0: World)
    requires Runs(env, plan, canClose, w0)
    ensures Ended(env, plan.steps, EndOfPlan(env, plan, w0))
    ensures PlanRun(env, plan, canClose, w0) == ResultOf(env, plan.steps, EndOfPlan(env, plan, w0))
  {
    hide EndOf, ExecuteFrom, Ended, ResultOf, StepOk;
    ValidPlanHasDistinctIds(plan);
    StartIsRunning(plan.steps, w0);
    EndIsReached(env, plan.steps, Start(w0), 0);
  }

  /** Step `j` got past its dependency check and made calls on this market. */
  predicate RanOn(steps: seq<PlanStep>, r: PlanResult, j: nat, market: string)
    requires j < |steps| && j < |r.steps|
  {
    Ran(r.steps[j]) && CallsVenue(steps[j].action) && MarketOf(steps[j]) == market
  }

  /** The steps' own calls, as the results tell them. */
  lemma EndCalledByResults(env: Env, plan: Plan, canClose: bool, w0: World, j: nat)
    requires Runs(env, plan, canClose, w0)
    ensures var r, e := PlanRun(env, plan, canClose, w0), EndOfPlan(env, plan, w0);
            && |r.steps| <= |plan.steps|
            && (j < |r.steps| ==> (Called(e.run.w.log, j) <==> Ran(r.steps[j]) && CallsVenue(plan.steps[j].action)))
            && forall k :: 0 <= k < |e.run.w.log| ==> e.run.w.log[k].step < |r.steps|
  {
    hide EndOf, ExecuteFrom, ResultOf, StepOk, Ended, CallsVenue, Called, ResultsSoFar, CompletedSoFar, PlacedSoFar;
    var steps, e, r := plan.steps, EndOfPlan(env, plan, w0), PlanRun(env, plan, canClose, w0);
    ValidPlanHasDistinctIds(plan);
    PlanEnds(env, plan, canClose, w0);
    StartIsRunning(steps, w0);
    EndCalled(env, steps, Start(w0), 0);
    EndRan(env, steps, e);
    EndIndex(env, steps, e);
    if e.err.Some? {
      var v := r.steps[e.i];
      var all := e.run.(results := e.run.results + [v]);
      assert CalledSoFar(steps, all, e.i + 1);
      if j < e.i { assert all.results[j] == e.run.results[j]; }
    }
  }

  lemma EndIndex(env: Env, steps: seq<PlanStep>, e: End)
    requires Ended(env, steps, e)
    ensures e.i <= |steps| && (e.err.Some? <==> e.i < |steps|)
    ensures forall k :: 0 <= k < |e.run.w.log| ==> !e.run.w.log[k].undo && Planned(steps, e.run.w.log[k])
  {
    hide Running, OnThrow, Planned;
  }

  /** Over a whole run: a call on a market follows the calls of step `s` exactly when a later step
      got past its dependency check and trades or reads there, or the rollback that ends the run
      has something to reverse there. */
  lemma {:induction false} LaterCallsIff(env: Env, plan: Plan, canClose: bool, w0: World, s: nat, market: string)
    requires Runs(env, plan, canClose, w0) && s < |PlanRun(env, plan, canClose, w0).steps|
    ensures var r := PlanRun(env, plan, canClose, w0);
            && |r.steps| <= |plan.steps|
            && ((exists f ::
                 0 <= f < |r.w.log| && (r.w.log[f].undo || r.w.log[f].step > s)
                   && Market(r.w.log[f].call.symbol) == market)
                <==>
                  || (exists j :: s < j < |r.steps| && RanOn(plan.steps, r, j, market))
                  || DueOn(plan.steps, EndOfPlan(env, plan, w0), market))
  {
    hide EndOf, ExecuteFrom, ResultOf, StepOk, Ended, CallsVenue, SymbolOf, Market, DueOn, Runs, PlanRun, EndOfPlan;
    hide Planned;
    RunsHonestly(env, plan, canClose, w0);
    var steps, e, r := plan.steps, EndOfPlan(env, plan, w0), PlanRun(env, plan, canClose, w0);
    var live := e.run.w.log;
    PlanEnds(env, plan, canClose, w0);
    EndIndex(env, steps, e);
    EndCalls(env, steps, e, market);
    EndCalledByResults(env, plan, canClose, w0, s);
    var n := |live|;
    forall k | 0 <= k < n ensures r.w.log[k] == live[k] { assert r.w.log[k] == r.w.log[..n][k]; }
    if f :| 0 <= f < n && live[f].step > s && Market(live[f].call.symbol) == market {
      var j := live[f].step;
      EndCalledByResults(env, plan, canClose, w0, j);
      assert Planned(steps, live[f]);
      LiveMarket(steps, live[f]);
      assert RanOn(steps, r, j, market);
    }
    if j :| s < j < |r.steps| && RanOn(steps, r, j, market) {
      EndCalledByResults(env, plan, canClose, w0, j);
      var f :| 0 <= f < n && live[f].step == j;
      assert Planned(steps, live[f]);
      LiveMarket(steps, live[f]);
      assert r.w.log[f] == live[f];
    }
  }

  lemma RunsHonestly(env: Env, plan: Plan, canClose: bool, w0: World)
    requires Runs(env, plan, canClose, w0)
    ensures Honest(env) && ExecutePlan(env, plan.steps, false, canClose, w0).Some?
  {
  }

  lemma LiveMarket(steps: seq<PlanStep>, e: Event)
    requires Planned(steps, e) && !e.undo
    ensures e.step < |steps| && Market(e.call.symbol) == MarketOf(steps[e.step])
  {
    hide Asked;
    AskedMarket(steps[e.step], e.call);
  }

  // ── Orders with an unknown outcome ──

  /** A live order whose outcome the venue did not tell (a resting order's failure is unknown unless definite). */
  predicate UnknownOrder(e: Event) {
    && !e.undo && e.reply.Threw?
    && ((e.call.Place? && IsOutcomeUnknown(e.reply.err))
        || (e.call.Rest? && (IsOutcomeUnknown(e.reply.err) || !IsDefiniteOrderFailure(e.reply.err))))
  }

  /** Not the first order of its step: the residual close of a close_position. */
  ghost predicate IsResidual(log: seq<Event>, k: nat)
    requires k < |log|
  {
    exists d :: 0 <= d < k && log[d].step == log[k].step && log[d].call.Place?
  }

  /** How step `i`, from `w`, ended with respect to the unknown orders it sent: an unknown residual
      is its last call and its error a definite one; any other unknown order is its error. */
  ghost predicate UnknownsTold(w: World, w': World, o: StepOutcome, step: PlanStep) {
    && |w.log| <= |w'.log|
    && forall k :: |w.log| <= k < |w'.log| && UnknownOrder(w'.log[k]) ==>
         && o.Failed? && step.action in ORDER_ACTIONS
         && if exists d :: |w.log| <= d < k && w'.log[d].call.Place?
            then k == |w'.log| - 1 && !IsOutcomeUnknown(o.err) && step.action == ClosePosition
            else IsOutcomeUnknown(o.err)
  }

  predicate ThrewPlace(e: Event) {
    e.call.Place? && e.reply.Threw?
  }

  lemma ReadTells(env: Env, w: World, i: nat, undo: bool, symbol: string, side: Side, size: real, closed: real,
      dec: nat)
    ensures var (w', c) := ReadResidual(env, w, i, undo, symbol, side, size, closed, dec);
            w'.log == w.log + [Event(i, undo, ReadNet(symbol), env(w, ReadNet(symbol)))] && c.Closed?
  {
    hide Market, FillSize, OpenFor;
  }

  lemma ResidualTells(env: Env, w: World, i: nat, undo: bool, symbol: string, side: Side, size: real, closed: real,
      residual: real, ask: real, dec: nat)
    ensures var (w', c) := ResidualClose(env, w, i, undo, symbol, side, size, closed, residual, ask, dec);
            && |w.log| < |w'.log| && w'.log[..|w.log|] == w.log && c.Closed?
            && forall k :: |w.log| <= k < |w'.log| ==>
                 (w'.log[k].call.Place? || w'.log[k].call.ReadNet?)
                   && (ThrewPlace(w'.log[k]) ==> k == |w'.log| - 1 && c.residual == residual)
  {
    hide Market, FillSize, OpenFor, FilledInFull, ReadResidual;
    var c := Place(symbol, side, ask, true);
    var (w1, again) := Send(env, w, i, undo, c);
    if again.Filled? && !FilledInFull(closed + again.qty, size) {
      ReadTells(env, w1, i, undo, symbol, side, size, closed + again.qty, dec);
      var w2 := ReadResidual(env, w1, i, undo, symbol, side, size, closed + again.qty, dec).0;
      assert w2.log[|w.log|] == w1.log[|w.log|];
    }
  }

  /** The orders of a close that throw: the first one is what it throws; the residual one is its last
      call, and leaves the residual reported. */
  lemma CloseTells(env: Env, w: World, i: nat, undo: bool, symbol: string, side: Side, size: real, dec: nat)
    ensures var (w', c) := ClosePerp(env, w, i, undo, symbol, side, size, dec);
            && |w.log| < |w'.log| && w'.log[..|w.log|] == w.log && w'.log[|w.log|].call.Place?
            && (ThrewPlace(w'.log[|w.log|]) ==> c == CloseThrew(w'.log[|w.log|].reply.err))
            && forall k :: |w.log| < k < |w'.log| ==>
                 (w'.log[k].call.Place? || w'.log[k].call.ReadNet?)
                 && (ThrewPlace(w'.log[k]) ==> k == |w'.log| - 1 && c.Closed? && c.residual > 0.0)
  {
    hide Market, FillSize, OpenFor, FilledInFull, ReadResidual, ResidualClose;
    var (w1, first) := Send(env, w, i, undo, Place(symbol, side, size, true));
    if first.Filled? && !FilledInFull(first.qty, size) {
      var (w2, c2) := ReadResidual(env, w1, i, undo, symbol, side, size, first.qty, dec);
      ReadTells(env, w1, i, undo, symbol, side, size, first.qty, dec);
      ResidualTells(env, w2, i, undo, symbol, side, size, first.qty, c2.residual, FillSize(c2.residual, dec), dec);
      var w3 := ResidualClose(env, w2, i, undo, symbol, side, size, first.qty, c2.residual, FillSize(c2.residual, dec),
                              dec).0;
      assert w3.log[..|w.log|] == w3.log[..|w2.log|][..|w.log|];
      forall k | |w.log| <= k < |w2.log| ensures w3.log[k] == w2.log[k] { assert w3.log[k] == w3.log[..|w2.log|][k]; }
    }
  }

  lemma CloseStepTells(env: Env, w: World, i: nat, step: PlanStep)
    requires Honest(env) && step.action == ClosePosition
    ensures var (w', o) := ExecuteStep(env, w, i, step); UnknownsTold(w, w', o, step)
  {
    hide ClosePerp, Market, SymbolOf;
    var (w1, r) := Send(env, w, i, false, FindPosition(SymbolOf(step)));
    if r.Found? && r.position.Some? {
      var lp := r.position.value;
      var side := if lp.signed > 0.0 then Sell else Buy;
      CloseTells(env, w1, i, false, lp.symbol, side, Abs(lp.signed), lp.decimals);
      var w2 := ClosePerp(env, w1, i, false, lp.symbol, side, Abs(lp.signed), lp.decimals).0;
      assert w2.log[|w.log|] == w2.log[..|w1.log|][|w.log|];
    }
  }

  lemma StepTells(env: Env, w: World, i: nat, step: PlanStep)
    requires Honest(env)
    ensures var (w', o) := ExecuteStep(env, w, i, step); UnknownsTold(w, w', o, step)
  {
    hide ExecuteClose, Market, SymbolOf;
    if step.action == ClosePosition { CloseStepTells(env, w, i, step); }
  }

  /** A residual close with an unknown outcome, in a step that failed with ORDER_PARTIAL and ended there. */
  ghost predicate PassedOver(steps: seq<PlanStep>, log: seq<Event>, k: nat)
    requires k < |log|
  {
    && log[k].step < |steps| && steps[log[k].step].action == ClosePosition && IsResidual(log, k)
    && forall f :: k < f < |log| ==> log[f].step > log[k].step
  }

  /** While a run goes on, the only unknown orders are residual closes of steps with onFailure "skip". */
  ghost predicate UnknownsSoFar(steps: seq<PlanStep>, log: seq<Event>, i: nat) {
    forall k :: 0 <= k < |log| ==>
      log[k].step < i && (UnknownOrder(log[k]) ==> PassedOver(steps, log, k) && steps[log[k].step].onFailure == Skip)
  }

  /** Where it ends, so are those before the failing step, and of the failing step's own an unknown
      residual is the last call; any other unknown order is what it failed with. */
  ghost predicate UnknownsAtEnd(steps: seq<PlanStep>, e: End) {
    var log := e.run.w.log;
    forall k :: 0 <= k < |log| ==>
      && log[k].step <= e.i && (UnknownOrder(log[k]) ==>
      && log[k].step < |steps| && steps[log[k].step].action in ORDER_ACTIONS
      && (log[k].step < e.i ==> PassedOver(steps, log, k) && steps[log[k].step].onFailure == Skip)
      && (log[k].step == e.i ==>
          e.err.Some? && if IsResidual(log, k) then PassedOver(steps, log, k) && !IsOutcomeUnknown(e.err.value)
                                                else IsOutcomeUnknown(e.err.value)))
  }

  lemma UnknownsNext(steps: seq<PlanStep>, w: World, w': World, i: nat, o: StepOutcome)
    requires i < |steps| && UnknownsSoFar(steps, w.log, i) && StepEvents(w, w', i) && UnknownsTold(w, w', o, steps[i])
    ensures forall k :: 0 <= k < |w'.log| ==>
              && w'.log[k].step <= i && (k < |w.log| <==> w'.log[k].step < i)
              && (UnknownOrder(w'.log[k]) ==>
                   w'.log[k].step < |steps| && steps[w'.log[k].step].action in ORDER_ACTIONS &&
                   if k < |w.log| then PassedOver(steps, w'.log, k) && steps[w'.log[k].step].onFailure == Skip
                   else o.Failed? && if IsResidual(w'.log, k)
                     then PassedOver(steps, w'.log, k) && !IsOutcomeUnknown(o.err) else IsOutcomeUnknown(o.err))
  {
    hide UnknownOrder;
    var n := |w.log|;
    forall k | 0 <= k < n ensures w'.log[k] == w.log[k] && w.log[k].step < i { assert w'.log[k] == w'.log[..n][k]; }
    forall k | 0 <= k < |w'.log| && UnknownOrder(w'.log[k])
      ensures if k < n then PassedOver(steps, w'.log, k) && steps[w'.log[k].step].onFailure == Skip
              else o.Failed? && steps[i].action in ORDER_ACTIONS
                   && if IsResidual(w'.log, k) then PassedOver(steps, w'.log, k) && !IsOutcomeUnknown(o.err)
                      else IsOutcomeUnknown(o.err)
    {
      if k < n {
        assert PassedOver(steps, w.log, k);
        var d :| 0 <= d < k && w.log[d].step == w.log[k].step && w.log[d].call.Place?;
        assert w'.log[d] == w.log[d];
      } else if exists d :: n <= d < k && w'.log[d].call.Place? {
        var d :| n <= d < k && w'.log[d].call.Place?;
        assert w'.log[d].step == w'.log[k].step;
      }
    }
  }

  lemma {:induction false} EndUnknowns(env: Env, steps: seq<PlanStep>, run: Run, i: nat)
    requires Honest(env) && DistinctIds(steps) && Running(steps, run, i) && UnknownsSoFar(steps, run.w.log, i)
    ensures UnknownsAtEnd(steps, EndOf(env, steps, run, i))
    decreases |steps| - i
  {
    hide ExecuteStep, OnThrow, ResultsSoFar, CompletedSoFar, PlacedSoFar, DependencyMet, UnknownOrder, PassedOver;
    hide IsResidual, StepEvents, UnknownsTold;
    if i < |steps| {
      var next := Advance(env, steps, false, run, i);
      var (w1, o) := ExecuteStep(env, run.w, i, steps[i]);
      ExecuteStepEvents(env, run.w, i, steps[i]);
      StepTells(env, run.w, i, steps[i]);
      UnknownsNext(steps, run.w, w1, i, o);
      if next.Continue? {
        AdvanceKeepsRunning(env, steps, false, run, i);
        UnknownsGoOn(env, steps, run, i);
        EndUnknowns(env, steps, next.run, i + 1);
      }
    } else {
      PassedAreOrders(steps, run.w.log, i);
    }
  }

  lemma PassedAreOrders(steps: seq<PlanStep>, log: seq<Event>, i: nat)
    requires UnknownsSoFar(steps, log, i)
    ensures forall k :: 0 <= k < |log| && UnknownOrder(log[k]) ==>
            log[k].step < |steps| && steps[log[k].step].action in ORDER_ACTIONS
  {
  }

  /** The run goes on: an unknown order that is no residual would have ended it, and so would any policy but "skip". */
  lemma UnknownsGoOn(env: Env, steps: seq<PlanStep>, run: Run, i: nat)
    requires Honest(env) && i < |steps| && UnknownsSoFar(steps, run.w.log, i)
             && Advance(env, steps, false, run, i).Continue?
    ensures UnknownsSoFar(steps, Advance(env, steps, false, run, i).run.w.log, i + 1)
  {
    hide ExecuteStep, RollbackSteps, DependencyMet, UnknownOrder, PassedOver, IsResidual, StepEvents, UnknownsTold;
    var (w1, o) := ExecuteStep(env, run.w, i, steps[i]);
    ExecuteStepEvents(env, run.w, i, steps[i]);
    StepTells(env, run.w, i, steps[i]);
    UnknownsNext(steps, run.w, w1, i, o);
  }

  // ── Isolation, over whole runs ──

  /** The plan is pending, step `s` its last and pending, and that step's symbol quarantined. */
  ghost predicate Isolates(steps: seq<PlanStep>, r: PlanResult, s: nat) {
    && r.status == PlanPending && s < |steps| && |r.steps| == s + 1 && r.steps[s].status == Pending
    && SymbolOf(steps[s]) in r.quarantined
  }

  lemma EndUnknownsOfPlan(env: Env, plan: Plan, canClose: bool, w0: World)
    requires Runs(env, plan, canClose, w0)
    ensures UnknownsAtEnd(plan.steps, EndOfPlan(env, plan, w0))
  {
    hide EndOf, StepOk;
    ValidPlanHasDistinctIds(plan);
    StartIsRunning(plan.steps, w0);
    EndUnknowns(env, plan.steps, Start(w0), 0);
  }

  /** The live part of a run's log, and what follows it. */
  lemma LiveAndUndo(env: Env, plan: Plan, canClose: bool, w0: World)
    requires Runs(env, plan, canClose, w0)
    ensures var log, live := PlanRun(env, plan, canClose, w0).w.log, EndOfPlan(env, plan, w0).run.w.log;
            && |live| <= |log|
            && (forall k :: 0 <= k < |log| ==> (log[k].undo <==> k >= |live|))
            && (forall k :: 0 <= k < |live| ==>
                log[k] == live[k]
                  && Market(live[k].call.symbol)
                     == (if live[k].step < |plan.steps| then MarketOf(plan.steps[live[k].step]) else ""))
            && (forall a, b :: 0 <= a < b < |live| ==> live[a].step <= live[b].step)
            && EndOfPlan(env, plan, w0).i <= |plan.steps|
  {
    hide EndOf, ExecuteFrom, ResultOf, StepOk, Ended, Planned, Market, DueOn, Runs, EndOfPlan, PlanRun, SymbolOf;
    hide Follows;
    RunsHonestly(env, plan, canClose, w0);
    var e := EndOfPlan(env, plan, w0);
    PlanEnds(env, plan, canClose, w0);
    EndIndex(env, plan.steps, e);
    EndInOrder(env, plan.steps, e);
    EndCalls(env, plan.steps, e, "");
    var log, n := PlanRun(env, plan, canClose, w0).w.log, |e.run.w.log|;
    forall k | 0 <= k < n
      ensures log[k] == e.run.w.log[k] && e.run.w.log[k].step < |plan.steps|
              && Market(log[k].call.symbol) == MarketOf(plan.steps[log[k].step])
    {
      assert log[k] == log[..n][k];
      assert Planned(plan.steps, e.run.w.log[k]);
      LiveMarket(plan.steps, log[k]);
    }
  }

  lemma EndInOrder(env: Env, steps: seq<PlanStep>, e: End)
    requires Ended(env, steps, e)
    ensures forall a, b :: 0 <= a < b < |e.run.w.log| ==> e.run.w.log[a].step <= e.run.w.log[b].step
  {
    hide Running, OnThrow, Planned;
    var log := e.run.w.log;
    forall a, b | 0 <= a < b < |log| ensures log[a].step <= log[b].step { assert Follows(steps, log[a], log[b]); }
  }

  lemma SameResidual(log: seq<Event>, live: seq<Event>, k: nat)
    requires k < |live| <= |log| && forall d :: 0 <= d < |live| ==> log[d] == live[d]
    ensures IsResidual(log, k) <==> IsResidual(live, k)
  {
    if d :| 0 <= d < k && live[d].step == live[k].step && live[d].call.Place? { assert log[d] == live[d]; }
  }

  /** A live order's unknown outcome ends the plan as pending, with the step's symbol quarantined, if
      and only if that order is not the residual close of a close_position. */
  lemma UnknownOrderIsolatesIff(env: Env, plan: Plan, canClose: bool, w0: World, k: nat)
    requires Runs(env, plan, canClose, w0)
    requires var log := PlanRun(env, plan, canClose, w0).w.log; k < |log| && UnknownOrder(log[k])
    ensures var r := PlanRun(env, plan, canClose, w0);
            && (Isolates(plan.steps, r, r.w.log[k].step) <==> !IsResidual(r.w.log, k))
            && (IsResidual(r.w.log, k) ==>
                r.w.log[k].step < |plan.steps| && plan.steps[r.w.log[k].step].action == ClosePosition)
  {
    hide EndOf, ExecuteFrom, ResultOf, StepOk, Ended, Market, Runs, EndOfPlan, PlanRun, SymbolOf, UnknownOrder;
    hide IsResidual;
    RunsHonestly(env, plan, canClose, w0);
    var steps, e, r := plan.steps, EndOfPlan(env, plan, w0), PlanRun(env, plan, canClose, w0);
    PlanEnds(env, plan, canClose, w0);
    EndIndex(env, steps, e);
    LiveAndUndo(env, plan, canClose, w0);
    EndUnknownsOfPlan(env, plan, canClose, w0);
    assert k < |e.run.w.log| by { assert !r.w.log[k].undo by { UnknownIsLive(r.w.log[k]); } }
    SameResidual(r.w.log, e.run.w.log, k);
    EndPending(env, steps, e);
    EndRan(env, steps, e);
  }

  lemma UnknownIsLive(e: Event)
    requires UnknownOrder(e)
    ensures !e.undo
  {
  }

  /** A run ends pending exactly when an order step failed with an unknown outcome. */
  lemma EndPending(env: Env, steps: seq<PlanStep>, e: End)
    requires Ended(env, steps, e)
    ensures var r := ResultOf(env, steps, e);
            && (SkipOf(steps, e).Some? ==> Isolates(steps, r, e.i))
            && (SkipOf(steps, e).None? ==> r.status != PlanPending)
  {
    hide RollbackSteps, SymbolOf, Market, OnThrow, LiveSoFar, CompletedSoFar, PlacedSoFar;
    if e.err.Some? {
      StopResult(env, steps, e);
      UndoIsReversible(steps, e);
      EndIsFresh(steps, e);
      if RollsBack(steps, e) {
        RollbackShape(env, steps, UndoAt(steps, e), e.run.placed, SkipOf(steps, e), Successes(e.run.results));
      }
    }
  }

  /** Step `j` succeeded, has something to reverse, and spelled the market of the ending step differently. */
  ghost predicate DueElsewhere(steps: seq<PlanStep>, e: End, j: nat)
    requires e.i < |steps|
  {
    && j in Successes(e.run.results) && Due(steps, e.run.placed, j)
    && SymbolOf(steps[j]) != SymbolOf(steps[e.i]) && MarketOf(steps[j]) == MarketOf(steps[e.i])
  }

  /** A pending plan makes no further call on the pending step's symbol; on its market, spelled
      otherwise ("BTC" and "BTC-PERP"), it does if and only if it rolls back and a step that succeeded
      has something to reverse there. */
  lemma {:induction false} PendingPlanLeavesAlone(env: Env, plan: Plan, canClose: bool, w0: World)
    requires Runs(env, plan, canClose, w0) && PlanRun(env, plan, canClose, w0).status == PlanPending
    ensures var r, e := PlanRun(env, plan, canClose, w0), EndOfPlan(env, plan, w0);
            && e.i < |plan.steps| && Isolates(plan.steps, r, e.i)
            && (forall f :: 0 <= f < |r.w.log| && r.w.log[f].undo ==>
                r.w.log[f].call.symbol != SymbolOf(plan.steps[e.i]))
            && ((exists f ::
                 0 <= f < |r.w.log| && r.w.log[f].undo && Market(r.w.log[f].call.symbol) == MarketOf(plan.steps[e.i]))
                <==> RollsBack(plan.steps, e) && (exists j :: DueElsewhere(plan.steps, e, j)))
  {
    hide EndOf, ExecuteFrom, ResultOf, StepOk, Ended, Market, Runs, EndOfPlan, PlanRun, SymbolOf, Due, DueOn;
    hide DueElsewhere, RollsBack, Isolates, Successes;
    RunsHonestly(env, plan, canClose, w0);
    var steps, e, r := plan.steps, EndOfPlan(env, plan, w0), PlanRun(env, plan, canClose, w0);
    PlanEnds(env, plan, canClose, w0);
    EndIndex(env, steps, e);
    LiveAndUndo(env, plan, canClose, w0);
    EndPending(env, steps, e);
    EndCalls(env, steps, e, MarketOf(steps[e.i]));
    PendingRollbackSkips(env, steps, e);
    ElsewhereIsDue(steps, e);
  }

  lemma ElsewhereIsDue(steps: seq<PlanStep>, e: End)
    requires e.i < |steps| && SkipOf(steps, e).Some?
    ensures DueOn(steps, e, MarketOf(steps[e.i])) <==> RollsBack(steps, e) && exists j :: DueElsewhere(steps, e, j)
  {
    hide SymbolOf, Market, Actionable, Successes, RollsBack;
    var m := MarketOf(steps[e.i]);
    if j :|
      j in Successes(e.run.results) && Due(steps, e.run.placed, j) && Some(SymbolOf(steps[j])) != SkipOf(steps, e)
        && Market(SymbolOf(steps[j])) == m {
      assert DueElsewhere(steps, e, j);
    }
  }

  lemma PendingRollbackSkips(env: Env, steps: seq<PlanStep>, e: End)
    requires Honest(env) && Ended(env, steps, e) && e.i < |steps| && SkipOf(steps, e).Some?
    ensures var log := ResultOf(env, steps, e).w.log;
            forall f :: |e.run.w.log| <= f < |log| ==> log[f].call.symbol != SymbolOf(steps[e.i])
  {
    hide RollbackSteps, SymbolOf, Running, Successes, Market, Due, OnThrow, LiveSoFar, Reversible;
    StopResult(env, steps, e);
    UndoIsReversible(steps, e);
    if RollsBack(steps, e) {
      RollbackCalls(env, steps, UndoAt(steps, e), e.run.placed, SkipOf(steps, e), Successes(e.run.results));
    }
  }

  /** After the unknown residual of a close_position: with "abort" no call follows at all; with
      "rollback" one on its market follows exactly when a step that succeeded has something to reverse
      there; with "skip" also when a later step that ran trades or reads there. */
  lemma {:induction false} UnknownResidualIff(env: Env, plan: Plan, canClose: bool, w0: World, k: nat)
    requires Runs(env, plan, canClose, w0)
    requires var log := PlanRun(env, plan, canClose, w0).w.log; k < |log| && UnknownOrder(log[k]) && IsResidual(log, k)
    ensures var r, e := PlanRun(env, plan, canClose, w0), EndOfPlan(env, plan, w0);
            var s, m := r.w.log[k].step, Market(r.w.log[k].call.symbol);
            var later := exists f :: k < f < |r.w.log| && Market(r.w.log[f].call.symbol) == m;
            && s < |r.steps| <= |plan.steps| && MarketOf(plan.steps[s]) == m
            && match plan.steps[s].onFailure
               case Rollback => e.i == s && (later <==> DueOn(plan.steps, e, m))
               case Skip => later
                 <==> (exists j :: s < j < |r.steps| && RanOn(plan.steps, r, j, m)) || DueOn(plan.steps, e, m)
               case _ => |r.w.log| == k + 1 && r.status in {Partial, PlanFailed}
  {
    hide EndOf, ExecuteFrom, ResultOf, StepOk, Ended, Market, Runs, EndOfPlan, PlanRun, SymbolOf, UnknownOrder;
    hide IsResidual, DueOn, RanOn;
    RunsHonestly(env, plan, canClose, w0);
    var steps, e, r := plan.steps, EndOfPlan(env, plan, w0), PlanRun(env, plan, canClose, w0);
    var log, live := r.w.log, e.run.w.log;
    var s, m := log[k].step, Market(log[k].call.symbol);
    PlanEnds(env, plan, canClose, w0);
    EndIndex(env, steps, e);
    LiveAndUndo(env, plan, canClose, w0);
    EndUnknownsOfPlan(env, plan, canClose, w0);
    assert k < |live| by { assert !log[k].undo by { UnknownIsLive(log[k]); } }
    SameResidual(log, live, k);
    EndRan(env, steps, e);
    EndCalledByResults(env, plan, canClose, w0, s);
    LaterCallsIff(env, plan, canClose, w0, s, m);
    forall f | 0 <= f < |log| ensures f > k <==> log[f].undo || log[f].step > s {
      if f < |live| { assert log[f] == live[f]; }
    }
    assert k + 1 < |live| ==> log[k + 1].step == live[k + 1].step <= e.i;
    if steps[s].onFailure != Skip { EndOfOther(env, steps, e); }
  }

  /** A run that did not roll back ends with its last live call. */
  lemma EndOfOther(env: Env, steps: seq<PlanStep>, e: End)
    requires Ended(env, steps, e) && e.err.Some? && !IsOutcomeUnknown(e.err.value)
    ensures e.i < |steps|
    ensures steps[e.i].onFailure !in {Skip, Rollback} ==>
              ResultOf(env, steps, e).w == e.run.w && ResultOf(env, steps, e).status in {Partial, PlanFailed}
  {
    hide RollbackSteps, SymbolOf, LiveSoFar, CompletedSoFar, PlacedSoFar;
  }

  // ── A reversal's own unknown outcome ──

  /** A reversing order or cancellation that threw. */
  predicate FailedUndo(e: Event) {
    e.undo && e.reply.Threw? && !e.call.ReadNet?
  }

  lemma ReverseTells(env: Env, w: World, i: nat, order: PlacedOrder)
    requires Honest(env)
    ensures var (w', v) := Reverse(env, w, i, order);
            && |w.log| <= |w'.log|
            && forall k :: |w.log| <= k < |w'.log| && FailedUndo(w'.log[k]) ==> v.MarkFailed?
  {
    hide ClosePerp, FillSize, Market;
    if order.filled.Some? && FillSize(order.filled.value, order.decimals) > 0.0 {
      CloseTells(env, w, i, true, order.symbol, Opposite(order.side), FillSize(order.filled.value, order.decimals),
                 order.decimals);
    }
  }

  /** Whatever a rollback fails to reverse it quarantines. */
  lemma {:induction false} FailedReversals(env: Env, steps: seq<PlanStep>, u: Undo, placed: map<string, PlacedOrder>,
      skip: Option<string>, idxs: seq<nat>)
    requires Honest(env) && Reversible(steps, u, placed, idxs)
    ensures var u' := RollbackSteps(env, u, placed, skip, idxs);
            && |u.w.log| <= |u'.w.log| && u.quarantined <= u'.quarantined
            && forall k :: |u.w.log| <= k < |u'.w.log| && FailedUndo(u'.w.log[k]) ==>
               u'.w.log[k].call.symbol in u'.quarantined
    decreases |idxs|
  {
    hide Reverse, Actionable, FailedUndo, SymbolOf;
    if idxs != [] {
      var n := |idxs| - 1;
      var i, rest := idxs[n], idxs[..n];
      assert idxs == rest + [i];
      var u1 := ReverseStep(env, u, placed, skip, i);
      var v := u.results[i];
      if v.stepId in placed {
        ReverseEvents(env, u.w, i, placed[v.stepId]);
        ReverseTells(env, u.w, i, placed[v.stepId]);
        PlacedUpper(placed[v.stepId], steps[i]);
      }
      forall k | 0 <= k < |rest| ensures u1.results[rest[k]] == u.results[rest[k]] { assert rest[k] == idxs[k] != i; }
      FailedReversals(env, steps, u1, placed, skip, rest);
      RollbackCalls(env, steps, u1, placed, skip, rest);
      var u', n1 := RollbackSteps(env, u, placed, skip, idxs), |u1.w.log|;
      forall k | |u.w.log| <= k < |u'.w.log| && FailedUndo(u'.w.log[k])
        ensures u'.w.log[k].call.symbol in u'.quarantined {
        if k < n1 { assert u'.w.log[k] == u'.w.log[..n1][k]; }
      }
    }
  }

  lemma PlacedUpper(order: PlacedOrder, step: PlanStep)
    requires PlacedFor(order, step)
    ensures Upper(order.symbol) == order.symbol
  {
    UpperIdempotent(step.params.symbol);
  }

  /** Step `j`, older than `k`, succeeded and has something to reverse under the same symbol. */
  predicate OlderDue(steps: seq<PlanStep>, placed: map<string, PlacedOrder>, idxs: seq<nat>, k: nat, j: nat)
    requires k < |steps|
  {
    j in idxs && j < k && Due(steps, placed, j) && SymbolOf(steps[j]) == SymbolOf(steps[k])
  }

  lemma ReversalIsolatesIff(log: seq<Event>, n: nat, steps: seq<PlanStep>, placed: map<string, PlacedOrder>,
      skip: Option<string>, idxs: seq<nat>, a: nat)
    requires RollbackLogged(log, n, steps, placed, skip, idxs) && n <= a < |log|
    ensures log[a].step < |steps|
    ensures (exists b :: a < b < |log| && log[b].step != log[a].step && log[b].call.symbol == log[a].call.symbol)
            <==> (exists j :: OlderDue(steps, placed, idxs, log[a].step, j))
  {
    hide SymbolOf, Due;
    assert Undoes(log[a], steps, placed, skip, idxs);
    var k := log[a].step;
    if b :| a < b < |log| && log[b].step != k && log[b].call.symbol == log[a].call.symbol {
      assert Undoes(log[b], steps, placed, skip, idxs) && OlderDue(steps, placed, idxs, k, log[b].step);
    }
    if j: nat :| OlderDue(steps, placed, idxs, k, j) {
      DueInRange(steps, placed, j);
      var e :| n <= e < |log| && log[e].step == j;
      assert Undoes(log[e], steps, placed, skip, idxs);
    }
  }

  lemma DueInRange(steps: seq<PlanStep>, placed: map<string, PlacedOrder>, j: nat)
    requires Due(steps, placed, j)
    ensures j < |steps|
  {
  }

  /** A call of the rollback: it is of one of its steps, which is due, and names that step's symbol. */
  ghost predicate Undoes(e: Event, steps: seq<PlanStep>, placed: map<string, PlacedOrder>, skip: Option<string>,
      idxs: seq<nat>)
  {
    e.step < |steps| && e.step in idxs && Due(steps, placed, e.step) && e.call.symbol == SymbolOf(steps[e.step])
    && Some(e.call.symbol) != skip
  }

  /** From `n` on the log is that of a rollback: calls of steps that are due, and of every one, newest first. */
  ghost predicate RollbackLogged(log: seq<Event>, n: nat, steps: seq<PlanStep>, placed: map<string, PlacedOrder>,
      skip: Option<string>, idxs: seq<nat>)
  {
    && (forall b :: n <= b < |log| ==> Undoes(log[b], steps, placed, skip, idxs))
    && (forall a, b :: n <= a < b < |log| ==> log[a].step >= log[b].step)
    && (forall j :: j in idxs && j < |steps| && Due(steps, placed, j) && Some(SymbolOf(steps[j])) != skip ==>
          exists e :: n <= e < |log| && log[e].step == j)
  }

  lemma RollbackLog(env: Env, steps: seq<PlanStep>, u: Undo, placed: map<string, PlacedOrder>, skip: Option<string>,
      idxs: seq<nat>)
    requires Honest(env) && Reversible(steps, u, placed, idxs)
    ensures RollbackLogged(RollbackSteps(env, u, placed, skip, idxs).w.log, |u.w.log|, steps, placed, skip, idxs)
  {
    hide RollbackSteps, SymbolOf, Actionable, OwnUndo;
    RollbackCalls(env, steps, u, placed, skip, idxs);
    RollbackReachesAll(env, steps, u, placed, skip, idxs);
    var log, n := RollbackSteps(env, u, placed, skip, idxs).w.log, |u.w.log|;
    forall b | n <= b < |log| ensures Undoes(log[b], steps, placed, skip, idxs) {
      assert UndoEvent(log[b], steps, placed, skip);
    }
    forall j | j in idxs && j < |steps| && Due(steps, placed, j) && Some(SymbolOf(steps[j])) != skip
      ensures exists e :: n <= e < |log| && log[e].step == j
    {
      assert !Skips(skip, placed[steps[j].id]) by { DueSymbol(steps, u, placed, idxs, j); }
    }
  }

  /** The same on the same market, however spelled, unless the rollback leaves its symbol out. */
  ghost predicate OlderDueOn(steps: seq<PlanStep>, placed: map<string, PlacedOrder>, skip: Option<string>,
      idxs: seq<nat>, k: nat, j: nat)
    requires k < |steps|
  {
    j in idxs && j < k && Due(steps, placed, j) && Some(SymbolOf(steps[j])) != skip
    && MarketOf(steps[j]) == MarketOf(steps[k])
  }

  lemma ReversalLeavesMarketIff(log: seq<Event>, n: nat, steps: seq<PlanStep>, placed: map<string, PlacedOrder>,
      skip: Option<string>, idxs: seq<nat>, a: nat)
    requires RollbackLogged(log, n, steps, placed, skip, idxs) && n <= a < |log|
    ensures log[a].step < |steps|
    ensures (exists b ::
               a < b < |log| && log[b].step != log[a].step && Market(log[b].call.symbol) == Market(log[a].call.symbol))
            <==> (exists j :: OlderDueOn(steps, placed, skip, idxs, log[a].step, j))
  {
    hide SymbolOf, Due, Market;
    assert Undoes(log[a], steps, placed, skip, idxs);
    var k := log[a].step;
    if b :| a < b < |log| && log[b].step != k && Market(log[b].call.symbol) == Market(log[a].call.symbol) {
      assert Undoes(log[b], steps, placed, skip, idxs) && OlderDueOn(steps, placed, skip, idxs, k, log[b].step);
    }
    if j: nat :| OlderDueOn(steps, placed, skip, idxs, k, j) {
      DueInRange(steps, placed, j);
      var e :| n <= e < |log| && log[e].step == j;
      assert Undoes(log[e], steps, placed, skip, idxs);
    }
  }

  lemma DueSymbol(steps: seq<PlanStep>, u: Undo, placed: map<string, PlacedOrder>, idxs: seq<nat>, j: nat)
    requires Reversible(steps, u, placed, idxs) && j in idxs && Due(steps, placed, j)
    ensures placed[steps[j].id].symbol == SymbolOf(steps[j])
  {
    hide SymbolOf, Actionable;
    var t :| 0 <= t < |idxs| && idxs[t] == j;
    assert PlacedFor(placed[steps[idxs[t]].id], steps[idxs[t]]);
  }

  /** A reversal that throws, with an unknown outcome or any other error, quarantines its symbol but
      isolates nothing: a later call still names that symbol exactly when an older step traded it
      and has something to reverse, and its market when one traded that, but for the symbol of a
      pending order. */
  lemma {:induction false} UnknownReversalIsolatesIff(env: Env, plan: Plan, canClose: bool, w0: World, a: nat)
    requires Runs(env, plan, canClose, w0)
    requires var log := PlanRun(env, plan, canClose, w0).w.log; a < |log| && FailedUndo(log[a])
    ensures var r, e := PlanRun(env, plan, canClose, w0), EndOfPlan(env, plan, w0);
            && r.w.log[a].call.symbol in r.quarantined && r.w.log[a].step < |plan.steps|
            && ((exists b ::
                 a < b < |r.w.log| && r.w.log[b].step != r.w.log[a].step
                   && r.w.log[b].call.symbol == r.w.log[a].call.symbol)
                <==> (exists j :: OlderDue(plan.steps, e.run.placed, Successes(e.run.results), r.w.log[a].step, j)))
            && ((exists b ::
                 a < b < |r.w.log| && r.w.log[b].step != r.w.log[a].step
                   && Market(r.w.log[b].call.symbol) == Market(r.w.log[a].call.symbol))
                <==> (exists j :: OlderDueOn(plan.steps, e.run.placed, SkipOf(plan.steps, e), Successes(e.run.results),
                                             r.w.log[a].step, j)))
  {
    hide EndOf, ExecuteFrom, ResultOf, StepOk, Ended, Market, Runs, EndOfPlan, PlanRun, SymbolOf, Successes, OlderDue;
    hide RollbackSteps, Reversible, OlderDueOn, RollbackLogged;
    RunsHonestly(env, plan, canClose, w0);
    var steps, e, r := plan.steps, EndOfPlan(env, plan, w0), PlanRun(env, plan, canClose, w0);
    PlanEnds(env, plan, canClose, w0);
    LiveAndUndo(env, plan, canClose, w0);
    EndUndoes(env, steps, e);
    FailedReversals(env, steps, UndoAt(steps, e), e.run.placed, SkipOf(steps, e), Successes(e.run.results));
    RollbackLog(env, steps, UndoAt(steps, e), e.run.placed, SkipOf(steps, e), Successes(e.run.results));
    ReversalIsolatesIff(r.w.log, |e.run.w.log|, steps, e.run.placed, SkipOf(steps, e), Successes(e.run.results), a);
    ReversalLeavesMarketIff(r.w.log, |e.run.w.log|, steps, e.run.placed, SkipOf(steps, e), Successes(e.run.results), a);
  }

  /** A run with a reversal in its log ended with its rollback. */
  lemma EndUndoes(env: Env, steps: seq<PlanStep>, e: End)
    requires Ended(env, steps, e) && |ResultOf(env, steps, e).w.log| > |e.run.w.log|
    ensures e.i < |steps| && Reversible(steps, UndoAt(steps, e), e.run.placed, Successes(e.run.results))
            && UndoAt(steps, e).w == e.run.w
    ensures ResultOf(env, steps, e).w == Reversed(env, steps, e).w
            && ResultOf(env, steps, e).quarantined == Reversed(env, steps, e).quarantined
  {
    hide RollbackSteps, SymbolOf, Running, OnThrow, LiveSoFar, Reversible, Successes;
    if e.err.Some? {
      StopResult(env, steps, e);
      UndoIsReversible(steps, e);
    }
  }
}
