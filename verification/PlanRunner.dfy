/** executePlan and rollbackSteps as src/plan-executor.ts runs them: StepResult objects shared
    between `results`, the completed-steps map and the filtered list whose members the rollback
    overwrites. Proved equal to the specification in PlanExecutor. */
module PlanRunner {
  import opened Prelude
  import opened Errors
  import opened Venue
  import opened PlanExecutor

  class StepResult {
    const stepId: string
    const action: Action
    var status: Status
    var code: Option<ResultCode>

    constructor (stepId: string, action: Action, status: Status, code: Option<ResultCode>)
      ensures View() == StepView(stepId, action, status, code)
    {
      this.stepId, this.action, this.status, this.code := stepId, action, status, code;
    }

    ghost function View(): StepView
      reads this
    {
      StepView(stepId, action, status, code)
    }
  }

  ghost function Views(rs: seq<StepResult>): (vs: seq<StepView>)
    reads rs
    ensures |vs| == |rs|
    ensures forall i :: 0 <= i < |rs| ==> vs[i] == rs[i].View()
  {
    seq(|rs|, i requires 0 <= i < |rs| reads rs => rs[i].View())
  }

  /** results.filter(...): the very objects, and where they stand in `results`. */
  method FilterSuccesses(results: seq<StepResult>) returns (out: seq<StepResult>, idxs: seq<nat>)
    ensures idxs == Successes(Views(results))
    ensures |out| == |idxs| && forall k :: 0 <= k < |out| ==> out[k] == results[idxs[k]]
  {
    out, idxs := [], [];
    var i := 0;
    while i < |results|
      invariant 0 <= i <= |results|
      invariant idxs == Successes(Views(results[..i]))
      invariant |out| == |idxs| && InRange(idxs, i) && forall k :: 0 <= k < |out| ==> out[k] == results[idxs[k]]
    {
      assert Views(results[..i + 1])[..i] == Views(results[..i]);
      if results[i].status == Success { out, idxs := out + [results[i]], idxs + [i]; }
      i := i + 1;
    }
    assert results[..i] == results;
  }

  /** Walks `completed` from its last member to its first and overwrites each member's status.
      `idxs` are the members' plan indices, which only label the venue events. */
  method RollbackLoop(env: Env, w0: World, completed: seq<StepResult>, idxs: seq<nat>, placed: map<string, PlacedOrder>,
      skip: Option<string>,
                      quarantined0: set<string>, ghost results: seq<StepResult>)
    returns (w: World, quarantined: set<string>)
    requires Distinct(results) && InRange(idxs, |results|)
    requires |completed| == |idxs| && forall k :: 0 <= k < |idxs| ==> completed[k] == results[idxs[k]]
    modifies completed
    ensures Undo(w, Views(results), quarantined)
            == RollbackSteps(env, Undo(w0, old(Views(results)), quarantined0), placed, skip, idxs)
  {
    w, quarantined := w0, quarantined0;
    ghost var goal := RollbackSteps(env, Undo(w0, Views(results), quarantined0), placed, skip, idxs);
    var i := |completed|;
    assert idxs[..i] == idxs;
    while i > 0
      invariant 0 <= i <= |completed|
      invariant RollbackSteps(env, Undo(w, Views(results), quarantined), placed, skip, idxs[..i]) == goal
    {
      i := i - 1;
      ghost var u := Undo(w, Views(results), quarantined);
      assert idxs[..i + 1][..i] == idxs[..i];
      var step := completed[i];
      ghost var next := ReverseStep(env, u, placed, skip, idxs[i]);
      assert u.results[idxs[i]] == step.View();
      if step.stepId in placed && !Skips(skip, placed[step.stepId]) {
        var order := placed[step.stepId];
        var (w1, verdict) := Reverse(env, w, idxs[i], order);
        w := w1;
        MarkInPlace(step, verdict, results, idxs[i]);
        if verdict.MarkFailed? { quarantined := quarantined + {Upper(order.symbol)}; }
      }
      assert Undo(w, Views(results), quarantined) == next;
    }
  }

  method MarkInPlace(step: StepResult, verdict: Verdict, ghost results: seq<StepResult>, ghost at: nat)
    requires Distinct(results) && at < |results| && results[at] == step
    modifies step
    ensures Views(results) == old(Views(results))[at := Mark(old(step.View()), verdict)]
  {
    match verdict
    case LeaveAlone =>
    case MarkRolledBack => step.status := RolledBack;
    case MarkCancelled => step.status := Cancelled;
    case MarkFailed(e) =>
      step.status := RollbackFailed;
      step.code := Some(if IsOutcomeUnknown(e) then OUTCOME_PENDING else ROLLBACK_FAILED);
  }

  /** The state of a run in the source's terms describes the specification's `run`. */
  ghost predicate Describes(run: Run, w: World, results: seq<StepResult>, completed: map<string, StepResult>,
      placed: map<string, PlacedOrder>, quarantined: set<string>)
    reads results, completed.Values
  {
    && Distinct(results) && (forall id :: id in completed ==> completed[id] in results)
    && run.w == w && run.results == Views(results) && run.placed == placed && run.quarantined == quarantined
    && run.completed.Keys == completed.Keys && forall id :: id in completed ==>
       run.completed[id] == completed[id].status
  }

  method Push(results: seq<StepResult>, step: PlanStep, status: Status, code: Option<ResultCode>)
      returns (r: StepResult, out: seq<StepResult>)
    requires Distinct(results)
    ensures fresh(r) && out == results + [r] && Distinct(out)
    ensures r.View() == StepView(step.id, step.action, status, code)
    ensures Views(out) == old(Views(results)) + [r.View()]
  {
    r := new StepResult(step.id, step.action, status, code);
    out := results + [r];
    assert r !in results;
  }

  /** results.push + completedSteps.set for a step after which the loop goes on. */
  method Append(ghost run: Run, ghost w: World, results: seq<StepResult>, completed: map<string, StepResult>,
      ghost placed: map<string, PlacedOrder>, ghost quarantined: set<string>,
                step: PlanStep, status: Status, code: Option<ResultCode>)
    returns (results': seq<StepResult>, completed': map<string, StepResult>, ghost run': Run)
    requires Describes(run, w, results, completed, placed, quarantined)
    ensures run' == Record(run, step, status, code) && Describes(run', w, results', completed', placed, quarantined)
    ensures fresh((set r | r in results') - (set r | r in results))
  {
    var r;
    run' := Record(run, step, status, code);
    r, results' := Push(results, step, status, code);
    completed' := completed[step.id := r];
  }

  /** The try block and what it decides: a result to record, or the error that ends the plan. */
  method Attempt(env: Env, steps: seq<PlanStep>, dryRun: bool, ghost run0: Run, w0: World,
      placed0: map<string, PlacedOrder>, i: nat, met: bool)
    returns (next: Option<(Status, Option<ResultCode>)>, thrown: Option<Thrown>, w: World,
             placed: map<string, PlacedOrder>, ghost run: Run)
    requires i < |steps| && run0.w == w0 && run0.placed == placed0 && met == DependencyMet(run0, steps[i])
    ensures run == run0.(w := w, placed := placed)
    ensures next.Some? ==>
            thrown.None?
              && Advance(env, steps, dryRun, run0, i) == Continue(Record(run, steps[i], next.value.0, next.value.1))
    ensures next.None? ==>
            thrown.Some? && Ends(steps[i], thrown.value)
              && Advance(env, steps, dryRun, run0, i) == OnThrow(env, run, steps[i], thrown.value)
    ensures next.None? ==> Advance(env, steps, dryRun, run0, i).Stop?
  {
    hide ExecuteStep, RollbackSteps, Successes;
    var step := steps[i];
    next, thrown, w, placed, run := None, None, w0, placed0, run0;
    if !met {
      next := Some((Skipped, Some(DEPENDENCY_FAILED)));
    } else if dryRun {
      next := Some((DryRun, None));
    } else {
      var (w1, o) := ExecuteStep(env, w0, i, step);
      w := w1;
      if o.Succeeded? {
        placed, next := Place1(placed0, step.id, o.placed), Some((Success, None));
      } else if Ends(step, o.err) {
        thrown := Some(o.err);
      } else {
        next := Some((Skipped, Some(STEP_FAILED)));
      }
      run := run0.(w := w, placed := placed);
    }
  }

  /** One turn of the loop. */
  method Iterate(env: Env, steps: seq<PlanStep>, dryRun: bool, ghost run0: Run, w0: World, results0: seq<StepResult>,
      completed0: map<string, StepResult>,
                 placed0: map<string, PlacedOrder>, quarantined: set<string>, i: nat)
    returns (thrown: Option<Thrown>, w: World, results: seq<StepResult>, completed: map<string, StepResult>,
             placed: map<string, PlacedOrder>, ghost run: Run)
    requires i < |steps| && Describes(run0, w0, results0, completed0, placed0, quarantined)
    ensures Describes(run, w, results, completed, placed, quarantined)
    ensures fresh((set r | r in results) - (set r | r in results0))
    ensures thrown.None? ==> Advance(env, steps, dryRun, run0, i) == Continue(run)
    ensures thrown.Some? ==>
            Ends(steps[i], thrown.value)
              && Advance(env, steps, dryRun, run0, i) == OnThrow(env, run, steps[i], thrown.value)
    ensures thrown.Some? ==> Advance(env, steps, dryRun, run0, i).Stop?
  {
    hide Advance, OnThrow;
    var step := steps[i];
    var met := step.dependsOn == "" ||
      (step.dependsOn in completed0
       && (completed0[step.dependsOn].status == Success || completed0[step.dependsOn].status == DryRun));
    var next;
    results, completed := results0, completed0;
    next, thrown, w, placed, run := Attempt(env, steps, dryRun, run0, w0, placed0, i, met);
    if next.Some? {
      results, completed, run := Append(run, w, results, completed, placed, quarantined, step, next.value.0,
                                        next.value.1);
    }
  }

  /** executePlan's loop. `refused` is the throw before the first step. */
  method RunPlan(env: Env, steps: seq<PlanStep>, dryRun: bool, canClose: bool, w0: World)
    returns (refused: bool, status: PlanStatus, results: seq<StepResult>, quarantined: set<string>, w: World)
    ensures refused <==> ExecutePlan(env, steps, dryRun, canClose, w0) == None
    ensures !refused ==>
            Some(PlanResult(status, Views(results), quarantined, w)) == ExecutePlan(env, steps, dryRun, canClose, w0)
  {
    refused, status, results, quarantined, w := false, Completed, [], {}, w0;
    if !dryRun && !canClose && exists i :: 0 <= i < |steps| && steps[i].action in ORDER_ACTIONS {
      return true, status, results, quarantined, w;
    }
    hide Advance, OnThrow, Describes;
    var completed: map<string, StepResult> := map[];
    var placed: map<string, PlacedOrder> := map[];
    ghost var run := Start(w0);
    ghost var goal := ExecuteFrom(env, steps, dryRun, run, 0);
    var thrown: Option<Thrown> := None;
    var i := 0;
    while i < |steps| && thrown.None?
      invariant 0 <= i <= |steps|
      invariant fresh(set r | r in results)
      invariant Describes(run, w, results, completed, placed, quarantined)
      invariant thrown.None? ==> ExecuteFrom(env, steps, dryRun, run, i) == goal
      invariant thrown.Some? ==>
                i < |steps| && Ends(steps[i], thrown.value) && OnThrow(env, run, steps[i], thrown.value) == Stop(goal)
      decreases |steps| - i, thrown.None?
    {
      thrown, w, results, completed, placed,
        run := Iterate(env, steps, dryRun, run, w, results, completed, placed, quarantined, i);
      if thrown.None? { i := i + 1; }
    }
    if thrown.Some? {
      status, results, quarantined, w := StopPlan(env, run, w, steps[i], thrown.value, results, placed, quarantined);
    } else {
      status := if quarantined != {} then Quarantined else if dryRun then PlanDryRun else Completed;
    }
  }

  /** The catch block ends the plan. */
  predicate Ends(step: PlanStep, err: Thrown) {
    (step.action in ORDER_ACTIONS && IsOutcomeUnknown(err)) || step.onFailure != Skip
  }

  /** The catch block when the plan ends there. */
  method StopPlan(env: Env, ghost run: Run, w0: World, step: PlanStep, err: Thrown, results0: seq<StepResult>,
      placed: map<string, PlacedOrder>, quarantined0: set<string>)
    returns (status: PlanStatus, results: seq<StepResult>, quarantined: set<string>, w: World)
    requires run.w == w0 && run.results == Views(results0) && run.placed == placed && run.quarantined == quarantined0
             && Distinct(results0)
    requires Ends(step, err)
    modifies results0
    ensures OnThrow(env, run, step, err) == Stop(PlanResult(status, Views(results), quarantined, w))
  {
    hide RollbackSteps, Successes;
    if step.action in ORDER_ACTIONS && IsOutcomeUnknown(err) {
      results, quarantined, w := StopPending(env, run, w0, step, results0, placed, quarantined0);
      status := PlanPending;
    } else if step.onFailure == Rollback {
      status, results, quarantined, w := StopRolledBack(env, run, w0, step, results0, placed, quarantined0);
    } else {
      status, results := StopAborted(run, step, results0, quarantined0);
      quarantined, w := quarantined0, w0;
    }
  }

  method StopAborted(ghost run: Run, step: PlanStep, results0: seq<StepResult>, quarantined: set<string>)
      returns (status: PlanStatus, results: seq<StepResult>)
    requires run.results == Views(results0) && run.quarantined == quarantined && Distinct(results0)
    ensures var vs := run.results + [StepView(step.id, step.action, FailedStep, Some(STEP_FAILED))];
            PlanResult(status, Views(results), quarantined, run.w)
              == Finish(if Successes(vs) != [] then Partial else PlanFailed, UndoOf(run).(results := vs))
  {
    var r;
    r, results := Push(results0, step, FailedStep, Some(STEP_FAILED));
    var completed, idxs := FilterSuccesses(results);
    assert completed == [] <==> idxs == [];
    status := if quarantined != {} then Quarantined else if completed != [] then Partial else PlanFailed;
  }

  method StopRolledBack(env: Env, ghost run: Run, w0: World, step: PlanStep, results0: seq<StepResult>,
      placed: map<string, PlacedOrder>, quarantined0: set<string>)
    returns (status: PlanStatus, results: seq<StepResult>, quarantined: set<string>, w: World)
    requires run.w == w0 && run.results == Views(results0) && run.placed == placed && run.quarantined == quarantined0
             && Distinct(results0)
    modifies results0
    ensures var u := RollbackSteps(env, UndoOf(run), run.placed, None, Successes(run.results));
            PlanResult(status, Views(results), quarantined, w)
            == Finish(PlanFailed,
                      u.(results := u.results + [StepView(step.id, step.action, RolledBack, Some(STEP_FAILED))]))
  {
    var completed, idxs := FilterSuccesses(results0);
    w, quarantined := RollbackLoop(env, w0, completed, idxs, placed, None, quarantined0, results0);
    var r;
    r, results := Push(results0, step, RolledBack, Some(STEP_FAILED));
    status := if quarantined != {} then Quarantined else PlanFailed;
  }

  /** An order step with an unknown outcome: quarantine, push "pending", roll back other symbols if asked. */
  method StopPending(env: Env, ghost run: Run, w0: World, step: PlanStep, results0: seq<StepResult>,
      placed: map<string, PlacedOrder>, quarantined0: set<string>)
    returns (results: seq<StepResult>, quarantined: set<string>, w: World)
    requires run.w == w0 && run.results == Views(results0) && run.placed == placed && run.quarantined == quarantined0
             && Distinct(results0)
    modifies results0
    ensures var sym := SymbolOf(step);
            var u := Undo(run.w, run.results + [StepView(step.id, step.action, Pending, Some(OUTCOME_PENDING))],
                          run.quarantined + {Upper(sym)});
            Undo(w, Views(results), quarantined)
            == if step.onFailure == Rollback then RollbackSteps(env, u, run.placed, Some(sym), Successes(u.results))
              else u
  {
    hide RollbackSteps, Successes, SymbolOf;
    var sym := SymbolOf(step);
    w, quarantined := w0, quarantined0 + {Upper(sym)};
    var r;
    r, results := Push(results0, step, Pending, Some(OUTCOME_PENDING));
    if step.onFailure == Rollback {
      assert Views(results) == run.results + [StepView(step.id, step.action, Pending, Some(OUTCOME_PENDING))];
      var completed, idxs := FilterSuccesses(results);
      w, quarantined := RollbackLoop(env, w, completed, idxs, placed, Some(sym), quarantined, results);
    }
  }
}
