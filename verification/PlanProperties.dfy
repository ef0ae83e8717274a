/** What every run of a plan guarantees, whatever the venue answers: the shape of the results, the
    quarantined symbols, which steps may run at all, and which symbols are left alone. */
module PlanProperties {
  import opened Prelude
  import opened Errors
  import opened Venue
  import opened PlanExecutor

  ghost predicate DistinctIds(steps: seq<PlanStep>) {
    forall i, j :: 0 <= i < j < |steps| ==> steps[i].id != steps[j].id
  }

  lemma ValidPlanHasDistinctIds(plan: Plan)
    requires ValidPlan(plan)
    ensures DistinctIds(plan.steps)
  {
    forall i, j | 0 <= i < j < |plan.steps| ensures plan.steps[i].id != plan.steps[j].id {
      assert StepOk(plan.steps, j);
    }
  }

  const RESTABLE: set<Action> := {MarketOrder, LimitOrder, StopOrder}

  predicate SameStep(v: StepView, s: PlanStep) {
    v.stepId == s.id && v.action == s.action
  }

  /** A placement recorded for step `s`. */
  predicate PlacedFor(o: PlacedOrder, s: PlanStep) {
    o.symbol == SymbolOf(s) && o.side == SideOf(s) && o.decimals == SizeOf(s).decimals
      && (o.filled.Some? <==> s.action == MarketOrder)
  }

  /** The first `i` steps have run and the plan goes on. */
  ghost predicate Running(steps: seq<PlanStep>, run: Run, i: nat) {
    i <= |steps| && ResultsSoFar(steps, run, i) && CompletedSoFar(steps, run, i) && PlacedSoFar(steps, run, i)
  }

  ghost predicate ResultsSoFar(steps: seq<PlanStep>, run: Run, i: nat)
    requires i <= |steps|
  {
    && |run.results| == i && run.quarantined == {}
    && forall k :: 0 <= k < i ==>
       SameStep(run.results[k], steps[k]) && run.results[k].status in {Success, Skipped, DryRun}
  }

  /** The completed-steps map holds exactly the steps so far, with their status. */
  ghost predicate CompletedSoFar(steps: seq<PlanStep>, run: Run, i: nat)
    requires i <= |steps|
  {
    && |run.results| == i
    && (forall k :: 0 <= k < i ==> steps[k].id in run.completed && run.completed[steps[k].id] == run.results[k].status)
    && (forall id :: id in run.completed ==> exists k :: 0 <= k < i && steps[k].id == id)
  }

  /** Exactly the market, limit and stop steps that succeeded have a placement, each its own. */
  ghost predicate PlacedSoFar(steps: seq<PlanStep>, run: Run, i: nat)
    requires i <= |steps|
  {
    && |run.results| == i
    && (forall k :: 0 <= k < i && steps[k].id in run.placed ==>
          PlacedFor(run.placed[steps[k].id], steps[k]) && run.results[k].status == Success
            && steps[k].action in RESTABLE)
    && (forall k :: 0 <= k < i && run.results[k].status == Success && steps[k].action in RESTABLE ==>
        steps[k].id in run.placed)
    && (forall id :: id in run.placed ==> exists k :: 0 <= k < i && steps[k].id == id)
  }

  /** Exactly the market, limit and stop steps that succeed record a placement, each its own. */
  lemma StepPlacement(env: Env, w: World, i: nat, step: PlanStep)
    ensures var o := ExecuteStep(env, w, i, step).1;
            o.Succeeded? ==>
              (o.placed.Some? <==> step.action in RESTABLE) && (o.placed.Some? ==> PlacedFor(o.placed.value, step))
  {
  }

  lemma {:induction false} RecordKeepsRunning(steps: seq<PlanStep>, run: Run, i: nat, w: World, p: Option<PlacedOrder>,
      status: Status, code: Option<ResultCode>)
    requires DistinctIds(steps) && i < |steps| && Running(steps, run, i)
    requires status in {Success, Skipped, DryRun}
    requires p.Some? ==> status == Success && PlacedFor(p.value, steps[i]) && steps[i].action in RESTABLE
    requires status == Success && steps[i].action in RESTABLE ==> p.Some?
    ensures Running(steps, Record(run.(w := w, placed := Place1(run.placed, steps[i].id, p)), steps[i], status, code),
                    i + 1)
  {
    hide CompletedSoFar, PlacedSoFar, PlacedFor;
    CompletedKeeps(steps, run, i, w, p, status, code);
    PlacedKeeps(steps, run, i, w, p, status, code);
  }

  lemma CompletedKeeps(steps: seq<PlanStep>, run: Run, i: nat, w: World, p: Option<PlacedOrder>, status: Status,
      code: Option<ResultCode>)
    requires DistinctIds(steps) && i < |steps| && CompletedSoFar(steps, run, i)
    ensures CompletedSoFar(steps,
                           Record(run.(w := w, placed := Place1(run.placed, steps[i].id, p)), steps[i], status, code),
                             i + 1)
  {
    hide Place1;
    var step := steps[i];
    var run' := Record(run.(w := w, placed := Place1(run.placed, step.id, p)), step, status, code);
    assert step.id !in run.completed && steps[i].id == step.id;
    forall id | id in run'.completed ensures exists k :: 0 <= k < i + 1 && steps[k].id == id {
      if id != step.id { var k :| 0 <= k < i && steps[k].id == id; }
    }
  }

  lemma PlacedKeeps(steps: seq<PlanStep>, run: Run, i: nat, w: World, p: Option<PlacedOrder>, status: Status,
      code: Option<ResultCode>)
    requires DistinctIds(steps) && i < |steps| && PlacedSoFar(steps, run, i)
    requires p.Some? ==> status == Success && PlacedFor(p.value, steps[i]) && steps[i].action in RESTABLE
    requires status == Success && steps[i].action in RESTABLE ==> p.Some?
    ensures PlacedSoFar(steps,
                        Record(run.(w := w, placed := Place1(run.placed, steps[i].id, p)), steps[i], status, code),
                          i + 1)
  {
    hide PlacedFor;
    var step := steps[i];
    var run' := Record(run.(w := w, placed := Place1(run.placed, step.id, p)), step, status, code);
    assert step.id !in run.placed && steps[i].id == step.id;
    forall id | id in run'.placed ensures exists k :: 0 <= k < i + 1 && steps[k].id == id {
      if id != step.id { var k :| 0 <= k < i && steps[k].id == id; }
    }
  }

  lemma {:induction false} AdvanceKeepsRunning(env: Env, steps: seq<PlanStep>, dryRun: bool, run: Run, i: nat)
    requires DistinctIds(steps) && i < |steps| && Running(steps, run, i)
    requires Advance(env, steps, dryRun, run, i).Continue?
    ensures Running(steps, Advance(env, steps, dryRun, run, i).run, i + 1)
  {
    hide ExecuteStep, RollbackSteps, Running, PlacedFor;
    var step := steps[i];
    StepPlacement(env, run.w, i, step);
    if !DependencyMet(run, step) {
      RecordKeepsRunning(steps, run, i, run.w, None, Skipped, Some(DEPENDENCY_FAILED));
    } else if dryRun {
      RecordKeepsRunning(steps, run, i, run.w, None, DryRun, None);
    } else {
      var (w1, o) := ExecuteStep(env, run.w, i, step);
      if o.Succeeded? {
        RecordKeepsRunning(steps, run, i, w1, o.placed, Success, None);
      } else {
        RecordKeepsRunning(steps, run, i, w1, None, Skipped, Some(STEP_FAILED));
      }
    }
  }

  // ── Rollback ──

  /** What a rollback may assume: the steps to reverse, oldest first, succeeded, and their
      placements are their own. */
  ghost predicate Reversible(steps: seq<PlanStep>, u: Undo, placed: map<string, PlacedOrder>, idxs: seq<nat>) {
    && |u.results| <= |steps| && InRange(idxs, |u.results|)
    && (forall k :: 0 <= k < |u.results| ==> SameStep(u.results[k], steps[k]))
    && (forall k, l :: 0 <= k < l < |idxs| ==> idxs[k] < idxs[l])
    && (forall k :: 0 <= k < |idxs| ==> u.results[idxs[k]].status == Success)
    && (forall k :: 0 <= k < |idxs| && steps[idxs[k]].id in placed ==>
        PlacedFor(placed[steps[idxs[k]].id], steps[idxs[k]]))
  }

  /** Symbols a run must quarantine: those of the pending and the rollback_failed steps. */
  ghost function Exposed(steps: seq<PlanStep>, results: seq<StepView>): set<string>
    requires |results| <= |steps|
  {
    set k | 0 <= k < |results| && results[k].status in {Pending, RollbackFailed} :: SymbolOf(steps[k])
  }

  lemma ExposedUpdate(steps: seq<PlanStep>, results: seq<StepView>, i: nat, v: StepView)
    requires |results| <= |steps| && i < |results| && results[i].status == Success
    ensures Exposed(steps, results[i := v])
            == Exposed(steps, results) + (if v.status in {Pending, RollbackFailed} then {SymbolOf(steps[i])} else {})
  {
    var a, b := Exposed(steps, results[i := v]), Exposed(steps, results);
    forall s | s in b ensures s in a {
      var k :| 0 <= k < |results| && results[k].status in {Pending, RollbackFailed} && SymbolOf(steps[k]) == s;
      assert results[i := v][k] == results[k];
    }
    if v.status in {Pending, RollbackFailed} { assert results[i := v][i] == v; }
    forall s | s in a && s !in b ensures s == SymbolOf(steps[i]) && v.status in {Pending, RollbackFailed} {
      var k :| 0 <= k < |results| && results[i := v][k].status in {Pending, RollbackFailed} && SymbolOf(steps[k]) == s;
    }
  }

  /** A call that reverses this placement and no other: a market order is closed reduce-only (with
      position reads), a resting order cancelled by its own id. */
  predicate OwnUndo(e: Event, order: PlacedOrder) {
    if order.filled.Some?
      then e.call.ReadNet? || (e.call.Place? && e.call.reduceOnly && e.call.side == Opposite(order.side))
    else order.orderId.Some? && e.call == Cancel(order.symbol, order.orderId.value)
  }

  lemma ReverseEvents(env: Env, w: World, i: nat, order: PlacedOrder)
    requires Honest(env)
    ensures var w' := Reverse(env, w, i, order).0;
            && |w.log| <= |w'.log| && w'.log[..|w.log|] == w.log
            && forall k :: |w.log| <= k < |w'.log| ==>
                 w'.log[k].undo && w'.log[k].step == i && w'.log[k].call.symbol == order.symbol
                   && OwnUndo(w'.log[k], order)
  {
    if order.filled.Some? && FillSize(order.filled.value, order.decimals) > 0.0 {
      var _ := ClosePerpEffect(env, w, i, true, order.symbol, Opposite(order.side),
                               FillSize(order.filled.value, order.decimals), order.decimals);
    }
  }

  /** Reversing the order makes at least one call to the venue. */
  predicate Actionable(order: PlacedOrder) {
    if order.filled.Some? then FillSize(order.filled.value, order.decimals) > 0.0 else order.orderId.Some?
  }

  lemma ReverseCalls(env: Env, w: World, i: nat, order: PlacedOrder)
    requires Honest(env)
    ensures Actionable(order) <==> |Reverse(env, w, i, order).0.log| > |w.log|
  {
    ReverseEvents(env, w, i, order);
    if order.filled.Some? && Actionable(order) {
      CloseMakesCalls(env, w, i, order.symbol, Opposite(order.side), FillSize(order.filled.value, order.decimals),
                      order.decimals);
    }
  }

  lemma CloseMakesCalls(env: Env, w: World, i: nat, symbol: string, side: Side, size: real, dec: nat)
    ensures |ClosePerp(env, w, i, true, symbol, side, size, dec).0.log| > |w.log|
  {
  }

  /** An event of a rollback: it undoes a step that has something to undo, by its own order, on its
      own symbol, and does not name `skip`. */
  predicate UndoEvent(e: Event, steps: seq<PlanStep>, placed: map<string, PlacedOrder>, skip: Option<string>) {
    && e.undo && Due(steps, placed, e.step) && OwnUndo(e, placed[steps[e.step].id])
    && e.call.symbol == SymbolOf(steps[e.step]) && Some(e.call.symbol) != skip
  }

  /** Step `j` has a placement whose reversal calls the venue. */
  predicate Due(steps: seq<PlanStep>, placed: map<string, PlacedOrder>, j: nat) {
    j < |steps| && steps[j].id in placed && Actionable(placed[steps[j].id])
  }

  /** One reversal keeps what the rollback relies on. */
  lemma ReverseStepKeeps(env: Env, steps: seq<PlanStep>, u: Undo, placed: map<string, PlacedOrder>,
      skip: Option<string>, idxs: seq<nat>)
    requires idxs != [] && Reversible(steps, u, placed, idxs) && u.quarantined == Exposed(steps, u.results)
    ensures var i := idxs[|idxs| - 1];
            var u1 := ReverseStep(env, u, placed, skip, i);
            && Reversible(steps, u1, placed, idxs[..|idxs| - 1]) && u1.quarantined == Exposed(steps, u1.results)
            && |u1.results| == |u.results| && u1.results[i].status in {Success, RolledBack, Cancelled, RollbackFailed}
            && forall k :: 0 <= k < |u.results| && k != i ==> u1.results[k] == u.results[k]
  {
    hide Reverse;
    var n := |idxs| - 1;
    var i, rest := idxs[n], idxs[..n];
    var v := u.results[i];
    if v.stepId in placed && !Skips(skip, placed[v.stepId]) {
      var verdict := Reverse(env, u.w, i, placed[v.stepId]).1;
      ExposedUpdate(steps, u.results, i, Mark(v, verdict));
      UpperIdempotent(steps[i].params.symbol);
    }
    var u1 := ReverseStep(env, u, placed, skip, i);
    forall k | 0 <= k < |rest| ensures u1.results[rest[k]] == u.results[rest[k]] { assert rest[k] == idxs[k] != i; }
  }

  /** A rollback changes the status of the steps it reverses and nothing else, and quarantines
      exactly the symbols it failed on. */
  lemma {:induction false} RollbackShape(env: Env, steps: seq<PlanStep>, u: Undo, placed: map<string, PlacedOrder>,
      skip: Option<string>, idxs: seq<nat>)
    requires Reversible(steps, u, placed, idxs) && u.quarantined == Exposed(steps, u.results)
    ensures var u' := RollbackSteps(env, u, placed, skip, idxs);
            && u'.quarantined == Exposed(steps, u'.results)
            && (forall k :: 0 <= k < |u.results| ==> SameStep(u'.results[k], steps[k]))
            && (forall k :: 0 <= k < |u.results| && k !in idxs ==> u'.results[k] == u.results[k])
            && (forall k :: 0 <= k < |u.results| && u'.results[k].status == Pending ==> u.results[k].status == Pending)
            && (forall k :: 0 <= k < |u.results| && k in idxs ==>
                u'.results[k].status in {Success, RolledBack, Cancelled, RollbackFailed})
    decreases |idxs|
  {
    hide ReverseStep, SymbolOf, Exposed;
    if idxs != [] {
      var n := |idxs| - 1;
      var i, rest := idxs[n], idxs[..n];
      assert idxs == rest + [i] && i !in rest;
      ReverseStepKeeps(env, steps, u, placed, skip, idxs);
      var u1 := ReverseStep(env, u, placed, skip, i);
      RollbackShape(env, steps, u1, placed, skip, rest);
    }
  }

  /** A rollback only makes calls that undo the steps it reverses, each on that step's own symbol,
      and none naming `skip`. */
  lemma {:induction false} RollbackCalls(env: Env, steps: seq<PlanStep>, u: Undo, placed: map<string, PlacedOrder>,
      skip: Option<string>, idxs: seq<nat>)
    requires Honest(env) && Reversible(steps, u, placed, idxs)
    ensures var u' := RollbackSteps(env, u, placed, skip, idxs);
            && |u.w.log| <= |u'.w.log| && u'.w.log[..|u.w.log|] == u.w.log
            && forall k :: |u.w.log| <= k < |u'.w.log| ==>
               UndoEvent(u'.w.log[k], steps, placed, skip) && u'.w.log[k].step in idxs
    decreases |idxs|
  {
    hide Reverse, SymbolOf, Actionable;
    if idxs != [] {
      var n := |idxs| - 1;
      var i, rest := idxs[n], idxs[..n];
      assert idxs == rest + [i];
      var u1 := ReverseStep(env, u, placed, skip, i);
      var v := u.results[i];
      if v.stepId in placed {
        ReverseEvents(env, u.w, i, placed[v.stepId]);
        ReverseCalls(env, u.w, i, placed[v.stepId]);
      }
      forall k | 0 <= k < |rest| ensures u1.results[rest[k]] == u.results[rest[k]] { assert rest[k] == idxs[k] != i; }
      RollbackCalls(env, steps, u1, placed, skip, rest);
      var log, n0, n1 := RollbackSteps(env, u, placed, skip, idxs).w.log, |u.w.log|, |u1.w.log|;
      assert log[..n0] == log[..n1][..n0];
      forall k | n0 <= k < |log| ensures UndoEvent(log[k], steps, placed, skip) && log[k].step in idxs {
        if k < n1 { assert log[k] == log[..n1][k]; }
      }
    }
  }

  // ── Whole runs ──

  ghost predicate OneResultPerStep(steps: seq<PlanStep>, results: seq<StepView>) {
    |results| <= |steps| && forall k :: 0 <= k < |results| ==> SameStep(results[k], steps[k])
  }

  /** The promise of PlanResult: a result for every step of a prefix of the plan, in order, and for
      all of it when the plan completed; "pending" on the last result exactly when the plan is
      pending; quarantined exactly the symbols left exposed. */
  ghost predicate WellShaped(steps: seq<PlanStep>, r: PlanResult) {
    && OneResultPerStep(steps, r.steps)
    && (r.status in {Completed, PlanDryRun} ==> |r.steps| == |steps|)
    && (forall k :: 0 <= k < |r.steps| && r.steps[k].status == Pending ==> k == |r.steps| - 1)
    && (r.status == PlanPending <==> r.steps != [] && r.steps[|r.steps| - 1].status == Pending)
    && r.quarantined == Exposed(steps, r.steps)
    && (r.status in {Completed, Partial, PlanFailed, PlanDryRun} ==> r.quarantined == {})
    && (r.status in {Quarantined, PlanPending} ==> r.quarantined != {})
  }

  lemma RunningIsReversible(steps: seq<PlanStep>, run: Run, i: nat)
    requires Running(steps, run, i) && i < |steps|
    ensures Reversible(steps, UndoOf(run), run.placed, Successes(run.results))
    ensures Exposed(steps, run.results) == {}
  {
  }

  /** Pushing a result that is not "success" leaves the list to roll back as it was. */
  lemma SuccessesAppend(results: seq<StepView>, v: StepView)
    requires v.status != Success
    ensures Successes(results + [v]) == Successes(results)
  {
    assert (results + [v])[..|results|] == results;
  }

  lemma ReversibleAppend(steps: seq<PlanStep>, u: Undo, placed: map<string, PlacedOrder>, idxs: seq<nat>, v: StepView,
      w: World, q: set<string>)
    requires Reversible(steps, u, placed, idxs) && |u.results| < |steps| && SameStep(v, steps[|u.results|])
    ensures Reversible(steps, Undo(w, u.results + [v], q), placed, idxs)
  {
    hide PlacedFor;
  }

  lemma PendingIsReversible(steps: seq<PlanStep>, run: Run, i: nat, v: StepView, w: World, q: set<string>)
    requires Running(steps, run, i) && i < |steps| && v.status == Pending && SameStep(v, steps[i])
    ensures Reversible(steps, Undo(w, run.results + [v], q), run.placed, Successes(run.results + [v]))
    ensures Exposed(steps, run.results + [v]) == {SymbolOf(steps[i])}
    ensures i !in Successes(run.results + [v])
  {
    hide PlacedFor, SymbolOf, SameStep, Reversible, Exposed;
    hide CompletedSoFar, PlacedSoFar, Successes;
    RunningIsReversible(steps, run, i);
    ReversibleAppend(steps, UndoOf(run), run.placed, Successes(run.results), v, w, q);
    SuccessesAppend(run.results, v);
    ExposedAppend(steps, run.results, v);
  }

  lemma PendingIsWellShaped(env: Env, steps: seq<PlanStep>, run: Run, i: nat)
    requires i < |steps| && Running(steps, run, i)
    ensures var step := steps[i];
            var sym := SymbolOf(step);
            var v := StepView(step.id, step.action, Pending, Some(OUTCOME_PENDING));
            var u := Undo(run.w, run.results + [v], run.quarantined + {Upper(sym)});
            WellShaped(steps, Finish(PlanPending,
                                     if step.onFailure == Rollback
                                       then RollbackSteps(env, u, run.placed, Some(sym), Successes(u.results)) else u))
  {
    hide PlacedFor, Successes, RollbackSteps;
    var step := steps[i];
    var sym := SymbolOf(step);
    var v := StepView(step.id, step.action, Pending, Some(OUTCOME_PENDING));
    var u := Undo(run.w, run.results + [v], run.quarantined + {Upper(sym)});
    UpperIdempotent(step.params.symbol);
    PendingIsReversible(steps, run, i, v, run.w, u.quarantined);
    assert u.quarantined == Exposed(steps, u.results);
    var u' := u;
    if step.onFailure == Rollback {
      RollbackShape(env, steps, u, run.placed, Some(sym), Successes(u.results));
      u' := RollbackSteps(env, u, run.placed, Some(sym), Successes(u.results));
    }
    assert u'.results[i] == v;
    assert sym in Exposed(steps, u'.results);
  }

  lemma {:induction false} RolledBackIsWellShaped(env: Env, steps: seq<PlanStep>, run: Run, i: nat, v: StepView)
    requires i < |steps| && Running(steps, run, i) && v.status == RolledBack && SameStep(v, steps[i])
    ensures var u := RollbackSteps(env, UndoOf(run), run.placed, None, Successes(run.results));
            WellShaped(steps, Finish(PlanFailed, u.(results := u.results + [v])))
  {
    hide PlacedFor, Successes, RollbackSteps, SymbolOf;
    RunningIsReversible(steps, run, i);
    RollbackShape(env, steps, UndoOf(run), run.placed, None, Successes(run.results));
    var u := RollbackSteps(env, UndoOf(run), run.placed, None, Successes(run.results));
    ExposedAppend(steps, u.results, v);
  }

  lemma {:induction false} StopIsWellShaped(env: Env, steps: seq<PlanStep>, run: Run, i: nat, err: Thrown)
    requires i < |steps| && Running(steps, run, i)
    requires OnThrow(env, run, steps[i], err).Stop?
    ensures WellShaped(steps, OnThrow(env, run, steps[i], err).result)
  {
    hide RollbackSteps, Running, WellShaped;
    var step := steps[i];
    if step.action in ORDER_ACTIONS && IsOutcomeUnknown(err) {
      PendingIsWellShaped(env, steps, run, i);
    } else if step.onFailure == Rollback {
      RolledBackIsWellShaped(env, steps, run, i, StepView(step.id, step.action, RolledBack, Some(STEP_FAILED)));
    } else {
      AbortedIsWellShaped(steps, run, i, StepView(step.id, step.action, FailedStep, Some(STEP_FAILED)));
    }
  }

  lemma AbortedIsWellShaped(steps: seq<PlanStep>, run: Run, i: nat, v: StepView)
    requires i < |steps| && Running(steps, run, i) && v.status == FailedStep && SameStep(v, steps[i])
    ensures forall s :: s in {Partial, PlanFailed} ==>
            WellShaped(steps, Finish(s, UndoOf(run).(results := run.results + [v])))
  {
    hide CompletedSoFar, PlacedSoFar, SymbolOf;
    RunningIsReversible(steps, run, i);
    ExposedAppend(steps, run.results, v);
  }

  lemma ExposedAppend(steps: seq<PlanStep>, results: seq<StepView>, v: StepView)
    requires |results| < |steps|
    ensures Exposed(steps, results + [v])
            == Exposed(steps, results)
              + (if v.status in {Pending, RollbackFailed} then {SymbolOf(steps[|results|])} else {})
  {
    hide SymbolOf;
    var n := |results|;
    var a, b := Exposed(steps, results + [v]), Exposed(steps, results);
    forall s | s in b ensures s in a {
      var k :| 0 <= k < n && results[k].status in {Pending, RollbackFailed} && SymbolOf(steps[k]) == s;
      assert (results + [v])[k] == results[k];
    }
    if v.status in {Pending, RollbackFailed} { assert (results + [v])[n] == v; }
    forall s | s in a && s !in b ensures v.status in {Pending, RollbackFailed} && s == SymbolOf(steps[n]) {
      var k :| 0 <= k <= n && (results + [v])[k].status in {Pending, RollbackFailed} && SymbolOf(steps[k]) == s;
    }
  }

  lemma {:induction false} RunFromIsWellShaped(env: Env, steps: seq<PlanStep>, dryRun: bool, run: Run, i: nat)
    requires DistinctIds(steps) && Running(steps, run, i)
    ensures WellShaped(steps, ExecuteFrom(env, steps, dryRun, run, i))
    decreases |steps| - i
  {
    hide ExecuteStep, OnThrow;
    if i == |steps| {
      assert Exposed(steps, run.results) == {};
    } else if Advance(env, steps, dryRun, run, i).Continue? {
      AdvanceKeepsRunning(env, steps, dryRun, run, i);
      RunFromIsWellShaped(env, steps, dryRun, Advance(env, steps, dryRun, run, i).run, i + 1);
    } else {
      var (w1, o) := ExecuteStep(env, run.w, i, steps[i]);
      StopIsWellShaped(env, steps, run.(w := w1), i, o.err);
    }
  }

  /** Every run of an accepted plan, on any venue, ends well shaped. */
  lemma EveryRunIsWellShaped(env: Env, plan: Plan, dryRun: bool, canClose: bool, w: World)
    requires ValidPlan(plan)
    ensures var r := ExecutePlan(env, plan.steps, dryRun, canClose, w); r.Some? ==> WellShaped(plan.steps, r.value)
  {
    ValidPlanHasDistinctIds(plan);
    RunFromIsWellShaped(env, plan.steps, dryRun, Start(w), 0);
  }

  // ── Dependencies ──

  /** The step got past its dependency check. */
  predicate Ran(v: StepView) {
    !(v.status == Skipped && v.code == Some(DEPENDENCY_FAILED))
  }

  /** It did what it was asked (and may have been undone since). */
  predicate DidSucceed(v: StepView) {
    v.status in {Success, DryRun, RolledBack, Cancelled, RollbackFailed}
  }

  /** A step ran exactly when it has no dependency or its dependency succeeded at a smaller index. */
  ghost predicate DependenciesHeld(steps: seq<PlanStep>, results: seq<StepView>)
    requires |results| <= |steps|
  {
    forall k :: 0 <= k < |results| ==>
      (Ran(results[k]) <==> steps[k].dependsOn == "" || DependencyAt(steps, results, k))
  }

  ghost predicate DependencyAt(steps: seq<PlanStep>, results: seq<StepView>, k: nat)
    requires k < |results| <= |steps|
  {
    exists j :: 0 <= j < k && steps[j].id == steps[k].dependsOn && DidSucceed(results[j])
  }

  /** What the loop looks up in its map of completed steps. */
  lemma DependencyMetIff(steps: seq<PlanStep>, run: Run, i: nat, v: StepView)
    requires i < |steps| && Running(steps, run, i)
    ensures DependencyMet(run, steps[i]) <==> steps[i].dependsOn == "" || DependencyAt(steps, run.results + [v], i)
  {
    var results := run.results + [v];
    forall j | 0 <= j < i
      ensures results[j] == run.results[j] && (DidSucceed(results[j]) <==> results[j].status != Skipped) {}
    if j :| 0 <= j < i && steps[j].id == steps[i].dependsOn && DidSucceed(results[j]) {
      assert run.completed[steps[j].id] == run.results[j].status;
    }
    if steps[i].dependsOn != "" && DependencyMet(run, steps[i]) {
      var j :| 0 <= j < i && steps[j].id == steps[i].dependsOn;
      assert DidSucceed(results[j]);
    }
  }

  lemma DependencyMetAt(steps: seq<PlanStep>, run: Run, i: nat, v: StepView)
    requires i < |steps| && Running(steps, run, i) && DependenciesHeld(steps, run.results)
             && (Ran(v) <==> DependencyMet(run, steps[i]))
    ensures DependenciesHeld(steps, run.results + [v])
  {
    hide DependencyMet, Running;
    assert |run.results| == i by { RunningSize(steps, run, i); }
    DependencyMetIff(steps, run, i, v);
    DependenciesAppend(steps, run.results, v);
  }

  lemma RunningSize(steps: seq<PlanStep>, run: Run, i: nat)
    requires Running(steps, run, i)
    ensures |run.results| == i
  {
  }

  /** One more result changes nothing for the steps before it. */
  lemma DependenciesAppend(steps: seq<PlanStep>, results: seq<StepView>, v: StepView)
    requires |results| < |steps| && DependenciesHeld(steps, results)
    requires var all := results + [v];
             Ran(v) <==> steps[|results|].dependsOn == "" || DependencyAt(steps, all, |results|)
    ensures DependenciesHeld(steps, results + [v])
  {
    var all := results + [v];
    forall k | 0 <= k < |results| ensures DependencyAt(steps, all, k) <==> DependencyAt(steps, results, k) {
      forall j | 0 <= j < k ensures all[j] == results[j] {}
      if j :| 0 <= j < k && steps[j].id == steps[k].dependsOn && DidSucceed(results[j]) { assert DidSucceed(all[j]); }
    }
  }

  /** Undoing steps that succeeded takes no dependency away. */
  lemma DependenciesOutliveRollback(steps: seq<PlanStep>, a: seq<StepView>, b: seq<StepView>)
    requires |a| == |b| <= |steps| && DependenciesHeld(steps, a)
    requires forall k :: 0 <= k < |a| ==>
             b[k] == a[k] || (a[k].status == Success && b[k].status in {Success, RolledBack, Cancelled, RollbackFailed})
    ensures DependenciesHeld(steps, b)
  {
    forall k | 0 <= k < |b|
      ensures (Ran(a[k]) <==> Ran(b[k])) && (DependencyAt(steps, a, k) <==> DependencyAt(steps, b, k))
    {
      forall j | 0 <= j < k ensures DidSucceed(a[j]) <==> DidSucceed(b[j]) {}
      if j :| 0 <= j < k && steps[j].id == steps[k].dependsOn && DidSucceed(a[j]) { assert DidSucceed(b[j]); }
    }
  }

  lemma {:induction false} StopKeepsDependencies(env: Env, steps: seq<PlanStep>, run: Run, i: nat, err: Thrown)
    requires i < |steps| && Running(steps, run, i) && DependenciesHeld(steps, run.results)
             && DependencyMet(run, steps[i])
    requires OnThrow(env, run, steps[i], err).Stop?
    ensures |OnThrow(env, run, steps[i], err).result.steps| <= |steps|
            && DependenciesHeld(steps, OnThrow(env, run, steps[i], err).result.steps)
  {
    hide PlacedFor, SymbolOf, DependenciesHeld, DependencyMet, Successes, RollbackSteps;
    var step := steps[i];
    if step.action in ORDER_ACTIONS && IsOutcomeUnknown(err) {
      var v := StepView(step.id, step.action, Pending, Some(OUTCOME_PENDING));
      DependencyMetAt(steps, run, i, v);
      if step.onFailure == Rollback {
        var u := Undo(run.w, run.results + [v], run.quarantined + {Upper(SymbolOf(step))});
        PendingIsReversible(steps, run, i, v, run.w, u.quarantined);
        PendingQuarantine(steps[i]);
        RollbackShape(env, steps, u, run.placed, Some(SymbolOf(step)), Successes(u.results));
        DependenciesOutliveRollback(steps, u.results,
                                    RollbackSteps(env, u, run.placed, Some(SymbolOf(step)),
                                                  Successes(u.results)).results);
      }
    } else if step.onFailure == Rollback {
      var v := StepView(step.id, step.action, RolledBack, Some(STEP_FAILED));
      DependencyMetAt(steps, run, i, v);
      RunningIsReversible(steps, run, i);
      RollbackShape(env, steps, UndoOf(run), run.placed, None, Successes(run.results));
      DependenciesOutliveRollback(steps, run.results + [v],
                                  RollbackSteps(env, UndoOf(run), run.placed, None, Successes(run.results)).results
                                    + [v]);
    } else {
      DependencyMetAt(steps, run, i, StepView(step.id, step.action, FailedStep, Some(STEP_FAILED)));
    }
  }

  lemma PendingQuarantine(step: PlanStep)
    ensures Upper(SymbolOf(step)) == SymbolOf(step)
  {
    UpperIdempotent(step.params.symbol);
  }

  lemma {:induction false} RunFromKeepsDependencies(env: Env, steps: seq<PlanStep>, dryRun: bool, run: Run, i: nat)
    requires DistinctIds(steps) && Running(steps, run, i) && DependenciesHeld(steps, run.results)
    ensures var r := ExecuteFrom(env, steps, dryRun, run, i); |r.steps| <= |steps| && DependenciesHeld(steps, r.steps)
    decreases |steps| - i
  {
    hide ExecuteStep, OnThrow, DependenciesHeld, DependencyMet;
    if i < |steps| {
      var next := Advance(env, steps, dryRun, run, i);
      if next.Continue? {
        AdvanceKeepsRunning(env, steps, dryRun, run, i);
        AdvanceRecords(env, steps, dryRun, run, i);
        DependencyMetAt(steps, run, i, next.run.results[i]);
        RunFromKeepsDependencies(env, steps, dryRun, next.run, i + 1);
      } else {
        var (w1, o) := ExecuteStep(env, run.w, i, steps[i]);
        DependencyIgnoresWorld(run, w1, steps[i]);
        StopKeepsDependencies(env, steps, run.(w := w1), i, o.err);
      }
    }
  }

  lemma DependencyIgnoresWorld(run: Run, w: World, step: PlanStep)
    ensures DependencyMet(run.(w := w), step) <==> DependencyMet(run, step)
  {
  }

  lemma AdvanceRecords(env: Env, steps: seq<PlanStep>, dryRun: bool, run: Run, i: nat)
    requires i < |steps| && Advance(env, steps, dryRun, run, i).Continue? && |run.results| == i
    ensures var run' := Advance(env, steps, dryRun, run, i).run;
            && |run'.results| == i + 1 && run'.results == run.results + [run'.results[i]]
            && (Ran(run'.results[i]) <==> DependencyMet(run, steps[i]))
  {
    hide ExecuteStep, RollbackSteps;
  }

  /** In a run of an accepted plan a step runs, a dry run included, if and only if it has no dependency or
      the step it depends on succeeded before it. */
  lemma RunsIffDependencySucceeded(env: Env, plan: Plan, dryRun: bool, canClose: bool, w: World)
    requires ValidPlan(plan) && ExecutePlan(env, plan.steps, dryRun, canClose, w).Some?
    ensures var r := ExecutePlan(env, plan.steps, dryRun, canClose, w).value;
            && |r.steps| <= |plan.steps|
            && forall k :: 0 <= k < |r.steps| ==>
                 (Ran(r.steps[k]) <==>
                    plan.steps[k].dependsOn == ""
                    || exists j :: 0 <= j < k && plan.steps[j].id == plan.steps[k].dependsOn && DidSucceed(r.steps[j]))
  {
    hide ExecuteFrom, StepOk;
    ValidPlanHasDistinctIds(plan);
    RunFromKeepsDependencies(env, plan.steps, dryRun, Start(w), 0);
    var r := ExecutePlan(env, plan.steps, dryRun, canClose, w).value;
    forall k | 0 <= k < |r.steps|
      ensures DependencyAt(plan.steps, r.steps, k) <==>
                exists j :: 0 <= j < k && plan.steps[j].id == plan.steps[k].dependsOn && DidSucceed(r.steps[j])
    {
    }
  }

  /** A chain of dependency links, as plan indices. */
  ghost predicate DependencyChain(steps: seq<PlanStep>, chain: seq<nat>) {
    && InRange(chain, |steps|)
    && forall t :: 0 <= t < |chain| - 1 ==>
       steps[chain[t]].dependsOn != "" && steps[chain[t + 1]].id == steps[chain[t]].dependsOn
  }

  /** In a run of an accepted plan, a step that ran had its whole dependency chain succeed, each
      link at a strictly smaller index than the one before. */
  lemma {:induction false} ChainSucceededBefore(env: Env, plan: Plan, dryRun: bool, canClose: bool, w: World,
      chain: seq<nat>, t: nat)
    requires ValidPlan(plan) && ExecutePlan(env, plan.steps, dryRun, canClose, w).Some?
    requires DependencyChain(plan.steps, chain) && 0 < t < |chain|
    requires var r := ExecutePlan(env, plan.steps, dryRun, canClose, w).value;
             chain[0] < |r.steps| && Ran(r.steps[chain[0]])
    ensures var r := ExecutePlan(env, plan.steps, dryRun, canClose, w).value;
            chain[t] < chain[t - 1] && chain[t] < chain[0] < |r.steps| && DidSucceed(r.steps[chain[t]])
    decreases t
  {
    hide ExecuteFrom, StepOk;
    ValidPlanHasDistinctIds(plan);
    var steps := plan.steps;
    var r := ExecutePlan(env, steps, dryRun, canClose, w).value;
    RunFromKeepsDependencies(env, steps, dryRun, Start(w), 0);
    if t > 1 { ChainSucceededBefore(env, plan, dryRun, canClose, w, chain, t - 1); }
    var k := chain[t - 1];
    assert steps[chain[t - 1 + 1]].id == steps[k].dependsOn;
    assert DependencyAt(steps, r.steps, k);
    var j :| 0 <= j < k && steps[j].id == steps[k].dependsOn && DidSucceed(r.steps[j]);
    assert j == chain[t];
  }

  /** validatePlan accepts dependency cycles, self-references and forward references; no step of
      one ever runs. */
  lemma CyclesNeverRun(env: Env, plan: Plan, dryRun: bool, canClose: bool, w: World, chain: seq<nat>)
    requires ValidPlan(plan) && ExecutePlan(env, plan.steps, dryRun, canClose, w).Some?
    requires DependencyChain(plan.steps, chain) && |chain| >= 2 && chain[|chain| - 1] >= chain[0]
    ensures var r := ExecutePlan(env, plan.steps, dryRun, canClose, w).value;
            chain[0] < |r.steps| ==> !Ran(r.steps[chain[0]])
  {
    var r := ExecutePlan(env, plan.steps, dryRun, canClose, w).value;
    if chain[0] < |r.steps| && Ran(r.steps[chain[0]]) {
      ChainSucceededBefore(env, plan, dryRun, canClose, w, chain, |chain| - 1);
    }
  }

  // ── Which markets a rollback calls ──

  /** Every reversal that is due is attempted, however the others ended, and newest first. */
  lemma {:induction false} RollbackReachesAll(env: Env, steps: seq<PlanStep>, u: Undo, placed: map<string, PlacedOrder>,
      skip: Option<string>, idxs: seq<nat>)
    requires Honest(env) && Reversible(steps, u, placed, idxs)
    ensures var log := RollbackSteps(env, u, placed, skip, idxs).w.log;
            && (forall a, b :: |u.w.log| <= a < b < |log| ==> log[a].step >= log[b].step)
            && forall j :: j in idxs && Due(steps, placed, j) && !Skips(skip, placed[steps[j].id])
                 ==> exists e :: |u.w.log| <= e < |log| && log[e].step == j
    decreases |idxs|
  {
    hide Reverse, SymbolOf, Actionable;
    if idxs != [] {
      var n := |idxs| - 1;
      var i, rest := idxs[n], idxs[..n];
      assert idxs == rest + [i];
      var u1 := ReverseStep(env, u, placed, skip, i);
      var v := u.results[i];
      if v.stepId in placed {
        ReverseEvents(env, u.w, i, placed[v.stepId]);
        ReverseCalls(env, u.w, i, placed[v.stepId]);
      }
      forall k | 0 <= k < |rest| ensures u1.results[rest[k]] == u.results[rest[k]] { assert rest[k] == idxs[k] != i; }
      RollbackReachesAll(env, steps, u1, placed, skip, rest);
      RollbackCalls(env, steps, u1, placed, skip, rest);
      var log, n0, n1 := RollbackSteps(env, u, placed, skip, idxs).w.log, |u.w.log|, |u1.w.log|;
      forall k | n0 <= k < n1 ensures log[k].step == i { assert log[k] == log[..n1][k]; }
      forall a, b | n0 <= a < b < |log| ensures log[a].step >= log[b].step {
        if b >= n1 { assert log[b].step in rest; }
      }
      forall j | j in idxs && Due(steps, placed, j) && !Skips(skip, placed[steps[j].id])
        ensures exists e :: n0 <= e < |log| && log[e].step == j
      {
        if j == i { assert log[n0].step == j; } else {
          assert j in rest;
          var e :| n1 <= e < |log| && log[e].step == j;
        }
      }
    }
  }

  /** A rollback calls a market exactly when one of the steps it reverses traded there and has
      something to reverse. */
  lemma RollbackTouches(env: Env, steps: seq<PlanStep>, u: Undo, placed: map<string, PlacedOrder>, skip: Option<string>,
      idxs: seq<nat>, market: string)
    requires Honest(env) && Reversible(steps, u, placed, idxs)
    ensures var log := RollbackSteps(env, u, placed, skip, idxs).w.log;
            (exists k :: |u.w.log| <= k < |log| && Market(log[k].call.symbol) == market)
            <==> (exists j ::
                  j in idxs && Due(steps, placed, j) && Some(SymbolOf(steps[j])) != skip
                    && Market(SymbolOf(steps[j])) == market)
  {
    hide RollbackSteps, SymbolOf, Market, Actionable;
    RollbackCalls(env, steps, u, placed, skip, idxs);
    RollbackReachesAll(env, steps, u, placed, skip, idxs);
    var log, n := RollbackSteps(env, u, placed, skip, idxs).w.log, |u.w.log|;
    if k :| n <= k < |log| && Market(log[k].call.symbol) == market {
      assert UndoEvent(log[k], steps, placed, skip) && log[k].step in idxs;
    }
    if j :|
      j in idxs && Due(steps, placed, j) && Some(SymbolOf(steps[j])) != skip && Market(SymbolOf(steps[j])) == market {
      var e :| n <= e < |log| && log[e].step == j;
      assert UndoEvent(log[e], steps, placed, skip);
    }
  }
}
