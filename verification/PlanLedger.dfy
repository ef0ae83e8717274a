/** What a rolled-back plan leaves on the account: for every market_order step, exactly its measured
    fill minus what its reversal closed, and when that is nothing at all. */
module PlanLedger {
  import opened Prelude
  import opened Errors
  import opened Venue
  import opened PlanExecutor
  import opened PlanProperties

  function MarketOf(step: PlanStep): string {
    Market(SymbolOf(step))
  }

  /** Net quantity the run's events moved for step `k`, on that step's market. */
  function StepNet(steps: seq<PlanStep>, log: seq<Event>, k: nat): real
    requires k < |steps|
  {
    NetOf(log, k, MarketOf(steps[k]))
  }

  /** The account while the plan runs: each market step that succeeded holds its fill, the others
      nothing; no event belongs to a later step. */
  ghost predicate Ledger(steps: seq<PlanStep>, run: Run, i: nat) {
    && i <= |steps| && |run.results| == i
    && (forall k :: 0 <= k < |run.w.log| ==> run.w.log[k].step < i && !run.w.log[k].undo)
    && (forall k :: 0 <= k < i && steps[k].action == MarketOrder ==> MarketStepHolds(steps, run, k))
  }

  ghost predicate MarketStepHolds(steps: seq<PlanStep>, run: Run, k: nat)
    requires k < |steps| && k < |run.results|
  {
    if run.results[k].status == Success then
      steps[k].id in run.placed && run.placed[steps[k].id].filled.Some? && run.placed[steps[k].id].filled.value > 0.0
      && StepNet(steps, run.w.log, k) == Signed(SideOf(steps[k]), run.placed[steps[k].id].filled.value)
    else StepNet(steps, run.w.log, k) == 0.0
  }

  /** From `w` to `w'`: only events of step `i`, not undoing, were added. */
  ghost predicate StepEvents(w: World, w': World, i: nat) {
    && |w.log| <= |w'.log| && w'.log[..|w.log|] == w.log
    && forall k :: |w.log| <= k < |w'.log| ==> w'.log[k].step == i && !w'.log[k].undo
  }

  lemma ExecuteStepEvents(env: Env, w: World, i: nat, step: PlanStep)
    requires Honest(env)
    ensures StepEvents(w, ExecuteStep(env, w, i, step).0, i)
  {
    hide ExecuteClose, Market, SymbolOf;
    if step.action == ClosePosition { ExecuteCloseEvents(env, w, i, SymbolOf(step)); }
  }

  lemma ExecuteCloseEvents(env: Env, w: World, i: nat, symbol: string)
    requires Honest(env)
    ensures StepEvents(w, ExecuteClose(env, w, i, symbol).0, i)
  {
    hide ClosePerp, Market;
    var (w1, r) := Send(env, w, i, false, FindPosition(symbol));
    if r.Found? && r.position.Some? {
      var lp := r.position.value;
      var side := if lp.signed > 0.0 then Sell else Buy;
      var _ := ClosePerpEffect(env, w1, i, false, lp.symbol, side, Abs(lp.signed), lp.decimals);
      var w2 := ClosePerp(env, w1, i, false, lp.symbol, side, Abs(lp.signed), lp.decimals).0;
      ClosingIsStepEvents(w, w1, w2, i, lp.symbol, side);
    }
  }

  lemma ClosingIsStepEvents(w: World, w1: World, w2: World, i: nat, symbol: string, side: Side)
    requires StepEvents(w, w1, i) && |w1.log| <= |w2.log| && w2.log[..|w1.log|] == w1.log
    requires forall k :: |w1.log| <= k < |w2.log| ==> ClosingEvent(w2.log[k], i, false, symbol, side)
    ensures StepEvents(w, w2, i)
  {
    assert w2.log[..|w.log|] == w2.log[..|w1.log|][..|w.log|];
    forall k | |w.log| <= k < |w2.log| ensures w2.log[k].step == i && !w2.log[k].undo {
      if k < |w1.log| {
        assert w2.log[k] == w2.log[..|w1.log|][k];
      } else {
        assert ClosingEvent(w2.log[k], i, false, symbol, side);
      }
    }
  }

  /** A market step: a success holds exactly its measured fill, a definite failure nothing. */
  lemma MarketStepNet(env: Env, w: World, i: nat, step: PlanStep)
    requires Honest(env) && step.action == MarketOrder
    ensures var (w', o) := ExecuteStep(env, w, i, step);
            var m := NetOf(w'.log, i, MarketOf(step)) - NetOf(w.log, i, MarketOf(step));
            && (o.Succeeded? ==> o.placed.Some? && o.placed.value.filled.Some? && o.placed.value.filled.value > 0.0
                                 && m == Signed(SideOf(step), o.placed.value.filled.value))
            && (o.Failed? && !IsOutcomeUnknown(o.err) ==> m == 0.0)
  {
    hide Market, SymbolOf;
    var c := Place(SymbolOf(step), SideOf(step), SizeOf(step).qty, false);
    assert Admissible(w, c, env(w, c));
    NetOfAppend(w.log, Event(i, false, c, env(w, c)), i, MarketOf(step));
  }

  lemma NoEventsNoNet(log: seq<Event>, k: nat, market: string)
    requires forall e :: 0 <= e < |log| ==> log[e].step != k
    ensures NetOf(log, k, market) == 0.0
  {
    NetOfUnmoved(log, 0, k, market);
  }

  lemma OtherStepsKeepNet(w: World, w': World, i: nat, k: nat, market: string)
    requires StepEvents(w, w', i) && k != i
    ensures NetOf(w'.log, k, market) == NetOf(w.log, k, market)
  {
    NetOfUnmoved(w'.log, |w.log|, k, market);
  }

  lemma LedgerAppend(steps: seq<PlanStep>, run: Run, i: nat, w: World, p: Option<PlacedOrder>, status: Status,
      code: Option<ResultCode>)
    requires DistinctIds(steps) && i < |steps| && Running(steps, run, i) && Ledger(steps, run, i)
             && StepEvents(run.w, w, i)
    requires steps[i].action == MarketOrder ==>
               if status == Success then p.Some? && p.value.filled.Some? && p.value.filled.value > 0.0
                                           && NetOf(w.log, i, MarketOf(steps[i]))
                                              == Signed(SideOf(steps[i]), p.value.filled.value)
               else NetOf(w.log, i, MarketOf(steps[i])) == 0.0
    ensures Ledger(steps, Record(run.(w := w, placed := Place1(run.placed, steps[i].id, p)), steps[i], status, code),
                   i + 1)
  {
    hide Market, SymbolOf;
    var run' := Record(run.(w := w, placed := Place1(run.placed, steps[i].id, p)), steps[i], status, code);
    forall k | 0 <= k < |w.log| ensures w.log[k].step < i + 1 && !w.log[k].undo {
      if k < |run.w.log| { assert w.log[k] == w.log[..|run.w.log|][k]; }
    }
    forall k | 0 <= k < i + 1 && steps[k].action == MarketOrder ensures MarketStepHolds(steps, run', k) {
      if k < i {
        assert MarketStepHolds(steps, run, k);
        OtherStepsKeepNet(run.w, w, i, k, MarketOf(steps[k]));
        assert run'.results[k] == run.results[k] && steps[k].id != steps[i].id;
      }
    }
  }

  lemma AdvanceKeepsLedger(env: Env, steps: seq<PlanStep>, run: Run, i: nat)
    requires Honest(env) && DistinctIds(steps) && i < |steps| && Running(steps, run, i) && Ledger(steps, run, i)
    requires Advance(env, steps, false, run, i).Continue?
    ensures Ledger(steps, Advance(env, steps, false, run, i).run, i + 1)
  {
    hide ExecuteStep, Running, Ledger, Market, SymbolOf, RollbackSteps;
    var step := steps[i];
    assert NetOf(run.w.log, i, MarketOf(step)) == 0.0 by { LedgerFresh(steps, run, i); }
    if !DependencyMet(run, step) {
      LedgerAppend(steps, run, i, run.w, None, Skipped, Some(DEPENDENCY_FAILED));
    } else {
      var (w1, o) := ExecuteStep(env, run.w, i, step);
      ExecuteStepEvents(env, run.w, i, step);
      if step.action == MarketOrder { MarketStepNet(env, run.w, i, step); }
      if o.Succeeded? {
        LedgerAppend(steps, run, i, w1, o.placed, Success, None);
      } else {
        LedgerAppend(steps, run, i, w1, None, Skipped, Some(STEP_FAILED));
      }
    }
  }

  lemma LedgerFresh(steps: seq<PlanStep>, run: Run, i: nat)
    requires i < |steps| && Ledger(steps, run, i)
    ensures NetOf(run.w.log, i, MarketOf(steps[i])) == 0.0
  {
    NoEventsNoNet(run.w.log, i, MarketOf(steps[i]));
  }

  // ── One reversal ──

  /** The reversal of a measured fill `q`: marked rolled back, it moved the step's net back by
      `closed`, and what it left of the floored fill is within CloseDone; left alone, the fill was
      below one unit of the step's decimals and nothing was sent. */
  lemma ReverseNet(env: Env, w: World, i: nat, order: PlacedOrder) returns (closed: real)
    requires Honest(env) && order.filled.Some?
    ensures var (w', v) := Reverse(env, w, i, order);
            var z := FillSize(order.filled.value, order.decimals);
            && (v.LeaveAlone? ==> w' == w && !(z > 0.0))
            && (v.MarkRolledBack? ==>
                  && closed > 0.0 && z > 0.0
                  && NetOf(w'.log, i, Market(order.symbol))
                     == NetOf(w.log, i, Market(order.symbol)) - Signed(order.side, closed)
                  && CloseDone(closed, z, OpenFor(Opposite(order.side), Pos(w', order.symbol)), order.decimals))
            && !v.MarkCancelled?
  {
    hide Market, FillSize, ClosePerp;
    closed := 0.0;
    var z := FillSize(order.filled.value, order.decimals);
    if z > 0.0 {
      var m := ClosePerpEffect(env, w, i, true, order.symbol, Opposite(order.side), z, order.decimals);
      var c := ClosePerp(env, w, i, true, order.symbol, Opposite(order.side), z, order.decimals).1;
      if c.Closed? { closed := c.closed; }
    }
  }

  // ── The whole rollback ──

  lemma {:induction false} RollbackSplit(env: Env, u: Undo, placed: map<string, PlacedOrder>, skip: Option<string>,
      idxs: seq<nat>, k: nat)
    requires InRange(idxs, |u.results|) && k <= |idxs|
    ensures InRange(idxs[k..], |u.results|) && InRange(idxs[..k], |u.results|)
    ensures RollbackSteps(env, u, placed, skip, idxs)
            == RollbackSteps(env, RollbackSteps(env, u, placed, skip, idxs[k..]), placed, skip, idxs[..k])
    decreases |idxs|
  {
    hide ReverseStep;
    var n := |idxs| - 1;
    if k == |idxs| {
      assert idxs[..k] == idxs;
    } else {
      var u1 := ReverseStep(env, u, placed, skip, idxs[n]);
      ReverseStepSize(env, u, placed, skip, idxs[n]);
      RollbackSplit(env, u1, placed, skip, idxs[..n], k);
      assert idxs[..n][k..] == idxs[k..][..n - k] && idxs[..n][..k] == idxs[..k] && idxs[k..][n - k] == idxs[n];
    }
  }

  lemma ReverseStepSize(env: Env, u: Undo, placed: map<string, PlacedOrder>, skip: Option<string>, i: nat)
    requires i < |u.results|
    ensures |ReverseStep(env, u, placed, skip, i).results| == |u.results|
  {
  }

  /** The state when the rollback has just dealt with idxs[t] and everything newer. */
  function StateAfter(env: Env, u: Undo, placed: map<string, PlacedOrder>, skip: Option<string>, idxs: seq<nat>,
      t: nat): Undo
    requires t <= |idxs| && InRange(idxs, |u.results|)
  {
    RollbackSteps(env, u, placed, skip, idxs[t..])
  }

  lemma ReversibleSlice(steps: seq<PlanStep>, u: Undo, placed: map<string, PlacedOrder>, idxs: seq<nat>, t: nat)
    requires Reversible(steps, u, placed, idxs) && t <= |idxs|
    ensures Reversible(steps, u, placed, idxs[t..]) && Reversible(steps, u, placed, idxs[..t])
  {
    hide PlacedFor;
  }

  /** What the rollback does to the steps outside `idxs`: nothing. */
  lemma RollbackLeavesOthers(env: Env, steps: seq<PlanStep>, u: Undo, placed: map<string, PlacedOrder>,
      skip: Option<string>, idxs: seq<nat>, k: nat, market: string)
    requires Honest(env) && Reversible(steps, u, placed, idxs) && k !in idxs
    ensures var u' := RollbackSteps(env, u, placed, skip, idxs);
            NetOf(u'.w.log, k, market) == NetOf(u.w.log, k, market)
              && (k < |u.results| ==> u'.results[k] == u.results[k])
    decreases |idxs|
  {
    hide SymbolOf, Market, PlacedFor, Actionable;
    RollbackCalls(env, steps, u, placed, skip, idxs);
    var u' := RollbackSteps(env, u, placed, skip, idxs);
    NetOfUnmoved(u'.w.log, |u.w.log|, k, market);
    RollbackKeepsResult(env, u, placed, skip, idxs, k);
  }

  lemma {:induction false} RollbackKeepsResult(env: Env, u: Undo, placed: map<string, PlacedOrder>,
      skip: Option<string>, idxs: seq<nat>, k: nat)
    requires InRange(idxs, |u.results|) && k !in idxs
    ensures k < |u.results| ==> RollbackSteps(env, u, placed, skip, idxs).results[k] == u.results[k]
    decreases |idxs|
  {
    if idxs != [] {
      var n := |idxs| - 1;
      assert idxs[n] in idxs;
      RollbackKeepsResult(env, ReverseStep(env, u, placed, skip, idxs[n]), placed, skip, idxs[..n], k);
    }
  }

  /** How the rollback (of every symbol) left market step idxs[t], whose measured fill was `q`:
      either the fill was below one unit of the step's decimals and it is all still there, or it
      was reversed by `closed`, which falls short of the floored fill by no more than CloseDone
      says of the position at that moment. */
  ghost predicate MarketUndone(env: Env, steps: seq<PlanStep>, u: Undo, placed: map<string, PlacedOrder>,
      idxs: seq<nat>, t: nat, final: Undo, closed: real)
    requires t < |idxs| && InRange(idxs, |u.results|) && InRange(idxs, |final.results|) && InRange(idxs, |steps|)
  {
    var k := idxs[t];
    steps[k].id in placed && placed[steps[k].id].filled.Some? &&
    var o := placed[steps[k].id];
    var q := o.filled.value;
    var z := FillSize(q, o.decimals);
    || (final.results[k].status == Success && !(z > 0.0) && StepNet(steps, final.w.log, k) == Signed(o.side, q))
    || (final.results[k].status == RolledBack && closed > 0.0 && z > 0.0
        && StepNet(steps, final.w.log, k) == Signed(o.side, q - closed)
        && CloseDone(closed, z, OpenFor(Opposite(o.side), Pos(StateAfter(env, u, placed, None, idxs, t).w, o.symbol)),
                     o.decimals))
  }

  /** A resting order was cancelled by its own id, and the venue confirmed it. */
  ghost predicate RestingUndone(steps: seq<PlanStep>, placed: map<string, PlacedOrder>, log: seq<Event>, final: Undo,
      k: nat)
    requires k < |steps| && k < |final.results|
  {
    steps[k].id in placed && placed[steps[k].id].orderId.Some? && final.results[k].status == Cancelled &&
    exists e :: 0 <= e < |log| && log[e].step == k && log[e].undo && !log[e].reply.Threw?
                && log[e].call == Cancel(SymbolOf(steps[k]), placed[steps[k].id].orderId.value)
  }

  lemma {:induction false} MarketStepUndone(env: Env, steps: seq<PlanStep>, u: Undo, placed: map<string, PlacedOrder>,
      idxs: seq<nat>, t: nat) returns (closed: real)
    requires Honest(env) && Reversible(steps, u, placed, idxs) && t < |idxs|
    requires steps[idxs[t]].action == MarketOrder && steps[idxs[t]].id in placed
    requires var o := placed[steps[idxs[t]].id];
             o.filled.Some? && StepNet(steps, u.w.log, idxs[t]) == Signed(o.side, o.filled.value)
    requires RollbackSteps(env, u, placed, None, idxs).results[idxs[t]].status != RollbackFailed
    ensures MarketUndone(env, steps, u, placed, idxs, t, RollbackSteps(env, u, placed, None, idxs), closed)
  {
    hide Reverse, Market, FillSize, RollbackSteps, ClosePerp, Upper;
    var k := idxs[t];
    var o := placed[steps[k].id];
    var before, final := RollbackBefore(env, steps, u, placed, idxs, t);
    var (w1, v) := Reverse(env, before.w, k, o);
    closed := ReverseNet(env, before.w, k, o);
  }

  /** The rollback around one member: what came before left the step alone, its own reversal is one
      ReverseStep, and what comes after leaves the step alone. */
  lemma {:induction false} RollbackBefore(env: Env, steps: seq<PlanStep>, u: Undo, placed: map<string, PlacedOrder>,
      idxs: seq<nat>, t: nat) returns (before: Undo, final: Undo)
    requires Honest(env) && Reversible(steps, u, placed, idxs) && t < |idxs|
    ensures final == RollbackSteps(env, u, placed, None, idxs) && |before.results| == |u.results|
    ensures before == StateAfter(env, u, placed, None, idxs, t + 1)
    ensures before.results[idxs[t]] == u.results[idxs[t]]
            && StepNet(steps, before.w.log, idxs[t]) == StepNet(steps, u.w.log, idxs[t])
    ensures var after := ReverseStep(env, before, placed, None, idxs[t]);
            && after == StateAfter(env, u, placed, None, idxs, t)
            && final.results[idxs[t]] == after.results[idxs[t]]
               && StepNet(steps, final.w.log, idxs[t]) == StepNet(steps, after.w.log, idxs[t])
            && |after.w.log| <= |final.w.log| && final.w.log[..|after.w.log|] == after.w.log
  {
    hide ReverseStep, Market, SymbolOf, PlacedFor;
    var k := idxs[t];
    RollbackSplit(env, u, placed, None, idxs, t + 1);
    RollbackSplit(env, u, placed, None, idxs, t);
    RollbackSplit(env, u, placed, None, idxs[t..], 1);
    assert idxs[t..][1..] == idxs[t + 1..] && idxs[t..][..1] == [k];
    before := RollbackSteps(env, u, placed, None, idxs[t + 1..]);
    var after := RollbackSteps(env, u, placed, None, idxs[t..]);
    final := RollbackSteps(env, u, placed, None, idxs);
    OneStep(env, before, placed, k);
    ReversibleSlice(steps, u, placed, idxs, t + 1);
    RollbackLeavesOthers(env, steps, u, placed, None, idxs[t + 1..], k, MarketOf(steps[k]));
    ReversibleAfter(env, steps, u, placed, idxs, t);
    RollbackLeavesOthers(env, steps, after, placed, None, idxs[..t], k, MarketOf(steps[k]));
    RollbackCalls(env, steps, after, placed, None, idxs[..t]);
  }

  lemma OneStep(env: Env, u: Undo, placed: map<string, PlacedOrder>, k: nat)
    requires k < |u.results|
    ensures RollbackSteps(env, u, placed, None, [k]) == ReverseStep(env, u, placed, None, k)
  {
    hide ReverseStep;
    assert [k][..0] == [];
    assert RollbackSteps(env, ReverseStep(env, u, placed, None, k), placed, None, [])
           == ReverseStep(env, u, placed, None, k);
  }

  lemma ReversibleAfter(env: Env, steps: seq<PlanStep>, u: Undo, placed: map<string, PlacedOrder>, idxs: seq<nat>,
      t: nat)
    requires Reversible(steps, u, placed, idxs) && t <= |idxs|
    ensures InRange(idxs[t..], |u.results|)
            && Reversible(steps, RollbackSteps(env, u, placed, None, idxs[t..]), placed, idxs[..t])
  {
    hide PlacedFor, RollbackSteps;
    ReversibleSlice(steps, u, placed, idxs, t);
    var after := RollbackSteps(env, u, placed, None, idxs[t..]);
    forall k | 0 <= k < |u.results| && k !in idxs[t..] ensures after.results[k] == u.results[k] {
      RollbackKeepsResult(env, u, placed, None, idxs[t..], k);
    }
    forall i | 0 <= i < t ensures after.results[idxs[i]] == u.results[idxs[i]] {
      assert idxs[i] !in idxs[t..];
    }
    RollbackKeepsSteps(env, steps, u, placed, idxs[t..]);
  }

  lemma {:induction false} RollbackKeepsSteps(env: Env, steps: seq<PlanStep>, u: Undo, placed: map<string, PlacedOrder>,
      idxs: seq<nat>)
    requires InRange(idxs, |u.results|) && |u.results| <= |steps| && forall k :: 0 <= k < |u.results| ==>
             SameStep(u.results[k], steps[k])
    ensures var u' := RollbackSteps(env, u, placed, None, idxs);
            forall k :: 0 <= k < |u.results| ==> SameStep(u'.results[k], steps[k])
    decreases |idxs|
  {
    hide Reverse;
    if idxs != [] {
      RollbackKeepsSteps(env, steps, ReverseStep(env, u, placed, None, idxs[|idxs| - 1]), placed, idxs[..|idxs| - 1]);
    }
  }

  lemma ReverseResting(env: Env, w: World, i: nat, order: PlacedOrder)
    requires order.filled.None?
    ensures var (w', v) := Reverse(env, w, i, order);
            v.MarkFailed? || (v.MarkCancelled? && order.orderId.Some? &&
              var c := Cancel(order.symbol, order.orderId.value);
              !env(w, c).Threw? && w'.log == w.log + [Event(i, true, c, env(w, c))])
  {
  }

  lemma ReverseRestingStep(env: Env, u: Undo, placed: map<string, PlacedOrder>, k: nat)
    requires k < |u.results| && u.results[k].stepId in placed && placed[u.results[k].stepId].filled.None?
    ensures var after := ReverseStep(env, u, placed, None, k);
            var o := placed[u.results[k].stepId];
            after.results[k].status == RollbackFailed || (after.results[k].status == Cancelled && o.orderId.Some? &&
              var c := Cancel(o.symbol, o.orderId.value);
              !env(u.w, c).Threw? && after.w.log == u.w.log + [Event(k, true, c, env(u.w, c))])
  {
    hide Reverse, Market;
    ReverseResting(env, u.w, k, placed[u.results[k].stepId]);
  }

  lemma RestingStepUndone(env: Env, steps: seq<PlanStep>, u: Undo, placed: map<string, PlacedOrder>, idxs: seq<nat>,
      t: nat)
    requires Honest(env) && Reversible(steps, u, placed, idxs) && t < |idxs|
    requires steps[idxs[t]].action in {LimitOrder, StopOrder} && steps[idxs[t]].id in placed
    requires RollbackSteps(env, u, placed, None, idxs).results[idxs[t]].status != RollbackFailed
    ensures var final := RollbackSteps(env, u, placed, None, idxs);
            RestingUndone(steps, placed, final.w.log, final, idxs[t])
  {
    hide ReverseStep, RollbackSteps, SymbolOf, Market, StepNet;
    var k := idxs[t];
    assert PlacedFor(placed[steps[k].id], steps[k]) && SameStep(u.results[k], steps[k]);
    var before, final := RollbackBefore(env, steps, u, placed, idxs, t);
    ReverseRestingStep(env, before, placed, k);
    var after, e := ReverseStep(env, before, placed, None, k), |before.w.log|;
    assert final.w.log[e] == final.w.log[..|after.w.log|][e] == after.w.log[e];
  }

  // ── Whole runs ──

  /** The run at the moment its last step failed, `run.w` including that step's own calls. */
  ghost predicate FailedAt(steps: seq<PlanStep>, run: Run, i: nat) {
    && i < |steps| && Running(steps, run, i)
    && (forall k :: 0 <= k < |run.w.log| ==> run.w.log[k].step <= i && !run.w.log[k].undo)
    && (forall k :: 0 <= k < i && steps[k].action == MarketOrder ==> MarketStepHolds(steps, run, k))
    && (steps[i].action == MarketOrder ==> StepNet(steps, run.w.log, i) == 0.0)
  }

  lemma FailedStepHoldsNothing(env: Env, steps: seq<PlanStep>, run: Run, i: nat)
    requires Honest(env) && DistinctIds(steps) && i < |steps| && Running(steps, run, i) && Ledger(steps, run, i)
    requires var o := ExecuteStep(env, run.w, i, steps[i]).1;
             o.Failed? && !(steps[i].action in ORDER_ACTIONS && IsOutcomeUnknown(o.err))
    ensures FailedAt(steps, run.(w := ExecuteStep(env, run.w, i, steps[i]).0), i)
  {
    hide ExecuteStep, Running, Market, SymbolOf;
    var step := steps[i];
    var w1 := ExecuteStep(env, run.w, i, step).0;
    LedgerFresh(steps, run, i);
    ExecuteStepEvents(env, run.w, i, step);
    if step.action == MarketOrder { MarketStepNet(env, run.w, i, step); }
    LedgerAppend(steps, run, i, w1, None, Skipped, Some(STEP_FAILED));
    var run' := Record(run.(w := w1, placed := Place1(run.placed, step.id, None)), step, Skipped, Some(STEP_FAILED));
    forall k | 0 <= k < i && steps[k].action == MarketOrder ensures MarketStepHolds(steps, run.(w := w1), k) {
      assert MarketStepHolds(steps, run', k);
    }
    RunningIgnoresWorld(steps, run, i, w1);
    forall k | 0 <= k < |w1.log| ensures w1.log[k].step <= i && !w1.log[k].undo { assert run'.w.log[k].step < i + 1; }
  }

  lemma RunningIgnoresWorld(steps: seq<PlanStep>, run: Run, i: nat, w: World)
    requires Running(steps, run, i)
    ensures Running(steps, run.(w := w), i)
  {
  }

  lemma RunningLength(steps: seq<PlanStep>, run: Run, i: nat)
    requires Running(steps, run, i)
    ensures |run.results| == i
  {
  }

  /** `final` is the rollback of `run`, and no step of it is left rollback_failed. */
  ghost predicate CleanRollback(env: Env, steps: seq<PlanStep>, run: Run, i: nat, final: Undo) {
    && FailedAt(steps, run, i) && |final.results| == i
    && final == RollbackSteps(env, UndoOf(run), run.placed, None, Successes(run.results))
    && forall k :: 0 <= k < i ==> final.results[k].status != RollbackFailed
  }

  lemma CleanSize(env: Env, steps: seq<PlanStep>, run: Run, i: nat, final: Undo)
    requires CleanRollback(env, steps, run, i, final)
    ensures i < |steps| && |run.results| == i && |final.results| == i && InRange(Successes(run.results), i)
  {
  }

  lemma MarketStepUndoneAt(env: Env, steps: seq<PlanStep>, run: Run, i: nat, final: Undo, t: nat) returns (closed: real)
    requires Honest(env) && CleanRollback(env, steps, run, i, final)
    requires t < |Successes(run.results)| && steps[Successes(run.results)[t]].action == MarketOrder
    ensures MarketUndone(env, steps, UndoOf(run), run.placed, Successes(run.results), t, final, closed)
  {
    hide RollbackSteps, SymbolOf, Market, MarketUndone, PlacedFor, Exposed;
    var k := Successes(run.results)[t];
    RunningIsReversible(steps, run, i);
    assert MarketStepHolds(steps, run, k);
    OwnPlacement(steps, run, i, k);
    closed := MarketStepUndone(env, steps, UndoOf(run), run.placed, Successes(run.results), t);
  }

  lemma MarketStepsUndone(env: Env, steps: seq<PlanStep>, run: Run, i: nat, final: Undo) returns (closed: seq<real>)
    requires Honest(env) && CleanRollback(env, steps, run, i, final)
    ensures var idxs := Successes(run.results);
            |closed| == |idxs| && forall t :: 0 <= t < |idxs| && steps[idxs[t]].action == MarketOrder ==>
              MarketUndone(env, steps, UndoOf(run), run.placed, idxs, t, final, closed[t])
  {
    hide CleanRollback, MarketUndone, Successes;
    CleanSize(env, steps, run, i, final);
    var idxs := Successes(run.results);
    closed := [];
    while |closed| < |idxs|
      invariant |closed| <= |idxs|
      invariant forall t :: 0 <= t < |closed| && steps[idxs[t]].action == MarketOrder ==>
        MarketUndone(env, steps, UndoOf(run), run.placed, idxs, t, final, closed[t])
    {
      var c := 0.0;
      if steps[idxs[|closed|]].action == MarketOrder { c := MarketStepUndoneAt(env, steps, run, i, final, |closed|); }
      closed := closed + [c];
    }
  }

  lemma UnfilledStepsNetZero(env: Env, steps: seq<PlanStep>, run: Run, i: nat, final: Undo, k: nat)
    requires Honest(env) && CleanRollback(env, steps, run, i, final)
    requires k <= i && steps[k].action == MarketOrder && k !in Successes(run.results)
    ensures StepNet(steps, final.w.log, k) == 0.0
  {
    hide RollbackSteps, SymbolOf, Market, PlacedFor, Exposed;
    RunningIsReversible(steps, run, i);
    RollbackLeavesOthers(env, steps, UndoOf(run), run.placed, None, Successes(run.results), k, MarketOf(steps[k]));
    if k < i { assert MarketStepHolds(steps, run, k); }
  }

  lemma RestingOrdersUndone(env: Env, steps: seq<PlanStep>, run: Run, i: nat, final: Undo, t: nat)
    requires Honest(env) && CleanRollback(env, steps, run, i, final)
    requires t < |Successes(run.results)| && steps[Successes(run.results)[t]].action in {LimitOrder, StopOrder}
    ensures RestingUndone(steps, run.placed, final.w.log, final, Successes(run.results)[t])
  {
    hide RollbackSteps, SymbolOf, RestingUndone, PlacedFor, Exposed;
    RunningIsReversible(steps, run, i);
    OwnPlacement(steps, run, i, Successes(run.results)[t]);
    RestingStepUndone(env, steps, UndoOf(run), run.placed, Successes(run.results), t);
  }

  lemma OwnPlacement(steps: seq<PlanStep>, run: Run, i: nat, k: nat)
    requires i <= |steps| && Running(steps, run, i) && k < i && run.results[k].status == Success
             && steps[k].action in RESTABLE
    ensures steps[k].id in run.placed && PlacedFor(run.placed[steps[k].id], steps[k])
    ensures run.placed[steps[k].id].side == SideOf(steps[k])
  {
  }

  // ── When nothing at all is left ──

  /** A liquid venue: every reduce-only order closes as much of the position as it asks for, is
      refused only when there is none to close, and position reads do not fail. */
  ghost predicate FillsInFull(env: Env) {
    && (forall w: World, sym: string, side: Side, size: real :: size > 0.0 ==>
          var r := env(w, Place(sym, side, size, true));
          if OpenFor(side, Pos(w, sym)) > 0.0 then r == Filled(Min(size, OpenFor(side, Pos(w, sym)))) else r.Threw?)
    && (forall w: World, sym: string :: env(w, ReadNet(sym)) == Net(Pos(w, sym)))
  }

  /** Even then a reversal marked rolled back undoes its step if and only if the floored fill, cut
      to what the account still holds in that direction, is the fill itself: the fill lies on the
      step's decimal grid and the position was not already smaller than it. */
  lemma {:induction false} ReversalIsExact(env: Env, w: World, i: nat, order: PlacedOrder)
    requires Honest(env) && FillsInFull(env) && order.filled.Some? && order.filled.value > 0.0
    ensures var (w', v) := Reverse(env, w, i, order);
            var q := order.filled.value;
            (v.MarkRolledBack?
             && NetOf(w'.log, i, Market(order.symbol)) == NetOf(w.log, i, Market(order.symbol)) - Signed(order.side, q))
            <==> Min(FillSize(q, order.decimals), OpenFor(Opposite(order.side), Pos(w, order.symbol))) == q
  {
    hide FillSize, Market, ClosePerp;
    var z, open := FillSize(order.filled.value, order.decimals), OpenFor(Opposite(order.side), Pos(w, order.symbol));
    if z > 0.0 {
      var closed := ReverseNet(env, w, i, order);
      FullClose(env, w, i, order.symbol, Opposite(order.side), z, order.decimals);
    }
  }

  /** On a liquid venue a close takes the smaller of what was asked and what is open, and reports
      no residual unless there was nothing to close. */
  lemma FullClose(env: Env, w: World, i: nat, symbol: string, side: Side, z: real, dec: nat)
    requires Honest(env) && FillsInFull(env) && z > 0.0
    ensures var (w', c) := ClosePerp(env, w, i, true, symbol, side, z, dec);
            var open := OpenFor(side, Pos(w, symbol));
            if open > 0.0 then
              c == Closed(Min(z, open), 0.0, false)
              && NetOf(w'.log, i, Market(symbol)) == NetOf(w.log, i, Market(symbol)) + Signed(side, Min(z, open))
            else c.CloseThrew?
  {
    hide FillSize, Market, ResidualClose, NetOf;
    var open := OpenFor(side, Pos(w, symbol));
    var place := Place(symbol, side, z, true);
    SendClosing(env, w, i, true, symbol, side, place);
    if open > 0.0 {
      var w1 := Send(env, w, i, true, place).0;
      assert Pos(w1, symbol) == Pos(w, symbol) + Signed(side, Min(z, open));
      if !FilledInFull(Min(z, open), z) {
        assert Min(z, open) == open && OpenFor(side, Pos(w1, symbol)) == 0.0;
        NoResidual(z - open, dec);
        SendClosing(env, w1, i, true, symbol, side, ReadNet(symbol));
      }
    } else {
      assert env(w, place).Threw?;
    }
  }

  lemma NoResidual(left: real, dec: nat)
    requires left >= 0.0
    ensures FillSize(Min(left, 0.0), dec) == 0.0
  {
    assert Min(left, 0.0) == 0.0;
    assert 0.0 * Pow10(dec) == 0.0;
    assert (0.0 * Pow10(dec) + 0.000000001).Floor == 0;
  }

  /** 0.8 bought on a size typed without decimals is below one unit: the rollback sends nothing,
      marks nothing and quarantines nothing. */
  lemma FillBelowOneUnitStays(env: Env, w: World, i: nat, symbol: string)
    ensures Reverse(env, w, i, PlacedOrder(symbol, Buy, Some(0.8), 0, None)) == (w, LeaveAlone)
  {
    assert Pow10(0) == 1.0;
    assert (0.8 * Pow10(0) + 0.000000001).Floor == 0;
  }

  /** Buying 0.5 against a short of 0.3 leaves a long of 0.2. The reversal closes those 0.2, finds
      the account flat, and is marked rolled back: 0.3 of the step stays. */
  lemma ReversalOfAFlipIsPartial(env: Env, w: World, i: nat, symbol: string)
    requires Honest(env) && FillsInFull(env) && Pos(w, symbol) == 0.2
    ensures var (w', v) := Reverse(env, w, i, PlacedOrder(symbol, Buy, Some(0.5), 1, None));
            v.MarkRolledBack? && NetOf(w'.log, i, Market(symbol)) == NetOf(w.log, i, Market(symbol)) - 0.2
  {
    hide Market, ClosePerp;
    assert Pow10(1) == 10.0 * Pow10(0) == 10.0 && Unit(1) == Unit(0) / 10.0 == 0.1;
    assert (0.5 * Pow10(1) + 0.000000001).Floor == 5;
    assert FillSize(0.5, 1) == 0.5;
    FullClose(env, w, i, symbol, Sell, 0.5, 1);
  }

  /** Net quantity all market_order steps of one market added. */
  function MarketTotal(steps: seq<PlanStep>, log: seq<Event>, market: string, n: nat): real
    requires n <= |steps|
  {
    if n == 0 then 0.0
    else MarketTotal(steps, log, market, n - 1)
         + (if steps[n - 1].action == MarketOrder && MarketOf(steps[n - 1]) == market then StepNet(steps, log, n - 1)
            else 0.0)
  }

  lemma {:induction false} ZeroStepsZeroMarket(steps: seq<PlanStep>, log: seq<Event>, market: string, n: nat)
    requires n <= |steps| && forall k ::
             0 <= k < n && steps[k].action == MarketOrder && MarketOf(steps[k]) == market ==>
               StepNet(steps, log, k) == 0.0
    ensures MarketTotal(steps, log, market, n) == 0.0
  {
    if n > 0 { ZeroStepsZeroMarket(steps, log, market, n - 1); }
  }
}
