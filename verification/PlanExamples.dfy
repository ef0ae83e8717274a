/** Concrete runs of accepted plans, for what PlanProperties, PlanIsolation and PlanLedger state exactly. */
module PlanExamples {
  import opened Prelude
  import opened Errors
  import opened Venue
  import opened PlanExecutor
  import opened PlanProperties
  import opened PlanLedger
  import opened PlanIsolation
  import opened RollbackExactness

  function StepOn(id: string, action: Action, symbol: string, policy: Policy, dependsOn: string): PlanStep {
    var params := Params(symbol, Some(Buy), Some(Size(1.0, 0)), false, false, "", false, false, 0.0, false, true);
    PlanStep(id, action, params, policy, dependsOn)
  }

  // ── Dependency cycles are accepted ──

  function CyclicPlan(): Plan {
    Plan("1.0", [StepOn("a", CheckBalance, "X", Abort, "b"), StepOn("b", CheckBalance, "X", Abort, "a"),
                 StepOn("c", CheckBalance, "X", Abort, "c")])
  }

  /** Two steps that wait for each other and one that waits for itself are an accepted plan. Nothing of
      it runs: the venue is not called, every step is skipped, and the plan is reported completed. */
  lemma CyclicPlanRunsNothing(env: Env, w: World)
    ensures ValidPlan(CyclicPlan()) && ExecutePlan(env, CyclicPlan().steps, false, true, w).Some?
    ensures var r := ExecutePlan(env, CyclicPlan().steps, false, true, w).value;
            && r.status == Completed && r.w == w && |r.steps| == 3
            && forall k :: 0 <= k < 3 ==> !Ran(r.steps[k])
  {
    hide ExecuteStep;
    var steps := CyclicPlan().steps;
    assert steps[0].id == "a" && steps[1].id == "b" && steps[2].id == "c";
    var r0 := Start(w);
    var r1 := Record(r0, steps[0], Skipped, Some(DEPENDENCY_FAILED));
    var r2 := Record(r1, steps[1], Skipped, Some(DEPENDENCY_FAILED));
    var r3 := Record(r2, steps[2], Skipped, Some(DEPENDENCY_FAILED));
    assert Advance(env, steps, false, r0, 0) == Continue(r1);
    assert Advance(env, steps, false, r1, 1) == Continue(r2);
    assert Advance(env, steps, false, r2, 2) == Continue(r3);
    assert ExecuteFrom(env, steps, false, r3, 3) == Finish(Completed, UndoOf(r3));
    assert ExecuteFrom(env, steps, false, r2, 2) == Finish(Completed, UndoOf(r3));
    assert ExecuteFrom(env, steps, false, r1, 1) == Finish(Completed, UndoOf(r3));
  }

  // ── A venue that fills only the orders named by their place in the log ──

  const UNKNOWN_OUTCOME: Reply := Threw(PerpError(ORDER_PENDING, None, Primitive), 0.0)

  /** An order filled takes 1, or the size or what a reduce-only order can close if that is less. */
  function Scripted(fills: set<nat>, w: World, c: Call): Reply {
    match c
    case Place(symbol, side, size, reduceOnly) =>
      var q := if reduceOnly then Min(Min(size, 1.0), OpenFor(side, Pos(w, symbol))) else Min(size, 1.0);
      if |w.log| in fills && q > 0.0 then Filled(q) else UNKNOWN_OUTCOME
    case Rest(_, _, _, _) => Rested(None, 0.0)
    case ReadNet(symbol) => Net(Pos(w, symbol))
    case FindPosition(symbol) => Found(if Pos(w, symbol) != 0.0 then Some(LivePosition(symbol, Pos(w, symbol), 0))
                                       else None)
    case ReadBalance(_) => Balance(0.0)
    case _ => Done
  }

  function ScriptedVenue(fills: set<nat>): Env {
    (w: World, c: Call) => Scripted(fills, w, c)
  }

  lemma ScriptedIsHonest(fills: set<nat>)
    ensures Honest(ScriptedVenue(fills))
  {
    hide Market;
    forall w: World, c: Call ensures Admissible(w, c, ScriptedVenue(fills)(w, c)) {}
  }

  lemma Symbols()
    ensures Upper("X") == "X" && Market("X") == "X" && Upper("BTC") == "BTC" && Market("BTC") == "BTC"
    ensures Upper("BTC-PERP") == "BTC-PERP" && Market("BTC-PERP") == "BTC"
  {
    assert "BTC-PERP"[..3] == "BTC" && "BTC-PERP"[3..] == "-PERP";
  }

  lemma OneUnit()
    ensures FillSize(1.0, 0) == 1.0 && !FilledInFull(1.0, 2.0) && FilledInFull(1.0, 1.0)
  {
    assert Pow10(0) == 1.0 && Unit(0) == 1.0;
    assert (1.0 * Pow10(0) + 0.000000001).Floor == 1;
  }

  // ── The residual close of a close_position is not isolated ──

  function ResidualPlan(): Plan {
    Plan("1.0", [StepOn("a", ClosePosition, "X", Skip, ""), StepOn("b", MarketOrder, "X", Abort, "")])
  }

  /** With 2 held, the close fills 1 and the outcome of its residual is unknown. The plan goes on, buys
      on the same symbol, completes, and quarantines nothing. */
  lemma UnknownResidualIsTradedOver()
    ensures var env, w0 := ScriptedVenue({1, 4}), World(map["X" := 2.0], []);
            && Runs(env, ResidualPlan(), true, w0)
            && var r := PlanRun(env, ResidualPlan(), true, w0);
               && r.status == Completed && r.quarantined == {} && |r.w.log| == 5
               && UnknownOrder(r.w.log[3]) && IsResidual(r.w.log, 3)
               && r.w.log[4] == Event(1, false, Place("X", Buy, 1.0, false), Filled(1.0))
  {
    hide ExecuteFrom, ValidPlan, Finish, UnknownOrder, Scripted;
    var env, w0, steps := ScriptedVenue({1, 4}), World(map["X" := 2.0], []), ResidualPlan().steps;
    ScriptedIsHonest({1, 4});
    ResidualPlanIsValid();
    var w4, w5, result := ResidualRun(env, w0);
    assert ExecuteFrom(env, steps, false, Start(w0), 0) == result;
    ThrownIsUnknown(w4.log[3]);
    assert w5.log[3] == w4.log[3] && w5.log[1] == w4.log[1];
    assert PlanRun(env, ResidualPlan(), true, w0) == result;
  }

  lemma ResidualPlanIsValid()
    ensures ValidPlan(ResidualPlan())
  {
  }

  lemma ResidualRun(env: Env, w0: World) returns (w4: World, w5: World, r: PlanResult)
    requires env == ScriptedVenue({1, 4}) && w0 == World(map["X" := 2.0], [])
    ensures ExecuteFrom(env, ResidualPlan().steps, false, Start(w0), 0) == r && r.w == w5
    ensures |w4.log| == 4 && w4.log[1].call.Place? && w4.log[1].step == 0
    ensures w4.log[3] == Event(0, false, Place("X", Sell, 1.0, true), UNKNOWN_OUTCOME)
    ensures w5.log == w4.log + [Event(1, false, Place("X", Buy, 1.0, false), Filled(1.0))]
    ensures r.status == Completed && r.quarantined == {}
  {
    hide ExecuteStep, Scripted, ResidualPlan;
    var steps := ResidualPlan().steps;
    assert steps == [StepOn("a", ClosePosition, "X", Skip, ""), StepOn("b", MarketOrder, "X", Abort, "")] by {
      ResidualSteps();
    }
    w4 := ResidualStep(env, w0, steps[0]);
    Symbols();
    var o;
    w5, o := BuyStep({1, 4}, w4, 1, steps[1]);
    var r1 := Record(Start(w0).(w := w4), steps[0], Skipped, Some(STEP_FAILED));
    assert Advance(env, steps, false, Start(w0), 0) == Continue(r1);
    var r2 := Record(r1.(w := w5, placed := Place1(r1.placed, "b", o.placed)), steps[1], Success, None);
    assert Advance(env, steps, false, r1, 1) == Continue(r2);
    r := Finish(Completed, UndoOf(r2));
    assert ExecuteFrom(env, steps, false, r2, 2) == r;
    assert ExecuteFrom(env, steps, false, r1, 1) == r;
  }

  lemma ResidualSteps()
    ensures ResidualPlan().steps
            == [StepOn("a", ClosePosition, "X", Skip, ""), StepOn("b", MarketOrder, "X", Abort, "")]
  {
  }

  lemma ThrownIsUnknown(e: Event)
    requires !e.undo && e.call.Place? && e.reply == UNKNOWN_OUTCOME
    ensures UnknownOrder(e)
  {
  }

  /** A market order of 1 that the venue fills, or whose outcome it does not tell. */
  lemma BuyStep(fills: set<nat>, w: World, i: nat, step: PlanStep) returns (w': World, o: StepOutcome)
    requires step.action == MarketOrder && step.params.side == Some(Buy) && step.params.size == Some(Size(1.0, 0))
    requires Upper(step.params.symbol) == step.params.symbol
    ensures ExecuteStep(ScriptedVenue(fills), w, i, step) == (w', o)
    ensures var symbol := step.params.symbol;
            && o == (if |w.log| in fills then Succeeded(Some(PlacedOrder(symbol, Buy, Some(1.0), 0, None)))
                     else Failed(UNKNOWN_OUTCOME.err))
            && (forall s: string :: Market(s) == Market(symbol) ==>
                Pos(w', s) == Pos(w, s) + if |w.log| in fills then 1.0 else 0.0)
            && w'.log == w.log + [Event(i, false, Place(symbol, Buy, 1.0, false),
                                        if |w.log| in fills then Filled(1.0) else UNKNOWN_OUTCOME)]
  {
    hide Market;
    var (x, y) := ExecuteStep(ScriptedVenue(fills), w, i, step);
    w', o := x, y;
  }

  /** Its reversal, likewise. */
  lemma SellBack(fills: set<nat>, w: World, i: nat, symbol: string) returns (w': World, v: Verdict)
    requires Pos(w, symbol) >= 1.0
    ensures Reverse(ScriptedVenue(fills), w, i, PlacedOrder(symbol, Buy, Some(1.0), 0, None)) == (w', v)
    ensures v == if |w.log| in fills then MarkRolledBack else MarkFailed(UNKNOWN_OUTCOME.err)
    ensures |w.log| !in fills ==> Pos(w', symbol) == Pos(w, symbol)
    ensures w'.log == w.log
            + [Event(i, true, Place(symbol, Sell, 1.0, true),
                     if |w.log| in fills then Filled(1.0) else UNKNOWN_OUTCOME)]
  {
    hide Market, FillSize, FilledInFull;
    OneUnit();
    var (x, y) := Reverse(ScriptedVenue(fills), w, i, PlacedOrder(symbol, Buy, Some(1.0), 0, None));
    w', v := x, y;
  }

  lemma ResidualStep(env: Env, w0: World, step: PlanStep) returns (w4: World)
    requires env == ScriptedVenue({1, 4}) && w0 == World(map["X" := 2.0], [])
             && step == StepOn("a", ClosePosition, "X", Skip, "")
    ensures ExecuteStep(env, w0, 0, step) == (w4, Failed(PerpError(ORDER_PARTIAL, None, Primitive)))
    ensures |w4.log| == 4 && w4.log[1].call.Place? && w4.log[1].step == 0
    ensures w4.log[3] == Event(0, false, Place("X", Sell, 1.0, true), UNKNOWN_OUTCOME)
  {
    Symbols();
    OneUnit();
    hide Market, FillSize, FilledInFull;
    var w1 := Send(env, w0, 0, false, FindPosition("X")).0;
    assert env(w0, FindPosition("X")) == Found(Some(LivePosition("X", 2.0, 0)));
    assert Pos(w1, "X") == 2.0 && env(w1, Place("X", Sell, 2.0, true)) == Filled(1.0);
    var w2 := Send(env, w1, 0, false, Place("X", Sell, 2.0, true)).0;
    assert Pos(w2, "X") == 1.0 && env(w2, ReadNet("X")) == Net(1.0);
    var w3 := Send(env, w2, 0, false, ReadNet("X")).0;
    assert env(w3, Place("X", Sell, 1.0, true)) == UNKNOWN_OUTCOME;
    w4 := Send(env, w3, 0, false, Place("X", Sell, 1.0, true)).0;
    assert ReadResidual(env, w2, 0, false, "X", Sell, 2.0, 1.0, 0) == (w3, Closed(1.0, 1.0, true));
    assert ResidualClose(env, w3, 0, false, "X", Sell, 2.0, 1.0, 1.0, 1.0, 0) == (w4, Closed(1.0, 1.0, true));
    assert ClosePerp(env, w1, 0, false, "X", Sell, 2.0, 0) == (w4, Closed(1.0, 1.0, true));
  }

  // ── "BTC" and "BTC-PERP" ──

  function TwoSpellings(): Plan {
    Plan("1.0", [StepOn("a", MarketOrder, "BTC-PERP", Abort, ""), StepOn("b", MarketOrder, "BTC", Rollback, "")])
  }

  /** An order on BTC with an unknown outcome: the plan is pending and BTC quarantined, yet the rollback
      trades on BTC's market, for the step that called it BTC-PERP. */
  lemma SpellingDefeatsIsolation()
    ensures var env, w0 := ScriptedVenue({0, 2}), World(map[], []);
            && Runs(env, TwoSpellings(), true, w0)
            && var r := PlanRun(env, TwoSpellings(), true, w0);
               && r.status == PlanPending && r.quarantined == {"BTC"} && |r.w.log| == 3
               && UnknownOrder(r.w.log[1]) && r.w.log[1].call == Place("BTC", Buy, 1.0, false)
               && r.w.log[2] == Event(0, true, Place("BTC-PERP", Sell, 1.0, true), Filled(1.0))
               && Market("BTC-PERP") == Market("BTC")
  {
    hide ExecuteFrom, ValidPlan, UnknownOrder, Scripted;
    var env, w0 := ScriptedVenue({0, 2}), World(map[], []);
    ScriptedIsHonest({0, 2});
    Symbols();
    SpellingsAreValid();
    var r := SpellingsRun(env, w0);
    ThrownIsUnknown(r.w.log[1]);
  }

  lemma SpellingsAreValid()
    ensures ValidPlan(TwoSpellings())
  {
  }

  predicate BuysOne(step: PlanStep) {
    && step.action == MarketOrder && step.params.side == Some(Buy) && step.params.size == Some(Size(1.0, 0))
    && Upper(step.params.symbol) == step.params.symbol && step.dependsOn == ""
  }

  function Bought(step: PlanStep): PlacedOrder {
    PlacedOrder(step.params.symbol, Buy, Some(1.0), 0, None)
  }

  lemma AdvanceBuys(fills: set<nat>, steps: seq<PlanStep>, run: Run, i: nat) returns (w': World, run': Run)
    requires i < |steps| && BuysOne(steps[i]) && |run.w.log| in fills
    ensures run' == Record(run.(w := w', placed := run.placed[steps[i].id := Bought(steps[i])]), steps[i], Success,
                           None)
    ensures Advance(ScriptedVenue(fills), steps, false, run, i) == Continue(run')
    ensures w'.log == run.w.log + [Event(i, false, Place(steps[i].params.symbol, Buy, 1.0, false), Filled(1.0))]
    ensures forall s: string :: Market(s) == Market(steps[i].params.symbol) ==> Pos(w', s) == Pos(run.w, s) + 1.0
  {
    hide ExecuteStep, Market, Upper, OnThrow;
    var o;
    w', o := BuyStep(fills, run.w, i, steps[i]);
    run' := Record(run.(w := w', placed := run.placed[steps[i].id := Bought(steps[i])]), steps[i], Success, None);
  }

  lemma SpellingsRun(env: Env, w0: World) returns (r: PlanResult)
    requires env == ScriptedVenue({0, 2}) && w0 == World(map[], [])
    ensures ExecuteFrom(env, TwoSpellings().steps, false, Start(w0), 0) == r
    ensures r.status == PlanPending && r.quarantined == {"BTC"} && |r.w.log| == 3
    ensures r.w.log[1] == Event(1, false, Place("BTC", Buy, 1.0, false), UNKNOWN_OUTCOME)
    ensures r.w.log[2] == Event(0, true, Place("BTC-PERP", Sell, 1.0, true), Filled(1.0))
  {
    hide Advance, Market, Scripted, Upper;
    var steps := TwoSpellings().steps;
    Symbols();
    var w1, r1 := AdvanceBuys({0, 2}, steps, Start(w0), 0);
    r := SpellingsStop(w1, r1);
    assert ExecuteFrom(env, steps, false, r1, 1) == r;
  }

  lemma SpellingsStop(w1: World, run: Run) returns (r: PlanResult)
    requires |w1.log| == 1 && Pos(w1, "BTC-PERP") == 1.0
    requires run == Run(w1, [StepView("a", MarketOrder, Success, None)], map["a" := Success],
                        map["a" := PlacedOrder("BTC-PERP", Buy, Some(1.0), 0, None)], {})
    ensures Advance(ScriptedVenue({0, 2}), TwoSpellings().steps, false, run, 1) == Stop(r)
    ensures r.status == PlanPending && r.quarantined == {"BTC"}
    ensures r.w.log == w1.log + [Event(1, false, Place("BTC", Buy, 1.0, false), UNKNOWN_OUTCOME),
                                 Event(0, true, Place("BTC-PERP", Sell, 1.0, true), Filled(1.0))]
  {
    hide ExecuteStep, Reverse, Market, Scripted, Upper, RollbackSteps, Successes;
    var env, step := ScriptedVenue({0, 2}), StepOn("b", MarketOrder, "BTC", Rollback, "");
    assert TwoSpellings().steps[1] == step;
    Symbols();
    var w2, o2 := BuyStep({0, 2}, w1, 1, step);
    var w3, v := SellBack({0, 2}, w2, 0, "BTC-PERP");
    var views := run.results + [StepView("b", MarketOrder, Pending, Some(OUTCOME_PENDING))];
    var u := Undo(w2, views, {"BTC"});
    assert run.quarantined + {Upper(SymbolOf(step))} == {"BTC"};
    OneSuccess(views);
    OneReversal(env, u, run.placed, Some("BTC"));
    r := Finish(PlanPending, ReverseStep(env, u, run.placed, Some("BTC"), 0));
    assert OnThrow(env, run.(w := w2), step, UNKNOWN_OUTCOME.err) == Stop(r);
  }

  lemma OneSuccess(views: seq<StepView>)
    requires |views| == 2 && views[0].status == Success && views[1].status != Success
    ensures Successes(views) == [0]
  {
    assert views == [views[0]] + [views[1]] && [views[0]][..0] == [];
    SuccessesAppend([views[0]], views[1]);
    assert Successes([views[0]][..0]) == [];
  }

  lemma OneReversal(env: Env, u: Undo, placed: map<string, PlacedOrder>, skip: Option<string>)
    requires u.results != []
    ensures RollbackSteps(env, u, placed, skip, [0]) == ReverseStep(env, u, placed, skip, 0)
  {
    hide ReverseStep;
    var one: seq<nat> := [0];
    assert one[..0] == [];
    assert RollbackSteps(env, ReverseStep(env, u, placed, skip, 0), placed, skip, [])
           == ReverseStep(env, u, placed, skip, 0);
  }

  // ── An unknown outcome during the rollback ──

  function TwoBuys(): Plan {
    Plan("1.0", [StepOn("a", MarketOrder, "X", Abort, ""), StepOn("b", MarketOrder, "X", Abort, ""),
                 StepOn("c", CheckPosition, "X", Rollback, "")])
  }

  /** The reversal of the newer buy has an unknown outcome: X is quarantined, and then traded again to
      reverse the older buy. */
  lemma UnknownReversalIsTradedOver()
    ensures var env, w0 := ScriptedVenue({0, 1, 4}), World(map[], []);
            && Runs(env, TwoBuys(), true, w0)
            && var r := PlanRun(env, TwoBuys(), true, w0);
               && r.status == Quarantined && r.quarantined == {"X"} && |r.w.log| == 5
               && r.w.log[3] == Event(1, true, Place("X", Sell, 1.0, true), UNKNOWN_OUTCOME)
               && r.w.log[4] == Event(0, true, Place("X", Sell, 1.0, true), Filled(1.0))
  {
    hide ExecuteFrom, ValidPlan, Scripted;
    var env, w0 := ScriptedVenue({0, 1, 4}), World(map[], []);
    ScriptedIsHonest({0, 1, 4});
    TwoBuysAreValid();
    var r := TwoBuysRun(env, w0);
  }

  lemma TwoBuysAreValid()
    ensures ValidPlan(TwoBuys())
  {
  }

  lemma TwoBuysRun(env: Env, w0: World) returns (r: PlanResult)
    requires env == ScriptedVenue({0, 1, 4}) && w0 == World(map[], [])
    ensures ExecuteFrom(env, TwoBuys().steps, false, Start(w0), 0) == r
    ensures r.status == Quarantined && r.quarantined == {"X"} && |r.w.log| == 5
    ensures r.w.log[3] == Event(1, true, Place("X", Sell, 1.0, true), UNKNOWN_OUTCOME)
    ensures r.w.log[4] == Event(0, true, Place("X", Sell, 1.0, true), Filled(1.0))
  {
    hide Advance, Market, Scripted, Upper;
    var steps := TwoBuys().steps;
    Symbols();
    var w1, r1 := AdvanceBuys({0, 1, 4}, steps, Start(w0), 0);
    var w2, r2 := AdvanceBuys({0, 1, 4}, steps, r1, 1);
    assert r2.results == [StepView("a", MarketOrder, Success, None), StepView("b", MarketOrder, Success, None)];
    r := TwoBuysStop(w2, r2);
    assert ExecuteFrom(env, steps, false, r2, 2) == r;
    assert ExecuteFrom(env, steps, false, r1, 1) == r;
  }

  lemma TwoBuysStop(w2: World, run: Run) returns (r: PlanResult)
    requires |w2.log| == 2 && Pos(w2, "X") == 2.0
    requires run.w == w2 && run.quarantined == {}
    requires run.results == [StepView("a", MarketOrder, Success, None), StepView("b", MarketOrder, Success, None)]
    requires run.placed == map["a" := PlacedOrder("X", Buy, Some(1.0), 0, None),
                               "b" := PlacedOrder("X", Buy, Some(1.0), 0, None)]
    ensures Advance(ScriptedVenue({0, 1, 4}), TwoBuys().steps, false, run, 2) == Stop(r)
    ensures r.status == Quarantined && r.quarantined == {"X"} && |r.w.log| == 5
    ensures r.w.log[3] == Event(1, true, Place("X", Sell, 1.0, true), UNKNOWN_OUTCOME)
    ensures r.w.log[4] == Event(0, true, Place("X", Sell, 1.0, true), Filled(1.0))
  {
    hide ExecuteStep, Reverse, Market, Scripted, Upper, RollbackSteps, Successes;
    var env, step := ScriptedVenue({0, 1, 4}), StepOn("c", CheckPosition, "X", Rollback, "");
    assert TwoBuys().steps[2] == step;
    Symbols();
    var w3 := CheckFails({0, 1, 4}, w2, step);
    var w4, v4 := SellBack({0, 1, 4}, w3, 1, "X");
    var w5, v5 := SellBack({0, 1, 4}, w4, 0, "X");
    var u := Undo(w3, run.results, {});
    TwoSuccesses(run.results);
    TwoReversals(env, u, run.placed);
    var u1 := ReverseStep(env, u, run.placed, None, 1);
    assert u1 == Undo(w4, run.results[1 := Mark(run.results[1], v4)], {"X"});
    assert ReverseStep(env, u1, run.placed, None, 0).w == w5;
    r := OnThrow(env, run.(w := w3), step, Untyped(Primitive)).result;
  }

  lemma CheckFails(fills: set<nat>, w: World, step: PlanStep) returns (w': World)
    requires step == StepOn("c", CheckPosition, "X", Rollback, "") && Pos(w, "X") != 0.0
    ensures ExecuteStep(ScriptedVenue(fills), w, 2, step) == (w', Failed(Untyped(Primitive)))
    ensures |w'.log| == |w.log| + 1 && Pos(w', "X") == Pos(w, "X")
  {
    hide Market;
    Symbols();
    w' := ExecuteStep(ScriptedVenue(fills), w, 2, step).0;
  }

  lemma TwoSuccesses(views: seq<StepView>)
    requires |views| == 2 && views[0].status == Success && views[1].status == Success
    ensures Successes(views) == [0, 1]
  {
    assert views[..1][..0] == [] && Successes(views[..1][..0]) == [];
    assert Successes(views[..1]) == [0];
  }

  lemma TwoReversals(env: Env, u: Undo, placed: map<string, PlacedOrder>)
    requires |u.results| == 2
    ensures RollbackSteps(env, u, placed, None, [0, 1])
            == ReverseStep(env, ReverseStep(env, u, placed, None, 1), placed, None, 0)
  {
    hide ReverseStep;
    var two: seq<nat> := [0, 1];
    ReverseStepSize(env, u, placed, None, 1);
    assert two[..1] == [0];
    OneReversal(env, ReverseStep(env, u, placed, None, 1), placed, None);
  }

  // ── A rollback that leaves something behind ──

  /** A venue that fills every order in full, as far as a reduce-only order can. */
  function Liquid(w: World, c: Call): Reply {
    match c
    case Place(symbol, side, size, reduceOnly) =>
      var q := if reduceOnly then Min(size, OpenFor(side, Pos(w, symbol))) else size;
      if q > 0.0 then Filled(q) else Threw(PerpError(ORDER_REJECTED, None, Primitive), 0.0)
    case Rest(_, _, _, _) => Rested(None, 0.0)
    case ReadNet(symbol) => Net(Pos(w, symbol))
    case FindPosition(symbol) => Found(if Pos(w, symbol) != 0.0 then Some(LivePosition(symbol, Pos(w, symbol), 0))
                                       else None)
    case ReadBalance(_) => Balance(0.0)
    case _ => Done
  }

  const LIQUID_VENUE: Env := (w: World, c: Call) => Liquid(w, c)

  lemma LiquidIsHonest()
    ensures Honest(LIQUID_VENUE) && FillsInFull(LIQUID_VENUE)
  {
    hide Market;
    forall w: World, c: Call ensures Admissible(w, c, LIQUID_VENUE(w, c)) {}
  }

  function FlipStep(): PlanStep {
    PlanStep("a", MarketOrder, StepOn("a", MarketOrder, "X", Abort, "").params.(size := Some(Size(0.5, 1))), Abort, "")
  }

  function FlipPlan(): Plan {
    Plan("1.0", [FlipStep(), StepOn("b", CheckPosition, "X", Rollback, "")])
  }

  /** Buying 0.5 against a short of 0.3, then rolling back, on a venue that fills everything: the step is
      marked rolled back, the plan ends failed with nothing quarantined, and 0.3 of the fill is still
      there. The account, short 0.3 before, is flat. */
  lemma RolledBackFlipLeavesPart()
    ensures var env, w0 := LIQUID_VENUE, World(map["X" := -0.3], []);
            && Runs(env, FlipPlan(), true, w0) && FillsInFull(env)
            && var r := PlanRun(env, FlipPlan(), true, w0);
               && EndsRolledBack(r) && |r.steps| == 2 && r.steps[0].status == RolledBack && r.quarantined == {}
               && StepNet(FlipPlan().steps, r.w.log, 0) == 0.3
               && Pos(w0, "X") == -0.3 && Pos(r.w, "X") == 0.0
  {
    hide ExecuteFrom, ValidPlan, Liquid, FillsInFull, NetOf;
    var env, w0 := LIQUID_VENUE, World(map["X" := -0.3], []);
    LiquidIsHonest();
    Symbols();
    FlipIsValid();
    var r := FlipRun(env, w0);
  }

  lemma FlipIsValid()
    ensures ValidPlan(FlipPlan())
  {
  }

  lemma FlipRun(env: Env, w0: World) returns (r: PlanResult)
    requires env == LIQUID_VENUE && w0 == World(map["X" := -0.3], [])
    ensures ExecuteFrom(env, FlipPlan().steps, false, Start(w0), 0) == r
    ensures r.status == PlanFailed && |r.steps| == 2 && r.steps[0].status == r.steps[1].status == RolledBack
            && r.quarantined == {}
    ensures NetOf(r.w.log, 0, "X") == 0.3 && Pos(r.w, "X") == 0.0
  {
    hide ExecuteStep, Market, Liquid, Upper, NetOf, Reverse, OnThrow;
    var steps, a, b := FlipPlan().steps, FlipStep(), StepOn("b", CheckPosition, "X", Rollback, "");
    Symbols();
    var w1, order := FlipFills(env, w0);
    var run := Record(Start(w0).(w := w1, placed := map["a" := order]), a, Success, None);
    assert Advance(env, steps, false, Start(w0), 0) == Continue(run);
    var w2 := FlipCheck(env, w1, b);
    r := FlipStops(env, w2, run, b);
    assert Advance(env, steps, false, run, 1) == Stop(r);
    assert ExecuteFrom(env, steps, false, run, 1) == r;
  }

  lemma FlipFills(env: Env, w0: World) returns (w1: World, order: PlacedOrder)
    requires env == LIQUID_VENUE && w0 == World(map["X" := -0.3], [])
    ensures ExecuteStep(env, w0, 0, FlipStep()) == (w1, Succeeded(Some(order)))
            && order == PlacedOrder("X", Buy, Some(0.5), 1, None)
    ensures Pos(w1, "X") == 0.2 && NetOf(w1.log, 0, "X") == 0.5
  {
    Symbols();
    hide Market;
    order := PlacedOrder("X", Buy, Some(0.5), 1, None);
    var c := Place("X", Buy, 0.5, false);
    w1 := Send(env, w0, 0, false, c).0;
    assert env(w0, c) == Filled(0.5);
    NetOfAppend(w0.log, Event(0, false, c, Filled(0.5)), 0, "X");
  }

  lemma FlipCheck(env: Env, w1: World, b: PlanStep) returns (w2: World)
    requires env == LIQUID_VENUE && Pos(w1, "X") == 0.2 && b == StepOn("b", CheckPosition, "X", Rollback, "")
    ensures ExecuteStep(env, w1, 1, b) == (w2, Failed(Untyped(Primitive)))
    ensures Pos(w2, "X") == 0.2 && NetOf(w2.log, 0, "X") == NetOf(w1.log, 0, "X")
  {
    Symbols();
    hide Market;
    var c := FindPosition("X");
    w2 := Send(env, w1, 1, false, c).0;
    NetOfAppend(w1.log, Event(1, false, c, env(w1, c)), 0, "X");
  }

  lemma FlipStops(env: Env, w2: World, run: Run, b: PlanStep) returns (r: PlanResult)
    requires env == LIQUID_VENUE && Pos(w2, "X") == 0.2 && NetOf(w2.log, 0, "X") == 0.5
    requires b == StepOn("b", CheckPosition, "X", Rollback, "")
    requires run.results == [StepView("a", MarketOrder, Success, None)] && run.quarantined == {}
    requires run.placed == map["a" := PlacedOrder("X", Buy, Some(0.5), 1, None)]
    ensures OnThrow(env, run.(w := w2), b, Untyped(Primitive)) == Stop(r)
    ensures r.status == PlanFailed && |r.steps| == 2 && r.steps[0].status == r.steps[1].status == RolledBack
            && r.quarantined == {}
    ensures NetOf(r.w.log, 0, "X") == 0.3 && Pos(r.w, "X") == 0.0
  {
    hide Market, Liquid, Upper, NetOf, Reverse, RollbackSteps, Successes, FillsInFull;
    LiquidIsHonest();
    Symbols();
    ReversalOfAFlipIsPartial(env, w2, 0, "X");
    ReverseMoves(env, w2, 0, run.placed["a"], "X");
    assert Successes(run.results) == [0] by { SuccessOfOne(run.results); }
    OneReversal(env, UndoOf(run.(w := w2)), run.placed, None);
    r := OnThrow(env, run.(w := w2), b, Untyped(Primitive)).result;
  }

  lemma SuccessOfOne(views: seq<StepView>)
    requires |views| == 1 && views[0].status == Success
    ensures Successes(views) == [0]
  {
    assert views[..0] == [] && Successes(views[..0]) == [];
  }
}
