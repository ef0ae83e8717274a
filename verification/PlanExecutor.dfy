/** src/plan-executor.ts: plan validation, the step machine and its rollback.

    Each effectful function has two forms here: the specification, a function of the venue and the
    state, and the method that runs like the source, over StepResult objects whose status the
    rollback overwrites in place. PlanProperties states what a run guarantees. */
module PlanExecutor {
  import opened Prelude
  import opened Errors
  import opened Venue

  datatype Action =
    | MarketOrder | LimitOrder | StopOrder | CancelOrder | CancelAllOrders | SetLeverageTo
    | ClosePosition | Wait | CheckBalance | CheckPosition | OtherAction(name: string)

  /** OtherPolicy is any other value: validatePlan refuses it, executePlan treats it as "abort". */
  datatype Policy = Unset | Abort | Skip | Rollback | OtherPolicy

  datatype Size = Size(qty: real, decimals: nat)

  /** Typed reading of `params`; "" , None and false are the falsy values validatePlan tests for. */
  datatype Params = Params(
    symbol: string, side: Option<Side>, size: Option<Size>, hasPrice: bool, hasTriggerPrice: bool,
    orderId: string, hasLeverage: bool, hasMs: bool, minAvailable: real, mustExist: bool, mustNotExist: bool)

  datatype PlanStep = PlanStep(id: string, action: Action, params: Params, onFailure: Policy, dependsOn: string)

  datatype Plan = Plan(version: string, steps: seq<PlanStep>)

  const ORDER_ACTIONS: set<Action> := {MarketOrder, LimitOrder, StopOrder, ClosePosition}

  // ── validatePlan ──

  datatype PlanError =
    | UnsupportedVersion | NoSteps | MissingId(i: nat) | DuplicateId(i: nat) | InvalidAction(i: nat)
    | InvalidOnFailure(i: nat) | DependsOnNotFound(i: nat) | MissingParams(i: nat)

  predicate ParamsPresent(step: PlanStep) {
    var p := step.params;
    match step.action
    case MarketOrder => p.symbol != "" && p.side.Some? && p.size.Some?
    case LimitOrder => p.symbol != "" && p.side.Some? && p.size.Some? && p.hasPrice
    case StopOrder => p.symbol != "" && p.side.Some? && p.size.Some? && p.hasTriggerPrice
    case CancelOrder => p.symbol != "" && p.orderId != ""
    case SetLeverageTo => p.symbol != "" && p.hasLeverage
    case Wait => p.hasMs
    case _ => true
  }

  predicate HasId(steps: seq<PlanStep>, id: string) {
    exists j :: 0 <= j < |steps| && steps[j].id == id
  }

  /** `dependsOn` may name any step of the plan, also a later one or the step itself. */
  predicate StepOk(steps: seq<PlanStep>, i: nat)
    requires i < |steps|
  {
    var s := steps[i];
    && s.id != "" && (forall j :: 0 <= j < i ==> steps[j].id != s.id)
    && !s.action.OtherAction? && !s.onFailure.OtherPolicy?
    && (s.dependsOn == "" || HasId(steps, s.dependsOn))
    && ParamsPresent(s)
  }

  predicate ValidPlan(plan: Plan) {
    && plan.version == "1.0" && plan.steps != []
    && forall i :: 0 <= i < |plan.steps| ==> StepOk(plan.steps, i)
  }

  method ValidatePlan(plan: Plan) returns (errors: seq<PlanError>)
    ensures errors == [] <==> ValidPlan(plan)
  {
    errors := [];
    if plan.version != "1.0" { errors := errors + [UnsupportedVersion]; }
    if plan.steps == [] { errors := errors + [NoSteps]; }
    var ids: set<string> := {};
    var i := 0;
    while i < |plan.steps|
      invariant 0 <= i <= |plan.steps|
      invariant forall id :: id in ids <==> exists j :: 0 <= j < i && plan.steps[j].id == id
      invariant errors == [] <==>
        plan.version == "1.0" && plan.steps != [] && forall k :: 0 <= k < i ==> StepOk(plan.steps, k)
    {
      var step := plan.steps[i];
      var before := errors;
      if step.id == "" { errors := errors + [MissingId(i)]; }
      if step.id in ids { errors := errors + [DuplicateId(i)]; }
      ids := ids + {step.id};
      if step.action.OtherAction? { errors := errors + [InvalidAction(i)]; }
      if step.onFailure.OtherPolicy? { errors := errors + [InvalidOnFailure(i)]; }
      if step.dependsOn != "" && step.dependsOn !in ids {
        var found := exists j :: 0 <= j < |plan.steps| && plan.steps[j].id == step.dependsOn;
        if !found { errors := errors + [DependsOnNotFound(i)]; }
      }
      if !ParamsPresent(step) { errors := errors + [MissingParams(i)]; }
      assert errors == before <==> StepOk(plan.steps, i);
      i := i + 1;
    }
  }

  // ── executeStep ──

  /** A completed order step: market orders carry the measured fill, limit / stop orders None. */
  datatype PlacedOrder = PlacedOrder(symbol: string, side: Side, filled: Option<real>, decimals: nat,
      orderId: Option<string>)

  datatype StepOutcome = Succeeded(placed: Option<PlacedOrder>) | Failed(err: Thrown)

  function SymbolOf(step: PlanStep): string {
    Upper(step.params.symbol)
  }

  /** `side === "buy"`: every other side is measured and reversed as a sell. */
  function SideOf(step: PlanStep): Side {
    if step.params.side == Some(Buy) then Buy else Sell
  }

  function SizeOf(step: PlanStep): Size {
    if step.params.size.Some? then step.params.size.value else Size(0.0, 0)
  }

  function SendRestingOrder(e: Thrown): Thrown {
    if IsDefiniteOrderFailure(e) then e else OrderOutcomeUnknown(e)
  }

  function ErrorOf(r: Reply): Thrown {
    if r.Threw? then r.err else Untyped(Primitive)
  }

  /** A call whose only outcomes are "done" and a throw. */
  function SendPlain(env: Env, w: World, i: nat, c: Call): (World, StepOutcome) {
    var (w1, r) := Send(env, w, i, false, c);
    (w1, if r.Threw? then Failed(r.err) else Succeeded(None))
  }

  function ExecuteStep(env: Env, w: World, i: nat, step: PlanStep): (World, StepOutcome) {
    var symbol, side, size, p := SymbolOf(step), SideOf(step), SizeOf(step), step.params;
    match step.action
    case MarketOrder =>
      var (w1, r) := Send(env, w, i, false, Place(symbol, side, size.qty, false));
      (w1, if r.Filled? then Succeeded(Some(PlacedOrder(symbol, side, Some(r.qty), size.decimals, None)))
       else Failed(ErrorOf(r)))
    case LimitOrder =>
      var (w1, r) := Send(env, w, i, false, Rest(symbol, side, size.qty, false));
      (w1, if r.Rested? then Succeeded(Some(PlacedOrder(symbol, side, None, size.decimals, r.orderId)))
       else Failed(SendRestingOrder(ErrorOf(r))))
    case StopOrder =>
      var (w1, r) := Send(env, w, i, false, Rest(symbol, side, size.qty, true));
      (w1, if r.Rested? then Succeeded(Some(PlacedOrder(symbol, side, None, size.decimals, r.orderId)))
       else Failed(SendRestingOrder(ErrorOf(r))))
    case CancelOrder => SendPlain(env, w, i, Cancel(symbol, p.orderId))
    case CancelAllOrders => SendPlain(env, w, i, CancelAll(symbol))
    case SetLeverageTo => SendPlain(env, w, i, SetLeverage(symbol))
    case ClosePosition => ExecuteClose(env, w, i, symbol)
    case Wait => (w, Succeeded(None))
    case CheckBalance =>
      var (w1, r) := Send(env, w, i, false, ReadBalance(symbol));
      (w1, if !r.Balance? then Failed(ErrorOf(r))
           else if p.minAvailable > 0.0 && r.available < p.minAvailable then Failed(Untyped(Primitive))
           else Succeeded(None))
    case CheckPosition =>
      var (w1, r) := Send(env, w, i, false, FindPosition(symbol));
      (w1, if !r.Found? then Failed(ErrorOf(r))
           else if (p.mustExist && r.position.None?) || (p.mustNotExist && r.position.Some?)
             then Failed(Untyped(Primitive))
           else Succeeded(None))
    case OtherAction(_) => (w, Failed(Untyped(Primitive)))
  }

  function ExecuteClose(env: Env, w: World, i: nat, symbol: string): (World, StepOutcome) {
    var (w1, r) := Send(env, w, i, false, FindPosition(symbol));
    if !r.Found? then (w1, Failed(ErrorOf(r)))
    else if r.position.None? then (w1, Failed(Untyped(Primitive)))
    else
      var lp := r.position.value;
      var (w2, c) := ClosePerp(env, w1, i, false, lp.symbol, if lp.signed > 0.0 then Sell else Buy, Abs(lp.signed),
                               lp.decimals);
      (w2, if c.CloseThrew? then Failed(c.err)
           else if c.residual > 0.0 then Failed(PerpError(ORDER_PARTIAL, None, Primitive))
           else Succeeded(None))
  }

  // ── rollbackSteps ──

  datatype Status = Success | FailedStep | Skipped | RolledBack | Cancelled | RollbackFailed | Pending | DryRun

  datatype ResultCode = DEPENDENCY_FAILED | STEP_FAILED | ROLLBACK_FAILED | OUTCOME_PENDING

  datatype StepView = StepView(stepId: string, action: Action, status: Status, code: Option<ResultCode>)

  /** What the rollback changes: the venue, the step results and the quarantined symbols. */
  datatype Undo = Undo(w: World, results: seq<StepView>, quarantined: set<string>)

  datatype Verdict = LeaveAlone | MarkRolledBack | MarkCancelled | MarkFailed(err: Thrown)

  /** One completed step's reversal, before its result is marked. */
  function Reverse(env: Env, w: World, i: nat, order: PlacedOrder): (World, Verdict) {
    if order.filled.Some? then
      var size := FillSize(order.filled.value, order.decimals);
      if !(size > 0.0) then (w, LeaveAlone)
      else
        var (w1, c) := ClosePerp(env, w, i, true, order.symbol, Opposite(order.side), size, order.decimals);
        (w1, if c.CloseThrew? then MarkFailed(c.err)
             else if c.residual > 0.0 then MarkFailed(Untyped(Primitive))
             else MarkRolledBack)
    else if order.orderId.None? then (w, MarkFailed(Untyped(Primitive)))
    else
      var (w1, r) := Send(env, w, i, true, Cancel(order.symbol, order.orderId.value));
      (w1, if r.Threw? then MarkFailed(r.err) else MarkCancelled)
  }

  function Mark(v: StepView, verdict: Verdict): StepView {
    match verdict
    case LeaveAlone => v
    case MarkRolledBack => v.(status := RolledBack)
    case MarkCancelled => v.(status := Cancelled)
    case MarkFailed(e) => v.(status := RollbackFailed,
                             code := Some(if IsOutcomeUnknown(e) then OUTCOME_PENDING else ROLLBACK_FAILED))
  }

  predicate Skips(skip: Option<string>, order: PlacedOrder) {
    skip.Some? && order.symbol == skip.value
  }

  function ReverseStep(env: Env, u: Undo, placed: map<string, PlacedOrder>, skip: Option<string>, i: nat): Undo
    requires i < |u.results|
  {
    var v := u.results[i];
    if v.stepId !in placed || Skips(skip, placed[v.stepId]) then u
    else
      var order := placed[v.stepId];
      var (w1, verdict) := Reverse(env, u.w, i, order);
      Undo(w1, u.results[i := Mark(v, verdict)],
           if verdict.MarkFailed? then u.quarantined + {Upper(order.symbol)} else u.quarantined)
  }

  predicate InRange(idxs: seq<nat>, n: nat) {
    forall k :: 0 <= k < |idxs| ==> idxs[k] < n
  }

  /** Newest first. */
  function RollbackSteps(env: Env, u: Undo, placed: map<string, PlacedOrder>, skip: Option<string>,
      idxs: seq<nat>): (u': Undo)
    requires InRange(idxs, |u.results|)
    ensures |u'.results| == |u.results|
    decreases |idxs|
  {
    if idxs == [] then u
    else RollbackSteps(env, ReverseStep(env, u, placed, skip, idxs[|idxs| - 1]), placed, skip, idxs[..|idxs| - 1])
  }

  /** results.filter(r => r.status === "success"), as indices. */
  function Successes(results: seq<StepView>): (idxs: seq<nat>)
    ensures InRange(idxs, |results|)
    ensures forall k :: 0 <= k < |idxs| ==> results[idxs[k]].status == Success
    ensures forall k, l :: 0 <= k < l < |idxs| ==> idxs[k] < idxs[l]
    ensures forall i :: 0 <= i < |results| && results[i].status == Success ==> i in idxs
  {
    if results == [] then []
    else
      var n := |results| - 1;
      Successes(results[..n]) + (if results[n].status == Success then [n] else [])
  }

  // ── executePlan ──

  datatype PlanStatus = Completed | Partial | PlanFailed | PlanPending | Quarantined | PlanDryRun

  datatype PlanResult = PlanResult(status: PlanStatus, steps: seq<StepView>, quarantined: set<string>, w: World)

  datatype Run = Run(w: World, results: seq<StepView>, completed: map<string, Status>, placed: map<string, PlacedOrder>,
      quarantined: set<string>)

  function Start(w: World): Run {
    Run(w, [], map[], map[], {})
  }

  function Finish(status: PlanStatus, u: Undo): PlanResult {
    PlanResult(if u.quarantined != {} && status != PlanPending then Quarantined else status, u.results, u.quarantined,
               u.w)
  }

  function Record(run: Run, step: PlanStep, status: Status, code: Option<ResultCode>): Run {
    run.(results := run.results + [StepView(step.id, step.action, status, code)],
         completed := run.completed[step.id := status])
  }

  predicate DependencyMet(run: Run, step: PlanStep) {
    step.dependsOn == "" ||
    (step.dependsOn in run.completed
     && (run.completed[step.dependsOn] == Success || run.completed[step.dependsOn] == DryRun))
  }

  function Place1(placed: map<string, PlacedOrder>, id: string, p: Option<PlacedOrder>): map<string, PlacedOrder> {
    if p.Some? then placed[id := p.value] else placed
  }

  datatype Next = Continue(run: Run) | Stop(result: PlanResult)

  function UndoOf(run: Run): Undo {
    Undo(run.w, run.results, run.quarantined)
  }

  /** The catch block: what a thrown step does to the run. */
  function OnThrow(env: Env, run: Run, step: PlanStep, err: Thrown): Next {
    if step.action in ORDER_ACTIONS && IsOutcomeUnknown(err) then
      var sym := SymbolOf(step);
      var u := Undo(run.w, run.results + [StepView(step.id, step.action, Pending, Some(OUTCOME_PENDING))],
                    run.quarantined + {Upper(sym)});
      Stop(Finish(PlanPending,
                  if step.onFailure == Rollback then RollbackSteps(env, u, run.placed, Some(sym), Successes(u.results))
                  else u))
    else if step.onFailure == Skip then
      Continue(Record(run, step, Skipped, Some(STEP_FAILED)))
    else if step.onFailure == Rollback then
      var u := RollbackSteps(env, UndoOf(run), run.placed, None, Successes(run.results));
      Stop(Finish(PlanFailed,
                  u.(results := u.results + [StepView(step.id, step.action, RolledBack, Some(STEP_FAILED))])))
    else
      var results := run.results + [StepView(step.id, step.action, FailedStep, Some(STEP_FAILED))];
      Stop(Finish(if Successes(results) != [] then Partial else PlanFailed, UndoOf(run).(results := results)))
  }

  /** The loop body for step `i`. */
  function Advance(env: Env, steps: seq<PlanStep>, dryRun: bool, run: Run, i: nat): Next
    requires i < |steps|
  {
    var step := steps[i];
    if !DependencyMet(run, step) then Continue(Record(run, step, Skipped, Some(DEPENDENCY_FAILED)))
    else if dryRun then Continue(Record(run, step, DryRun, None))
    else
      var (w1, o) := ExecuteStep(env, run.w, i, step);
      match o
      case Succeeded(p) => Continue(Record(run.(w := w1, placed := Place1(run.placed, step.id, p)), step, Success,
                                           None))
      case Failed(err) => OnThrow(env, run.(w := w1), step, err)
  }

  function ExecuteFrom(env: Env, steps: seq<PlanStep>, dryRun: bool, run: Run, i: nat): PlanResult
    requires i <= |steps|
    decreases |steps| - i
  {
    if i == |steps| then Finish(if dryRun then PlanDryRun else Completed, UndoOf(run))
    else
      match Advance(env, steps, dryRun, run, i)
      case Continue(run') => ExecuteFrom(env, steps, dryRun, run', i + 1)
      case Stop(result) => result
  }

  /** None when the plan is refused before its first step: it places orders and the venue cannot close them. */
  function ExecutePlan(env: Env, steps: seq<PlanStep>, dryRun: bool, canClose: bool, w: World): Option<PlanResult> {
    if !dryRun && !canClose && (exists i :: 0 <= i < |steps| && steps[i].action in ORDER_ACTIONS) then None
    else Some(ExecuteFrom(env, steps, dryRun, Start(w), 0))
  }
}
