# perp-cli: verified model of its money-handling engines

perp-cli is mostly network plumbing around a ring of small engines whose mistakes cost money.
This project models those engines in Dafny, with venues, RPC nodes, remote services, other
processes and the clock as environments that may answer anything their contracts allow, and
proves what the engines promise about whole runs.

| module | models |
|---|---|
| `Venue`, `PlanExecutor`, `PlanRunner`, `PlanProperties`, `PlanOutcomes`, `PlanCalls`, `PlanLedger`, `PlanIsolation`, `RollbackExactness`, `PlanExamples` | scripted plans: dependencies, failure policies, unknown outcomes, quarantine, rollback |
| `Rebalance`, `RebalanceProperties`, `RebalanceMaximality` | the greedy matching of surpluses to deficits |
| `RelaySwap`, `RelayProperties` | verification of a remote bridge quote, the sends, the wait, the output floor |
| `EventStream`, `EventStreamRunner`, `EventStreamProperties`, `EventStreamAnswers` | the polling event stream and the position logger attached to it |
| `Liquidity`, `LiquidityProperties` | the order-book walk and the sizing of an arbitrage entry |
| `ShellCommand`, `Jobs` | the shell command of a background job; stopping a job while it and others write its record |
| `MasterTx`, `Bridge`, `UsdcAmount`, `Errors` | outcome typing of on-chain sends and of a burn-and-mint transfer, exact amounts, the error walk |
| `EquityTracker`, `EquityProperties` | daily and weekly P&L, drawdown |
| `WithdrawGate` | withdrawal limits kept by a local ledger |

Code that works by changing things is modelled that way: `StepResult` objects overwritten in place
during a rollback, an array of deficits written by two nested loops, closures as classes whose
methods reassign their variables. Each such method is proved equal to a specification function,
and the properties are proved of those functions. Environments are total functions of what was
asked; predicates such as `Venue.Honest`, `MasterTx.Honest` and `Bridge.HonestEnv` state the whole
of what is assumed of them. JavaScript numbers are reals, bigints are integers.

## Findings

Where the code does less than its comments or names suggest, the code was kept and the exact
condition proved:

- A rolled-back market step can leave part of its fill: the fill is floored to the decimals of the
  size as typed, and the reversal closes only what the account holds in that direction.
  `RollbackExactness.RollbackExactIff` says when a rolled-back run nets zero,
  `PlanExamples.RolledBackFlipLeavesPart` is a run that does not.
- The rollback skips the pending order's symbol by comparing text, so `BTC` and `BTC-PERP` are
  different to it although they are one market (`PlanIsolation.PendingPlanLeavesAlone`,
  `PlanExamples.SpellingDefeatsIsolation`); and an unknown outcome during the rollback quarantines
  its symbol but does not stop later calls on it (`PlanIsolation.UnknownReversalIsolatesIff`).
- A close_position step whose residual close has an unknown outcome fails with ORDER_PARTIAL
  (src/plan-executor.ts:375-377), so its `onFailure` decides, as after any definite failure: "abort"
  stops the plan, "rollback" may reverse the same symbol, "skip" goes on and may trade it, complete
  and quarantine nothing. It is the only order whose unknown outcome is not isolated
  (`PlanIsolation.UnknownOrderIsolatesIff`, `PlanIsolation.UnknownResidualIff`,
  `PlanExamples.UnknownResidualIsTradedOver`).
- Dependency cycles are accepted, and a plan of nothing else is reported completed
  (`PlanExamples.CyclicPlanRunsNothing`).
- With a negative minMove the rebalancer sends an exchange to itself
  (`RebalanceProperties.SelfMovesIffNegativeMinMove`).
- `depthUsd` is documented as the side's total depth, and is only that of the levels looked at
  (`LiquidityProperties.DepthIsTotalIff`).
- Bids whose two best prices are equal are taken for asks, and the slippage tolerance then limits nothing
  (`LiquidityProperties.EqualBestBids`, `LiquidityProperties.EqualBestBidsSlip`).
- A malformed position makes the poll fail after good positions were already logged as opened;
  the next poll opens them again (`EventStreamProperties.PollKeepsMapIff`, `EventStreamProperties.MalformedPositionOpensTwice`).
- `order_filled` is never emitted: prevPositions is replaced (src/event-stream.ts:175) before it is
  compared (src/event-stream.ts:201) (`EventStreamProperties.OrdersOverRuns`).
- A job's result is lost when it is saved between stopJob's first load and its mark and nothing
  writes it again afterwards, and when a listing that read the record before it saves after it
  (`Jobs.ResultKeptIff`, `Jobs.KeptWithoutMark`, `Jobs.ResultCanBeLost`, `Jobs.ListingCanLoseResult`);
  and a listing in flight can rewrite a stopped job as done (`Jobs.StopWinsIff`).
- A background job's command can carry words that its child's root takes as its own options: from a
  testnet parent, `arb auto --background --symbols=-nmainnet` starts a job on mainnet
  (`ShellCommand.OptionValueSwitchesNetwork`, `ShellCommand.ChildGetsParentSelectorsIff`). A dry run
  stays one (`ShellCommand.DryRunStaysDry`).
- isConnectFailure answers false for an aggregate that lists one error object twice
  (`Errors.SharedErrorMissed`); it costs an ORDER_PENDING, never a false definite failure. Without
  such sharing it is exact, on cyclic graphs too (`Errors.ConnectFailureIff`).
- The drawdown loop starts at peak 0, so a negative equity counts as a fall
  (`EquityProperties.PlainDrawdownIff`); the reported percentage is that of the first worst fall
  (`EquityProperties.WorstPctIsFirst`).

## Model

| member | source | states |
|---|---|---|
| PlanExecutor.ValidatePlan | src/plan-executor.ts:64-107 | The error list is empty exactly for an accepted plan: version, non-empty, ids present and distinct, known actions and policies, dependsOn naming some step (any step), parameters present |
| PlanOutcomes.AcceptedIff | src/plan-executor.ts:64-107 | A plan is accepted exactly when its version is 1.0, it has a step, no id is missing or used twice, every action and policy is known, every dependsOn names a step of the plan, and each action has the parameters listed for it |
| PlanRunner.RunPlan | src/plan-executor.ts:115-266 | The loop over shared, mutable StepResult objects ends with exactly the status, results, quarantine and venue state of the specification, and refuses before the first step exactly when it does |
| PlanRunner.RollbackLoop | src/plan-executor.ts:413-459 | Walking the filtered list from the end and overwriting status in place is the specified newest-first rollback of the plan's own result list |
| PlanRunner.StopPlan | src/plan-executor.ts:201-262 | The catch block: pending, rolled back or aborted, with the status it finishes with |
| PlanRunner.Iterate | src/plan-executor.ts:153-239 | One turn of the loop: dependency check, dry run, execution, skip, or the error that ends the plan |
| PlanProperties.EveryRunIsWellShaped | src/plan-executor.ts:137-149 | On any venue: one result per step of a prefix of the plan in order, the whole plan when completed or dry_run; at most one pending result, last, exactly for status pending; quarantined is exactly the symbols of pending and rollback_failed steps and is empty for completed, partial, failed and dry_run |
| PlanProperties.RunsIffDependencySucceeded | src/plan-executor.ts:156-173 | In a run of an accepted plan a step runs, a dry run included, if and only if it depends on nothing or the step it depends on comes before it and succeeded (or was dry-run) |
| PlanOutcomes.StepSucceedsIff | src/plan-executor.ts:313-404 | Exactly when each kind of step succeeds: an order filled or resting, a call that did not throw, a balance at or above a positive minimum, a position present or absent as demanded, a close that left nothing open |
| PlanOutcomes.StatusIs | src/plan-executor.ts:201-266 | The status of every live run of an accepted plan from its results: pending by its last step; else quarantined when a reversal failed; else partial or failed at a failed step, by whether any step succeeded; failed when rolled back; else completed with a result for every step |
| PlanOutcomes.FailureFollowsPolicy | src/plan-executor.ts:156-262 | Over every run: a step that fails is skipped under "skip", rolled_back under "rollback" and failed otherwise, each with STEP_FAILED; pending is only an order with an unknown outcome; only failed, pending and reversal-failed results and skipped ones carry an error, each its own |
| PlanOutcomes.ReversalCode | src/plan-executor.ts:421-457 | When a reversal leaves its step alone, marks it rolled_back or cancelled, or fails, and with which code: ORDER_PENDING exactly for an unknown outcome |
| PlanOutcomes.RefusedIff | src/plan-executor.ts:113-133 | A plan is refused before its first step if and only if it runs live, has an order step, and the venue cannot close positions |
| PlanProperties.RollbackShape | src/plan-executor.ts:413-459 | A rollback changes the results of the steps it reverses and nothing else, and quarantines exactly the symbols of those it marks rollback_failed |
| PlanProperties.RollbackCalls | src/plan-executor.ts:421-446 | Every call of a rollback undoes one of the steps it reverses, by that step's own order id or reduce-only on its own symbol and opposite side; no other order is touched |
| PlanProperties.RollbackReachesAll | src/plan-executor.ts:421-456 | Every reversal that is due is attempted, whatever the earlier ones answered, and newest first |
| PlanProperties.ChainSucceededBefore | src/plan-executor.ts:156-173 | In a run of an accepted plan a step that ran had its entire dependsOn chain succeed, each link at a strictly smaller index |
| PlanProperties.CyclesNeverRun | src/plan-executor.ts:85-90 | In a run of an accepted plan no step of a dependency cycle, self-reference or forward reference ever runs |
| PlanExamples.CyclicPlanRunsNothing | src/plan-executor.ts:85-90 | Validation accepts such a plan: two steps waiting for each other and one for itself. Nothing runs, the venue is not called, and the plan is reported completed |
| PlanIsolation.UnknownOrderIsolatesIff | src/plan-executor.ts:205-224 | Over every run: a live order's unknown outcome makes the plan pending, its step the last result and pending, and its symbol quarantined, if and only if the order is not the residual close of a close_position |
| PlanIsolation.UnknownResidualIff | src/plan-executor.ts:371-377 | Over every run, after the unknown residual of a close_position: with abort no call follows and the plan is partial or failed; with rollback a call on its market follows if and only if a succeeded step has something to reverse there; with skip also when a later step that ran trades or reads there |
| PlanExamples.UnknownResidualIsTradedOver | src/plan-executor.ts:371-377 | A run of an accepted plan in which the residual is unknown, the next step buys on the same symbol, and the plan completes with nothing quarantined |
| PlanIsolation.LaterCallsIff | src/plan-executor.ts:153-251 | Over every run: after step s's own calls a call on a market follows if and only if a later step that got past its dependency check trades or reads there, or the rollback that ends the run has something to reverse there |
| PlanIsolation.PendingPlanLeavesAlone | src/plan-executor.ts:205-224 | Over every run that ends pending: no reversal names the pending step's symbol; the symbol is compared as text, so one reaches the same market if and only if the plan rolls back and a succeeded step that spelled the market differently has something to reverse |
| PlanExamples.SpellingDefeatsIsolation | src/plan-executor.ts:425-428 | A run of an accepted plan: an order on BTC has an unknown outcome, BTC is quarantined, and the rollback then sells BTC-PERP |
| PlanProperties.RollbackTouches | src/plan-executor.ts:421-446 | A rollback calls a market if and only if one of the steps it reverses traded there and has something to reverse |
| PlanIsolation.UnknownReversalIsolatesIff | src/plan-executor.ts:451-457 | Over every run: a reversal that throws, an unknown outcome included, quarantines its symbol, and a later call still names that symbol if and only if an older succeeded step traded it and has something to reverse; likewise its market, but for the symbol of a pending order |
| PlanExamples.UnknownReversalIsTradedOver | src/plan-executor.ts:451-457 | A run of an accepted plan in which a reversal has an unknown outcome and the next reversal trades the same symbol |
| PlanCalls.RunDoesOnlyWhatIsAsked | src/plan-executor.ts:153-266 | Whatever the venue answers, a run makes only the calls its steps ask for (own symbol, side, size, order id), in plan order, sends each market, limit and stop order at most once, and after its first reversal makes only reversals of its own steps |
| RollbackExactness.RollbackUndoesTheRun | src/plan-executor.ts:240-251 | A run that ends failed through rollback with nothing quarantined: every market step that filled was reversed by a measured amount that falls short of the floored fill only as the close's report allows, market steps that did not fill net zero, every limit / stop order was cancelled by its own id, and no other order was touched |
| RollbackExactness.RollbackExactIff | src/plan-executor.ts:413-459 | Over every run that ends failed through rollback with nothing quarantined, on a venue that fills whatever can be filled: the market orders of a market all net zero if and only if, before the first reversal, every fill could be taken back in full from the position less the newer fills of that market |
| RollbackExactness.MarketOnlyIff | src/plan-executor.ts:413-459 | For a market the plan trades only by market orders: they all net zero if and only if every fill lay on the decimals of its size and none reduced an opposite position |
| RollbackExactness.TakesBackAllIff | src/exchanges/spot-result.ts:268-271 | Taken back in full means a fill on its grid that is still held, or one the 1e-9 allowance rounds up that is held exactly |
| RollbackExactness.TakeableNetsZero | src/plan-executor.ts:413-459 | Under that condition the run's market_order steps together added nothing to the market |
| RollbackExactness.RollbackTotalIff | src/plan-executor.ts:413-459 | On such a venue the run's market_order steps together added nothing to a market if and only if the closes, each the floored fill cut to what the newer closes left open, sum to the fills |
| RollbackExactness.RoundedUpFill | src/exchanges/spot-result.ts:268-271 | A fill the 1e-9 allowance rounds up to one unit, taken back exactly from a position that holds just it |
| PlanExamples.RolledBackFlipLeavesPart | src/plan-executor.ts:430-436 | A run that buys 0.5 against a short of 0.3 and rolls back ends failed with nothing quarantined, the step marked rolled back and 0.3 of it left |
| PlanLedger.ReversalIsExact | src/plan-executor.ts:430-436 | On a venue that fills whatever can be filled, a reversal marked rolled back undoes its step if and only if the fill, floored to the typed decimals and cut to what the account holds in that direction, is the fill itself |
| PlanLedger.FillBelowOneUnitStays | src/plan-executor.ts:431-432 | A fill below one unit of the typed decimals is left in place, marked nothing and quarantined nothing |
| PlanLedger.ReversalOfAFlipIsPartial | src/plan-executor.ts:430-436 | A fill that crossed an opposite position is marked rolled back although part of it stays |
| PlanLedger.MarketStepNet | src/plan-executor.ts:325-332 | A market step that succeeds moved its market by exactly the measured fill, a definite failure moved nothing |
| PlanLedger.ReverseNet | src/plan-executor.ts:429-436 | One reversal against the position: what rolled_back and untouched mean for the step's net quantity |
| Venue.ClosePerpEffect | src/bot/perp-order.ts:306-346 | The verified close adds only reduce-only orders of its side and position reads on its symbol, moves nothing else, and residual 0 means the market moved by exactly `closed` and nothing closable is left beyond the step's grid; a thrown definite error moved nothing |
| Venue.ResidualHasNote | src/bot/perp-order.ts:303-305 | What is still open is reported with a note; a note with residual 0 means that the position was unreadable at the end and the rest rounds to nothing |
| Venue.FillSizeBelow | src/exchanges/spot-result.ts:268-271 | A floored fill is non-negative, below the fill plus the epsilon, and within one unit of it |
| Venue.MarketSpellings | src/utils.ts:6-14 | A symbol in any case, with or without -PERP, is one market |
| Rebalance.ComputeRebalancePlan | src/rebalance.ts:154-227 | The imperative plan (maps filled snapshot by snapshot, then the matching) is the specified one, or NO_BRIDGE_ROUTE for the first move end without a route |
| Rebalance.MatchSurpluses | src/rebalance.ts:192-214 | The outer loop over surpluses, sharing one array of deficits |
| Rebalance.MatchRow | src/rebalance.ts:193-213 | The inner loop: break, continue, and the in-place reduction of the deficit it feeds |
| RebalanceProperties.RebalanceIsSafe | src/rebalance.ts:178-213 | For any weights and distinct exchanges, at every point of executing the floored moves in order no sender is below max(reserve, its target) and no receiver above its target |
| RebalanceProperties.EachMoveIsProgress | src/rebalance.ts:199-212 | Every move keeps the total available constant and lowers the total distance to the targets by exactly twice its amount |
| RebalanceProperties.PlanConservesAndImproves | src/rebalance.ts:192-214 | Over the whole plan: total available unchanged, total distance lower by exactly twice the amount moved |
| RebalanceMaximality.PlanIsMaximal | src/rebalance.ts:178-214 | With minMove > 0, over the snapshots themselves: for every exchange with more than minMove to give (available less the larger of reserve and target) and every one lacking more than minMove, one of the two is left with at most minMove; each pair is used at most once; S givers and D takers give at most S + D - 1 moves, and none when there is no giver or no taker |
| RebalanceMaximality.ListsAreExact | src/rebalance.ts:189-190 | An entry is a surplus exactly as often as it stands among the deltas when it is above minMove, and not at all otherwise; likewise the deficits below -minMove |
| RebalanceMaximality.TargetIsShare | src/rebalance.ts:171-176 | n equal targets add up to what all exchanges have available; a weighted target is the weight times that sum |
| RebalanceProperties.MoveEnds | src/rebalance.ts:204-209 | A move goes from an exchange with a surplus to a different one with a deficit, by a non-negative amount |
| RebalanceProperties.SelfMovesIffNegativeMinMove | src/rebalance.ts:189-190 | A plan can send an exchange to itself if and only if minMove is negative |
| RebalanceProperties.BalancedSelfMove | src/rebalance.ts:189-212 | With any negative minMove a single balanced exchange is moved to itself |
| RebalanceProperties.RoutedOrRefused | src/rebalance.ts:202-203 | A plan is returned exactly when both ends of every planned move have a bridge route, and is then the whole plan; otherwise the refusal names an exchange without one |
| RebalanceProperties.SortPermutes | src/rebalance.ts:189-190 | Sorting the entries keeps them all |
| RebalanceProperties.SortSorts | src/rebalance.ts:189-190 | Largest surplus first, deepest deficit first |
| RebalanceProperties.SortIsStable | src/rebalance.ts:189-190 | Entries of equal value keep their order |
| RelaySwap.VerifyRelaySteps | src/relay-swap.ts:293-368 | The nested loops over an arbitrary remote answer compute the specified verdict: accepted transactions, POLICY_DENIED, or a plain exception |
| RelayProperties.AcceptedShape | src/relay-swap.ts:293-368 | Whatever the service sends, an accepted list is one deposit, or one exact approval and then one deposit, and is the concatenation of the steps' own `items`, one for one: none dropped, added or unchecked; every step is an object of kind "transaction" with a list of items |
| RelayProperties.GroupingIsIrrelevant | src/relay-swap.ts:301-361 | How transactions are grouped into steps does not change the verdict |
| RelayProperties.QuoteAcceptedIff | src/relay-swap.ts:293-368 | Exactly what is accepted, native or ERC-20 and in any grouping into steps: steps of kind "transaction" whose `items`, read from the answer and concatenated, ask for one good deposit, or a good approval and then a good deposit, on the right chain and in the right name |
| RelayProperties.TwoStepQuoteIsAccepted | src/relay-swap.ts:301-361 | The usual layout, a step with a good approval and a step with a good deposit, is accepted with both |
| RelayProperties.FirstFailureDecides | src/relay-swap.ts:307-361 | A list is accepted if every item is; otherwise its first bad item decides between POLICY_DENIED and a plain exception |
| RelayProperties.BrokenItemIff | src/relay-swap.ts:307-314 | The plain exception is raised exactly for an item whose address, chain and sender pass and whose value is not a number |
| RelaySwap.SendAll | src/relay-swap.ts:693-703 | The send loop stops at the first error and reports it, and which hashes were collected |
| RelayProperties.HashesCollected | src/relay-swap.ts:693-703 | The hash of an approval or deposit is collected exactly when its send and all before it returned; no error is reported exactly when all returned |
| RelayProperties.FirstErrorReported | src/relay-swap.ts:693-703 | The error reported is that of the first send that threw |
| RelayProperties.AcceptedQuoteDoesWhatWasAsked | src/relay-swap.ts:657-703 | If all sends return, the sender's input asset fell by exactly the input, the pinned depository holds it credited to the sender and the order id, and nothing else changed but the depository's allowance on the input token; an error other than ORDER_PENDING leaves no deposit made or possible; in every case the chain is untouched, only approved, or carried out once; an approval made for it is used up by the deposit |
| RelaySwap.AwaitRelayFill | src/relay-swap.ts:613-651 | For every wait that returns, under any clock: it returns after the first poll whose status is terminal (success, refund = ACTION_REJECTED, failure = ORDER_PENDING) or after which another poll would pass the deadline (ORDER_PENDING) |
| RelaySwap.WaitEnds | src/relay-swap.ts:644-645 | With a clock that moves on while the process sleeps the wait returns, within the polls that fit in the timeout |
| RelayProperties.FloorIsTight | src/relay-swap.ts:556-563 | The raw floor, scaled up or down, is within two raw output units of the exact fraction and never above it |
| RelayProperties.ExplicitFloorIff | src/relay-swap.ts:533-548 | Under --min-out a quote passes if and only if its guaranteed minimum meets the floor, whatever it expects |
| RelayProperties.DefaultRuleIsTight | src/relay-swap.ts:549-566 | Under the default rule acceptance means expected and guaranteed output within two raw units of 97% and 94% of the amount in, and every quote meeting both exactly is accepted |
| RelayProperties.BetterQuoteStillAccepted | src/relay-swap.ts:530-566 | Acceptance is monotone in both outputs under every rule, and without a fixed rate nothing is accepted unless --min-out is given |
| EventStreamRunner.Callback.OnEvent | src/position-history.ts:252-346 | The logger closure: which events it throws on, what it logs and tracks, and that it forwards what it accepts |
| EventStreamRunner.Poller.Poll | src/event-stream.ts:73-272 | The poll closure over its variables is the specified step: a failed read or a throwing callback emits an error and leaves the snapshots, otherwise all are replaced |
| EventStreamRunner.Poller.PollPositions | src/event-stream.ts:84-175 | Position diff, close and liquidation loops up to where prevPositions is replaced; a throw leaves it |
| EventStreamRunner.Poller.PollRest | src/event-stream.ts:177-263 | Order, balance and heartbeat events after it |
| EventStreamProperties.StreamAndLogAgree | src/event-stream.ts:73-175 | Over any run of failed or readable (with the logger: well-formed) polls, replaying the events gives exactly the kept side and size of every position, each event fits the state it finds, the logger tracks exactly the stream's symbols, and every symbol's log is (open updated* closed)* with one id and one openedAt per cycle |
| EventStreamAnswers.ReplayIsAnswer | src/event-stream.ts:84-207 | Over the same runs, against the venue's answers: replaying all events gives for each symbol the side and size of its last position in the last answer kept, no symbol that answer lacks, and exactly the ids of its open orders |
| EventStreamAnswers.EventsAreTrue | src/event-stream.ts:97-123 | Every position event is true, field by field, of the answer of its poll and of the answer kept before |
| EventStreamAnswers.RecordsAreAnswers | src/position-history.ts:257-342 | In every run, thrown polls included, each history record shows the size, side, entry price and P&L the venue answered in that poll, or for a closed position in the last answer kept |
| EventStreamAnswers.OpenIdsDiffer | src/position-history.ts:257-280 | In every run no two open records share an id |
| EventStreamAnswers.AlertIff | src/event-stream.ts:126-173 | One alert for each position nearer to its liquidation price than 3% of the mark (critical) or than the warning percentage, and none without a usable mark and liquidation price |
| EventStreamAnswers.BalanceIff | src/event-stream.ts:210-247 | A balance update exactly when equity or available moved by more than a cent, both readable before and now |
| EventStreamAnswers.HeartbeatIff | src/event-stream.ts:250-263 | Of a run's polls that go through every twelfth has a heartbeat and no other |
| EventStreamProperties.PositionEventsRebuild | src/event-stream.ts:97-123 | One poll's position events turn the previous snapshot into the current one: opened when absent, updated when different, closed when gone |
| EventStreamProperties.LoggedKeeps | src/position-history.ts:257-342 | One fitting event keeps every symbol's log well bracketed and the open map equal to the unfinished cycles |
| EventStreamProperties.PollKeepsMapIff | src/position-history.ts:260-324 | After a readable poll the logger and the stream agree on the symbols if and only if the logger rejects none of the poll's events, or rejects one before anything was opened or closed |
| EventStreamProperties.EmitThrowsIff | src/position-history.ts:55-82 | A poll throws exactly when an attached logger rejects one of its position events, and everything before that event has been forwarded |
| EventStreamProperties.MalformedPositionLosesSync | src/event-stream.ts:98-105 | One malformed position after a good one leaves the good one open in the log and unknown to the stream |
| EventStreamProperties.MalformedPositionOpensTwice | src/event-stream.ts:98-105 | The next such poll logs a second open record of the good position while its first cycle is unfinished; the log is never well bracketed again |
| EventStreamProperties.OrdersOverRuns | src/event-stream.ts:177-207 | Over every run, replaying the order events gives exactly the open orders, each placed when new and removed once when gone, and order_filled is never chosen |
| Liquidity.ComputeExecutableSize | src/liquidity.ts:27-88 | The loop with its breaks computes the specified walk and report, for any levels |
| LiquidityProperties.CheckArbLiquidity | src/liquidity.ts:94-154 | For order books or empty sides: viable if and only if both sides are there, the best prices are within 2% and each side can execute two ninths of the request in its band; the size is then 90% of the request or of the thinner side and no slippage exceeds the tolerance; unreadable books are not viable |
| LiquidityProperties.ReportIsGreedy | src/liquidity.ts:46-71 | The walk takes whole levels from the best, part of one more, and only levels inside the slippage band |
| LiquidityProperties.BandIff | src/liquidity.ts:36-55 | A level is in the band exactly when it is the best or at most maxSlippagePct of the best price away from it |
| LiquidityProperties.ReportIsOfFill | src/liquidity.ts:73-87 | The average is the filled notional per unit of size, the slippage its distance from the best price in percent of that price, the recommended size nine tenths of the size |
| LiquidityProperties.FillsRequestOrBand | src/liquidity.ts:52-70 | Filled notional is the request or the depth of the slippage band, whichever is less |
| LiquidityProperties.CanFillIff | src/liquidity.ts:75 | canFillFull holds if and only if the slippage band holds 95% of the request |
| LiquidityProperties.WalkIsOptimal | src/liquidity.ts:46-71 | Among all per-level fills worth the same notional it gets the most base from asks and gives up the least into bids |
| LiquidityProperties.AverageWithinBand | src/liquidity.ts:39-40 | The average price lies between the best price and the edge of the slippage band |
| LiquidityProperties.SlippageWithinTolerance | src/liquidity.ts:73-74 | The reported slippage is between 0 and maxSlippagePct |
| LiquidityProperties.LargerRequest | src/liquidity.ts:46-73 | A larger request never fills less and never at a better average price |
| LiquidityProperties.DepthIsTotalIff | src/liquidity.ts:11-12 | depthUsd is the side's total depth if and only if the walk gets past every level but the last: all of them in the band and the request above what all but the last two hold |
| LiquidityProperties.DepthIsNotTotal | src/liquidity.ts:44-59 | A request that stops early reports less than the side's depth |
| LiquidityProperties.EqualBestBids | src/liquidity.ts:37-54 | Of non-increasing bids a level is out of the band if and only if the second price is below the best and the level more than maxSlippagePct below it; with two equal best prices none is |
| LiquidityProperties.EqualBestBidsSlip | src/liquidity.ts:20-21 | Such a book, walked with a tolerance of 0.5%, fills in full at a slippage of 37.5% |
| LiquidityProperties.RecommendedNotional | src/liquidity.ts:125-129 | recommendedSize × avgFillPrice is 90% of the notional filled |
| LiquidityProperties.ArbSizing | src/liquidity.ts:114-149 | Viable if and only if the best prices differ by at most 2% of the lower one and both sides can execute two ninths of the request in the band; the adjusted size is then 90% of the request or of the thinner side |
| LiquidityProperties.ArbNeedsBothSides | src/liquidity.ts:125-136 | With a side missing no positive size is viable |
| ShellCommand.ChildCommandRoundTrip | src/jobs.ts:421-426 | Tokenized by sections 2.2.1, 2.2.2 and 2.3 of the POSIX.1-2017 Shell Command Language, the command is exactly ["env", -u flags, node, cli, ...argv] for all strings: nothing split, expanded, dropped or read as an operator |
| ShellCommand.UnsetFlagsAre | src/jobs.ts:422 | Every secret variable is unset, in order, each by its own -u |
| ShellCommand.LoggedCommandSplits | src/jobs.ts:424-425 | With a log the fixed redirection starts outside quotes at a word boundary after the same words, and the log path is one word |
| ShellCommand.CommandIsInjective | src/jobs.ts:214 | Different argument lists give different commands |
| ShellCommand.ChildStartsAsParent | src/jobs.ts:198-212 | With root options taken wherever they stand (src/cli-flags.ts:4-6), the child first takes over exactly the parent's network, dry-run flag, venue and selectors, even when a selector's value looks like an option, and then reads the command's own words |
| ShellCommand.ChildGetsParentSelectorsIff | src/jobs.ts:198-212 | The child runs with exactly those flags, no other root option, and the given command with its job id, if and only if no word of the command or the id before a "--" is a root option in any spelling, and a "--" comes after a word that looks like an option |
| ShellCommand.ValuedNames | src/cli-program.ts:126-139 | The names of the root options that take a value |
| ShellCommand.SwitchNames | src/cli-program.ts:126-139 | The names of those that take none |
| ShellCommand.AttachedValue | src/cli-flags.ts:4-9 | A value attached to a short name, or after "=" of a long one, gives the same option as in the next word |
| ShellCommand.DryRunStaysDry | src/cli-flags.ts:27-34 | Whatever the words, a child of a dry run is a dry run, --no-agent and --no-builder stay on, and the network is a valid one |
| ShellCommand.OptionValueSwitchesNetwork | src/commands/arb-auto.ts:815-831 | The words "--symbols" and "-nmainnet" of a testnet parent make a child on mainnet |
| Jobs.Store.StopJob | src/jobs.ts:332-374 | stopJob with any steps of other processes in its gaps is a run of the step relation and leaves the record stopped with its outcome |
| Jobs.OutcomeIsTrue | src/jobs.ts:337-367 | In every interleaving the outcome is "notRunning" exactly when the record was not marked and "forced" exactly when the session was killed, otherwise "graceful" |
| Jobs.StopKeepsFields | src/jobs.ts:369-372 | The saved outcome leaves every other field of the job's result as it was |
| Jobs.Store.UpdateJobState | src/jobs.ts:379-387 | updateJobState as a load and a later save; undisturbed it merges the patch and keeps a stopped status |
| Jobs.Store.ListJobs | src/jobs.ts:103-117 | listJobs on one record, with anything happening between its read, its look for the session and its save: a record read as running whose session is then gone is reported, and rewritten, as done |
| Jobs.StopWinsIff | src/jobs.ts:332-374 | In every interleaving with any number of listings, stopJob's last step leaves the record stopped with the outcome added to the re-read result, and from then on no step changes the record if and only if no listing that read it earlier is still under way; no update of the job does |
| Jobs.ResultKeptIff | src/jobs.ts:332-374 | Over every interleaving that marks the record: what stopJob re-reads is the result the job wrote last if and only if, when a listing saved after the mark, the last one to save had read the record after that result (or an equal one), and when none did, the job wrote no other result between stopJob's first load and its mark or an update that carries a result or was loaded before the mark was saved after it |
| Jobs.KeptWithoutMark | src/jobs.ts:337-338 | Of a job whose session was already gone the last result is kept if and only if no listing saved, or the last one to save had read the record after that result (or an equal one) |
| Jobs.ReturnedRecord | src/jobs.ts:368-372 | The record stopJob leaves is the one it re-read plus the outcome, and the job writes no result in between |
| Jobs.WrittenAfterMark | src/jobs.ts:340-372 | A result the job writes after the mark, and does not replace, is kept if and only if no listing saves after the mark, or the last one to save had read that result (or an equal one) |
| Jobs.ResultCanBeLost | src/jobs.ts:333-343 | A job that saves its result between stopJob's first load and its mark, and never again, loses it |
| Jobs.ListingCanUndoStop | src/jobs.ts:109-113 | A listing that read the record before stopJob's last save can rewrite it as done |
| Jobs.ListingCanLoseResult | src/jobs.ts:108-112 | A listing that read the record while the job was alive, and finds it gone, saves its older copy over the job's result |
| Jobs.ListingCanLoseResultAtStop | src/jobs.ts:108-112 | The same around a stop: the job wrote nothing between the first load and the mark, and the re-read record has lost its result |
| MasterTx.Wallet.SendMasterTx | src/evm-master-tx.ts:97-167 | Simulate, fee, gas, nonce, sign, broadcast, receipt: the typed outcome of every answer, and that the transaction is handed over at most once and only past every check |
| MasterTx.SendTellsTheTruth | src/evm-master-tx.ts:134-166 | A normal return means the transaction took effect; an error other than ORDER_PENDING means it never did and never will |
| MasterTx.SentIff | src/evm-master-tx.ts:97-167 | Exactly when a send returns: gas, fee and balance known, the balance at least the estimate plus a fifth at the fee's price plus the value, nonce and the sender's signature there, no connect failure or lack of funds at the broadcast, and a receipt of status 1 |
| MasterTx.ErrorsSayWhy | src/evm-master-tx.ts:97-167 | Exactly what each error code says; ORDER_PENDING exactly that the transaction may be in and its receipt is not known |
| MasterTx.CoveredBeforeBroadcast | src/evm-master-tx.ts:106-130 | Nothing is broadcast that the wallet could not pay for at the estimate plus 20%, or that another address signed |
| Bridge.Transfer.EnsureUsdcAllowance | src/bridge-engine.ts:146-154 | Approves, exactly once and exactly the amount, only when the allowance read is below it |
| Bridge.Transfer.CompleteEvmToSolanaMint | src/bridge-engine.ts:1842-1872 | Polls until the first complete attestation or the budget ends, then receives it once; every failure is ORDER_PENDING |
| Bridge.Transfer.ExecuteCctpEvmToSolana | src/bridge-engine.ts:1740-1821 | The whole transfer: checks, approval, fee, burn, and for standard finality the mint |
| Bridge.BridgeOutcomeIsTrue | src/bridge-engine.ts:1759-1820 | A failure other than ORDER_PENDING leaves the USDC at the source with no burn that could still land; a standard return means minted, a fast one burned; in every run the amount is in exactly one place |
| Bridge.CompletesIff | src/bridge-engine.ts:1740-1872 | Exactly when a transfer completes, in terms of the parameters, the answers of the nodes and of the attestation service |
| Bridge.CompleteIff | src/bridge-engine.ts:1856 | An attestation answer completes the wait exactly when its status is "complete", and message and attestation are non-empty and the attestation is not "PENDING" |
| Bridge.ApprovesIff | src/bridge-engine.ts:146-154 | The approval is broadcast exactly when the allowance read is below the amount and nothing stands in its way |
| Bridge.PrecheckCodes | src/bridge-engine.ts:1751-1774 | Which check fails with which code, in the order of the source; with all passed, none |
| Bridge.FundsFollow | src/bridge-engine.ts:1779-1868 | Where the funds are follows from what was broadcast and received: a landed burn took the amount, a received mint gave it |
| Bridge.StepsInOrder | src/bridge-engine.ts:1779-1868 | Whatever anyone answers: at most approval then burn are broadcast, each once; at most one receiveMessage, after the burn, with the complete attestation of the last poll; at most `attempts` polls |
| Bridge.AllowanceIsExact | src/bridge-engine.ts:142-154 | A completed transfer leaves the messenger only what it had beyond the amount; no approval is for more than the transfer |
| UsdcAmount.CanonicalKeepsUnits | src/bridge-engine.ts:47-68 | usdcUnits of an amount is the units of the text it was read from |
| UsdcAmount.UnitsAreExact | src/bridge-engine.ts:59-63 | Those units are exactly a million times the decimal, and positive |
| UsdcAmount.CanonicalOfCanonical | src/bridge-engine.ts:47-57 | Canonicalization is idempotent |
| UsdcAmount.CanonicalIsIdempotent | src/bridge-engine.ts:47-57 | For every u > 0 the printed amount is its own canonical form and parses to u |
| UsdcAmount.EqualUnitsEqualText | src/bridge-engine.ts:47-68 | Two accepted texts are the same amount if and only if their canonical strings are equal |
| UsdcAmount.PrintedUnits | src/bridge-engine.ts:2148-2153 | Parsing what formatUnitsPlain prints gives back the units, zero included |
| UsdcAmount.PrintersAgree | src/onchain-balances.ts:180-181 | The pad-and-strip balance printer and formatUnitsPlain print the same string, for every balance and every positive number of decimals |
| Errors.Walker.Visit | src/errors.ts:366-377 | The closure over one mutable `seen` set terminates on every finite, possibly cyclic error graph and computes the specified walk |
| Errors.WalkSound | src/errors.ts:368-375 | true means no connection was made on every branch the error depends on: a connect-failure code is reachable, and all members of an aggregate failed that way |
| Errors.ConnectFailureIff | src/errors.ts:366-377 | On every error graph, cyclic ones included, in which no never-connected object that is reached is linked to twice (links of unreachable objects and of objects with a connect-failure code of their own do not count), isConnectFailure is true if and only if no connection was made on every branch the error depends on |
| Errors.CyclicErrorIsExact | src/errors.ts:366-377 | A graph whose walk goes round a cycle before it is recognised, with harmless sharing |
| Errors.SharedErrorMissed | src/errors.ts:369-373 | An error object listed twice in `errors` is not recognised, although every member failed to connect |
| Errors.ConnectCodes | src/errors.ts:360 | The codes of a connection that was never made |
| Errors.SendFailure | src/errors.ts:385-390 | The result is definite or ORDER_PENDING, and definite if and only if the thrower said so or no connection was made |
| Errors.IndefiniteCodes | src/errors.ts:290-299 | The codes that leave open whether an order was placed: all but the definite ones |
| EquityTracker.ComputeDailyPnl | src/equity-tracker.ts:105-153 | Instant totals, first and last mark of each date, and the chained daily rows, as the loops over maps compute them |
| EquityTracker.ComputeDrawdown | src/equity-tracker.ts:194-207 | The one-pass peak and drawdown loop |
| EquityTracker.AggregateWeekly | src/equity-tracker.ts:235-263 | Weeks opened and extended row by row, then sorted by Monday |
| EquityProperties.FilteredExactly | src/equity-tracker.ts:107-109 | With an exchange exactly its snapshots, as often as they stand in the history; without, all |
| EquityProperties.TotalsAddUp | src/equity-tracker.ts:111-116 | An instant's total is the sum of the equities taken then |
| EquityProperties.RowsAreDays | src/equity-tracker.ts:118-153 | With or without an exchange, each row ends with its date's latest total and starts where the row before ended, the first row with its date's earliest |
| EquityProperties.DrawdownIsWorstFall | src/equity-tracker.ts:195-206 | For every series the reported drawdown is the maximum over i ≤ j of s[i] - s[j] on the equities preceded by the loop's starting zero, and the peak is that series' maximum |
| EquityProperties.PlainDrawdownIff | src/equity-tracker.ts:195-206 | It is the equities' own largest fall if and only if none lies further below zero than that fall; always so for non-negative equities |
| EquityProperties.NegativeEquityIsAFall | src/equity-tracker.ts:195-203 | A single negative equity is reported as a drawdown |
| EquityProperties.WorstPctIsFirst | src/equity-tracker.ts:195-206 | maxDrawdownPct is the maximum drawdown's share of the peak before the first day that reaches it, 0 while that peak is the starting zero; a later equal fall from another peak does not count |
| EquityProperties.CurrentAtMostWorst | src/equity-tracker.ts:207 | currentDrawdown is between 0 and maxDrawdown |
| EquityProperties.DailyTelescopes | src/equity-tracker.ts:135-172 | Daily results chain and add up to totalReturn |
| EquityProperties.DaysAreDays | src/equity-tracker.ts:118-130 | Without an exchange filter each date's entry is its earliest and latest instant, each with that instant's total |
| EquityProperties.OwnDaysAreDays | src/equity-tracker.ts:118-130 | With an exchange each date's entry is its earliest and latest snapshot, the first of those taken at one instant |
| EquityProperties.WeeklyTelescopes | src/equity-tracker.ts:235-263 | Weekly results of a dated daily series add up to the same total, whatever the time zone's week start |
| EquityProperties.MondayIs | src/equity-tracker.ts:241-245 | A day's week begins at most six days before it, and weeks begin seven days apart |
| EquityProperties.WeeklyRowsAreWeeks | src/equity-tracker.ts:247-263 | Each weekly row starts with the start of its week's first day, ends with the end of its last, and its result is the difference |
| EquityProperties.DailyIsByDate | src/equity-tracker.ts:133-153 | Every daily series is in date order, so its weekly form adds up to its daily form |
| EquityProperties.DailyIgnoresOrder | src/equity-tracker.ts:111-130 | Without an exchange filter the daily series is the same for every order of the snapshots |
| WithdrawGate.Ledger.AssertWithdrawAllowed | src/withdraw-gate.ts:92-114 | Lets through if and only if a gate is set, the amount is finite, positive and within maxPerTx, the destination allowlisted, and with this withdrawal recorded the UTC day stays within maxPerDay; INVALID_PARAMS exactly for a bad amount under a gate, POLICY_DENIED otherwise |
| WithdrawGate.Ledger.SendWithdrawal | src/exchanges/qfex/adapter.ts:1510-1521 | Check, record before sending, forget only what the venue's own test calls a definite refusal (QFEX: a typed error that is not ORDER_PENDING with an HTTP status below 500; Hyperliquid: a definite order failure), and report the send's failure |
| WithdrawGate.ForgetUndoesRecord | src/withdraw-gate.ts:117-128 | Forgetting an attempt restores the ledger exactly |
| WithdrawGate.TotalsAddUp | src/withdraw-gate.ts:79-84 | The day's total is the sum of the amounts of the entries of that venue, network and UTC day, and of no other |
| WithdrawGate.UtcDayIs | src/withdraw-gate.ts:74-76 | A UTC day is the 24 hours from its midnight |
| WithdrawGate.RefusedIff | src/exchanges/qfex/adapter.ts:1510-1521 | An attempt is forgotten exactly after a typed error other than ORDER_PENDING with an HTTP status below 500 (QFEX), or a definite order failure (Hyperliquid) |
| WithdrawGate.LimitsHoldOverRuns | src/withdraw-gate.ts:79-128 | Over every serial run, under any clock, each (venue, network, UTC day) total stays within maxPerDay, every entry is allowlisted and within maxPerTx, and what really left is at most the ledger's total |
| WithdrawGate.GateIsExact | src/withdraw-gate.ts:100-113 | A withdrawal is let through if and only if it meets the limits, and then counts on its own venue, network and day and on no other |

## Left out

- RollbackExactness.RollbackUndoesTheRun: states what each reversal closed instead of a net of zero per symbol, because the net is not always zero; `RollbackExactIff` and `RollbackTotalIff` say exactly when it is on a venue that fills whatever can be filled.
- RollbackExactness.RollbackExactIff: needs such a venue; on one that fills less, what stays depends on its answers during the rollback, as `RollbackUndoesTheRun` bounds it.
- EventStreamProperties.StreamAndLogAgree: with the logger attached it needs well-formed positions; `PollKeepsMapIff` says exactly what happens without them.
- Jobs.ResultKeptIff: states when the job's last result is kept, because it is not always kept; so do `KeptWithoutMark` and `WrittenAfterMark`.
- placePerpVerified (src/bot/perp-order.ts:107-243) is an environment reply bounded by its header comment: a positive fill of at most the size, or a definite or unknown error. Lot tolerance between a reported and a measured fill, and positions moved by someone else, are not modelled.
- symbolMatch's rule for dex-scoped symbols ("xyz:NVDA", src/utils.ts:15-16): markets are symbols without case and "-PERP".
- validatePlan's handling of values that are not objects or strings: steps are typed, with the falsy values the code tests for. The TTL cache, execution log and duration fields of plan results are not part of this model.
- verifyRelayQuote's comparison of the order with the request and relayOrderId's hash (src/relay-swap.ts:220-243, 371-467): guards in one straight line over an opaque hash. Calldata decoding and BigInt of a string are parameters.
- RelaySwap.AwaitRelayFill: speaks of waits that return; with a clock that stands still and no terminal status the source keeps polling, and `WaitEnds` gives the condition under which it does not.
- The command-line parser is a dependency (Commander, version 13) and not part of this model beyond its scan of the root options, taken as src/cli-flags.ts:4-9 describes it: exact names, a value in the next word or attached (`-nX`, `--network=X`), a literal `--`. What the subcommand makes of the words it is left with is not modelled.
- executeRelaySwap's read-only checks before the sends (network, expiry, RPC chain id, token decimals, balances; src/relay-swap.ts:658-691) and the success record it returns.
- Gas: native balances in the relay ledger model do not pay for gas, and a chain's other senders are absent.
- verifyDebridgeEvmTx, Solana instruction building, fee schedules and the Solana side of bridges, beyond whether receiveMessage returned and minted; relay fees on the minted amount.
- The number form of a USDC amount (String of a float); amounts are decimal strings.
- Numbers that underflow: a decimal with more than 300 zeros after the point is refused here for its places, there already as not positive; the error code is the same.
- IEEE rounding and NaN in liquidity, rebalancing, equity and withdraw amounts; sizes and prices are finite reals. The walk's optimality needs a strictly sorted book with positive sizes, since direction is inferred from the first two levels.
- checkSpotPerpLiquidity (src/liquidity.ts:161-214): the same sizing without the 10% buffer.
- Other callbacks that throw: the only callback whose exceptions are modelled is the position logger, and genId is taken never to repeat. File writes of the log do not fail.
- Job removal, tmux and process lookup: the session is a flag, a killed session is gone, nothing is written by a job whose session is gone, and one stopJob is under way on a record.
- Return percentages, Sharpe ratio, best and worst day and win counts of the equity report.
- Timestamps and dates of the equity report are numbers in the order of their ISO strings; daylight-saving changes within a series are not modelled by the one week offset.
- Hyperliquid withdrawals to the owner's own address, which pass no gate (src/commands/funds.ts:91).
- A withdraw ledger that cannot be parsed (every withdrawal is then refused), gates that change during a run, and two processes withdrawing at once: check and record are separate calls.
- Settings validation, venue registries, MCP texts, tables, messaging clients, risk-limit comparisons and the landing page.
