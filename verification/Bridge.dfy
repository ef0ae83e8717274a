/** src/bridge-engine.ts: the EVM → Solana CCTP transfer (approve, burn, wait for the attestation,
    mint), run against nodes, an attestation service and a mint that may answer anything. */
module Bridge {
  import opened Prelude
  import opened Errors
  import opened MasterTx

  /** One entry of an Iris answer; a field is None when absent. */
  datatype Message = Message(status: Option<string>, message: Option<string>, attestation: Option<string>)

  /** One poll: not 2xx, an exception, or a body with its first message. */
  datatype Poll = NotOk | Failed | Body(first: Option<Message>)

  /** receiveMessage: it returned a signature or threw, and whether the mint really happened. */
  datatype Receive = Receive(returned: bool, minted: bool)

  datatype Env = Env(
    amount: Option<nat>,           // exact USDC units, None when the amount is refused
    signer: bool,                  // an EVM signer was supplied
    configured: bool,              // the source chain has USDC and a CCTP messenger
    payer: bool,                   // a Solana signer was supplied
    chain: Option<bool>,           // the RPC serves the pinned chain id
    balance: Option<nat>,          // USDC balance read
    allowance: Option<nat>,        // allowance read
    approve: Node, feeRead: bool, recipient: bool, burn: Node,
    polls: nat -> Poll, receive: (string, string) -> Receive,
    sender: string, usdc: string, messenger: string, approveData: string, burnData: string)

  datatype BridgeResult = Done | Failure(error: Thrown)

  function ApproveTx(env: Env): Tx { Tx(env.sender, env.usdc, env.approveData, 0) }

  function BurnTx(env: Env): Tx { Tx(env.sender, env.messenger, env.burnData, 0) }

  /** Hidden: where the USDC is, the messenger's allowance, and whether a burn may still land. */
  datatype Funds = Funds(source: int, burned: int, minted: int, allowance: int, burnFloats: bool)

  // ── ensureUsdcAllowance ──

  datatype Leg = Leg(failed: Option<Thrown>, sent: seq<Tx>, funds: Funds)

  function Broadcasts(t: Tx, n: Node): seq<Tx> {
    if Refusal(t, n).Some? then [] else [t]
  }

  function SendError(r: SendResult): Option<Thrown> {
    if r.Sent? then None else Some(r.error)
  }

  function AllowanceLeg(env: Env, amount: nat, f: Funds): Leg {
    if env.allowance.None? then Leg(Some(RAW), [], f)
    else if env.allowance.value >= amount then Leg(None, [], f)
    else Leg(SendError(Outcome(ApproveTx(env), env.approve)), Broadcasts(ApproveTx(env), env.approve),
             if TrueFate(ApproveTx(env), env.approve) == Landed(true) then f.(allowance := amount) else f)
  }

  function BurnLeg(env: Env, amount: nat, f: Funds): Leg {
    var fate := TrueFate(BurnTx(env), env.burn);
    Leg(SendError(Outcome(BurnTx(env), env.burn)), Broadcasts(BurnTx(env), env.burn),
        if fate == Landed(true)
          then f.(source := f.source - amount, burned := f.burned + amount, allowance := f.allowance - amount)
        else if fate == Floating then f.(burnFloats := true) else f)
  }

  // ── completeEvmToSolanaMint ──

  /** An attestation the source accepts: status "complete" and both fields non-empty and not pending. */
  predicate Complete(p: Poll) {
    && p.Body? && p.first.Some?
    && var m := p.first.value;
       m.status == Some("complete") && m.message.Some? && m.message.value != ""
       && m.attestation.Some? && m.attestation.value != "" && m.attestation.value != "PENDING"
  }

  /** The first complete answer among polls [i, attempts). */
  function FirstComplete(polls: nat -> Poll, i: nat, attempts: nat): (k: Option<nat>)
    ensures k.Some? ==> i <= k.value < attempts && Complete(polls(k.value))
    ensures forall j :: i <= j < (if k.Some? then k.value else attempts) ==> !Complete(polls(j))
    decreases attempts - i
  {
    if i >= attempts then None else if Complete(polls(i)) then Some(i) else FirstComplete(polls, i + 1, attempts)
  }

  datatype MintRun = MintRun(failed: Option<Thrown>, polls: nat, received: seq<(string, string)>, minted: bool)

  function Mint(env: Env, attempts: nat): MintRun {
    var k := FirstComplete(env.polls, 0, attempts);
    if k.None? then MintRun(Some(Typed(ORDER_PENDING)), attempts, [], false)
    else
      var m := env.polls(k.value).first.value;
      var r := env.receive(m.message.value, m.attestation.value);
      MintRun(if r.returned then None else Some(Typed(ORDER_PENDING)), k.value + 1,
              [(m.message.value, m.attestation.value)], r.minted)
  }

  // ── executeCctpEvmToSolana ──

  datatype Run = Run(result: BridgeResult, sent: seq<Tx>, polls: nat, received: seq<(string, string)>, funds: Funds)

  /** Checks before anything is sent, in the source's order. */
  function Precheck(env: Env, fast: bool): Option<Thrown> {
    if env.amount.None? then Some(Typed(INVALID_PARAMS))
    else if !env.signer then Some(Typed(NO_SIGNER_AVAILABLE))
    else if !env.configured then Some(Typed(NO_BRIDGE_ROUTE))
    else if !fast && !env.payer then Some(Typed(NO_SIGNER_AVAILABLE))
    else if env.chain.None? then Some(RAW)
    else if !env.chain.value then Some(Typed(EXCHANGE_ERROR))
    else if env.balance.None? then Some(RAW)
    else if env.balance.value < env.amount.value then Some(Typed(INSUFFICIENT_BALANCE))
    else None
  }

  function Execute(env: Env, fast: bool, attempts: nat, f: Funds): Run {
    if Precheck(env, fast).Some? then Run(Failure(Precheck(env, fast).value), [], 0, [], f)
    else
      var amount := env.amount.value;
      var a := AllowanceLeg(env, amount, f);
      if a.failed.Some? then Run(Failure(a.failed.value), a.sent, 0, [], a.funds)
      else if !env.feeRead || !env.recipient then Run(Failure(RAW), a.sent, 0, [], a.funds)
      else
        var b := BurnLeg(env, amount, a.funds);
        var sent := a.sent + b.sent;
        if b.failed.Some? then Run(Failure(b.failed.value), sent, 0, [], b.funds)
        else if fast then Run(Done, sent, 0, [], b.funds)
        else
          var m := Mint(env, attempts);
          Run(if m.failed.Some? then Failure(m.failed.value) else Done, sent, m.polls, m.received,
              if m.minted then b.funds.(burned := b.funds.burned - amount, minted := b.funds.minted + amount)
              else b.funds)
  }

  /** One transfer: its wallet connection, its poll count and its receiveMessage calls. */
  class Transfer {
    const env: Env
    const wallet: Wallet
    var polls: nat
    var received: seq<(string, string)>

    constructor (env: Env)
      ensures this.env == env && fresh(wallet) && wallet.broadcasts == [] && polls == 0 && received == []
    {
      this.env := env;
      wallet := new Wallet();
      polls, received := 0, [];
    }

    method EnsureUsdcAllowance(amount: nat, ghost f: Funds) returns (failed: Option<Thrown>)
      modifies wallet
      ensures failed == AllowanceLeg(env, amount, f).failed
      ensures wallet.broadcasts == old(wallet.broadcasts) + AllowanceLeg(env, amount, f).sent
    {
      if env.allowance.None? { return Some(RAW); }
      if env.allowance.value >= amount { return None; }
      var r := wallet.SendMasterTx(Tx(env.sender, env.usdc, env.approveData, 0), env.approve);
      failed := if r.Sent? then None else Some(r.error);
    }

    method CompleteEvmToSolanaMint(attempts: nat) returns (failed: Option<Thrown>)
      requires polls == 0 && received == []
      modifies this
      ensures failed == Mint(env, attempts).failed && polls == Mint(env, attempts).polls
              && received == Mint(env, attempts).received
    {
      var message: Option<string>, attestation: Option<string> := None, None;
      ghost var first := FirstComplete(env.polls, 0, attempts);
      while polls < attempts && message.None?
        invariant polls <= attempts && received == []
        invariant message.None? ==> attestation.None? && first == FirstComplete(env.polls, polls, attempts)
        invariant message.Some? ==> polls > 0 && first == Some(polls - 1) && Complete(env.polls(polls - 1))
        invariant message.Some? ==> message == env.polls(polls - 1).first.value.message
                                    && attestation == env.polls(polls - 1).first.value.attestation
      {
        var p := env.polls(polls);
        polls := polls + 1;
        if Complete(p) {
          message, attestation := p.first.value.message, p.first.value.attestation;
        }
      }
      if message.None? || attestation.None? { return Some(Typed(ORDER_PENDING)); }
      received := received + [(message.value, attestation.value)];
      var r := env.receive(message.value, attestation.value);
      failed := if r.returned then None else Some(Typed(ORDER_PENDING));
    }

    method ExecuteCctpEvmToSolana(fast: bool, attempts: nat, ghost f: Funds) returns (r: BridgeResult)
      requires wallet.broadcasts == [] && polls == 0 && received == []
      modifies this, wallet
      ensures r == Execute(env, fast, attempts, f).result
      ensures wallet.broadcasts == Execute(env, fast, attempts, f).sent
      ensures polls == Execute(env, fast, attempts, f).polls && received == Execute(env, fast, attempts, f).received
    {
      hide Outcome, Refusal, Mint;
      if env.amount.None? { return Failure(Typed(INVALID_PARAMS)); }
      if !env.signer { return Failure(Typed(NO_SIGNER_AVAILABLE)); }
      if !env.configured { return Failure(Typed(NO_BRIDGE_ROUTE)); }
      if !fast && !env.payer { return Failure(Typed(NO_SIGNER_AVAILABLE)); }
      if env.chain.None? { return Failure(RAW); }
      if !env.chain.value { return Failure(Typed(EXCHANGE_ERROR)); }
      if env.balance.None? { return Failure(RAW); }
      var amount := env.amount.value;
      if env.balance.value < amount { return Failure(Typed(INSUFFICIENT_BALANCE)); }

      var failed := EnsureUsdcAllowance(amount, f);
      if failed.Some? { return Failure(failed.value); }
      if !env.feeRead || !env.recipient { return Failure(RAW); }
      var burned := wallet.SendMasterTx(Tx(env.sender, env.messenger, env.burnData, 0), env.burn);
      if burned.Threw? { return Failure(burned.error); }
      if fast { return Done; }
      failed := CompleteEvmToSolanaMint(attempts);
      if failed.Some? { return Failure(failed.value); }
      r := Done;
    }
  }

  // ── Outcome typing against the hidden funds ──

  /** All that is assumed: the nodes are honest, and receiveMessage returns only for a mint that happened. */
  ghost predicate HonestEnv(env: Env) {
    && MasterTx.Honest(env.approve) && MasterTx.Honest(env.burn)
    && (forall m: string, a: string :: env.receive(m, a).returned ==> env.receive(m, a).minted)
  }

  /** The transfer never happened and never will. */
  predicate StillAtSource(f: Funds, g: Funds) {
    g.source == f.source && g.burned == f.burned && g.minted == f.minted && g.burnFloats == f.burnFloats
  }

  /** The whole amount left the source, and is burned or minted. */
  predicate Moved(f: Funds, g: Funds, amount: Option<nat>) {
    && amount.Some? && g.source == f.source - amount.value
    && ((g.burned == f.burned + amount.value && g.minted == f.minted)
        || (g.burned == f.burned && g.minted == f.minted + amount.value))
  }

  /** A failure that is not ORDER_PENDING leaves the USDC at the source, with no burn that could
      still land; a normal return of a standard transfer means it was minted, of a fast one that it
      was burned for Circle to mint; and in every run the amount is in exactly one of the three places. */
  lemma {:induction false} BridgeOutcomeIsTrue(env: Env, fast: bool, attempts: nat, f: Funds)
    requires HonestEnv(env)
    ensures var run := Execute(env, fast, attempts, f);
            && (run.result.Failure? && !IsOutcomeUnknown(run.result.error) ==> StillAtSource(f, run.funds))
            && (run.result.Done? ==>
                 && env.amount.Some? && run.funds.source == f.source - env.amount.value
                    && run.funds.burnFloats == f.burnFloats
                 && if fast then run.funds.burned == f.burned + env.amount.value && run.funds.minted == f.minted
                    else run.funds.burned == f.burned && run.funds.minted == f.minted + env.amount.value)
            && (StillAtSource(f, run.funds.(burnFloats := f.burnFloats)) || Moved(f, run.funds, env.amount))
  {
    hide Outcome, Refusal, TrueFate, MasterTx.Honest;
    SendTellsTheTruth(ApproveTx(env), env.approve);
    SendTellsTheTruth(BurnTx(env), env.burn);
  }

  /** Whatever anyone answers: the wallet broadcasts at most the approval and then the burn, each
      once; a mint is attempted at most once, only after the burn, and only with the complete
      attestation the last poll returned; at most `attempts` polls are made, none before the burn. */
  lemma StepsInOrder(env: Env, fast: bool, attempts: nat, f: Funds)
    ensures var run := Execute(env, fast, attempts, f);
            var approve := Tx(env.sender, env.usdc, env.approveData, 0);
            var burn := Tx(env.sender, env.messenger, env.burnData, 0);
            && (run.sent == [] || run.sent == [approve] || run.sent == [burn] || run.sent == [approve, burn])
            && run.polls <= attempts && |run.received| <= 1
            && (run.polls > 0 || run.received != [] ==>
                !fast && run.sent != [] && run.sent[|run.sent| - 1] == burn)
            && PollsThenReceive(env, run)
  {
    hide Outcome, TrueFate, Refusal, Mint, Complete;
    SentIsBroadcast(BurnTx(env), env.burn);
    MintInOrder(env, attempts);
  }

  /** Polling stops at the first complete attestation, and that attestation is what is received. */
  ghost predicate PollsThenReceive(env: Env, run: Run) {
    && (forall j :: 0 <= j < run.polls - 1 ==> !Complete(env.polls(j)))
    && (run.received != [] ==>
         && run.polls > 0 && Complete(env.polls(run.polls - 1))
         && run.received == [(env.polls(run.polls - 1).first.value.message.value,
                              env.polls(run.polls - 1).first.value.attestation.value)])
  }

  lemma MintInOrder(env: Env, attempts: nat)
    ensures var m := Mint(env, attempts);
            && m.polls <= attempts && |m.received| <= 1 && (m.received != [] ==> m.polls > 0)
            && forall r: BridgeResult, sent: seq<Tx>, funds: Funds ::
               PollsThenReceive(env, Run(r, sent, m.polls, m.received, funds))
  {
  }

  lemma SentIsBroadcast(t: Tx, n: Node)
    ensures Outcome(t, n).Sent? ==> Refusal(t, n).None?
  {
  }

  /** The approval is never for more than this transfer: with an honest allowance read, a completed
      transfer leaves the messenger what it had beyond the amount, and nothing if it had less. */
  lemma AllowanceIsExact(env: Env, fast: bool, attempts: nat, f: Funds)
    requires HonestEnv(env) && env.allowance == Some(f.allowance)
    ensures var run := Execute(env, fast, attempts, f);
            && (run.result.Done? ==>
                run.funds.allowance == if f.allowance >= env.amount.value then f.allowance - env.amount.value else 0)
            && (run.funds.allowance <= f.allowance || (env.amount.Some? && run.funds.allowance <= env.amount.value))
  {
    hide Outcome, Refusal, TrueFate, MasterTx.Honest;
    SendTellsTheTruth(ApproveTx(env), env.approve);
    SendTellsTheTruth(BurnTx(env), env.burn);
  }

  /** The text of an attestation that can be used. */
  predicate Usable(text: Option<string>) {
    text.Some? && text.value != ""
  }

  /** An answer of the attestation service that completes the wait. */
  lemma CompleteIff(p: Poll)
    ensures Complete(p) <==>
              p.Body? && p.first.Some? && p.first.value.status == Some("complete") && Usable(p.first.value.message)
              && Usable(p.first.value.attestation) && p.first.value.attestation != Some("PENDING")
  {
  }

  /** A transfer completes exactly when its parameters, signers, chain and balance are in order, the allowance
      suffices or its approval was sent, fee and recipient are known, the burn was sent, and, unless fast,
      one of the polls completes the wait and receiveMessage returns for the first that does. */
  lemma {:induction false} CompletesIff(env: Env, fast: bool, attempts: nat, f: Funds)
    ensures Execute(env, fast, attempts, f).result.Done? <==>
              && env.amount.Some? && env.signer && env.configured && (fast || env.payer)
              && env.chain == Some(true) && env.balance.Some? && env.balance.value >= env.amount.value
              && env.allowance.Some?
              && (env.allowance.value >= env.amount.value || Outcome(ApproveTx(env), env.approve).Sent?)
              && env.feeRead && env.recipient && Outcome(BurnTx(env), env.burn).Sent?
              && (fast || exists k :: 0 <= k < attempts && Complete(env.polls(k))
                                      && (forall j :: 0 <= j < k ==> !Complete(env.polls(j)))
                                      && MintReturns(env, k))
  {
    hide Outcome, Complete, TrueFate, Refusal;
    var first := FirstComplete(env.polls, 0, attempts);
    CompleteHasTexts(env);
    if first.Some? {
      var k := first.value;
      if k' :| 0 <= k' < attempts && Complete(env.polls(k')) && forall j :: 0 <= j < k' ==> !Complete(env.polls(j)) {
        assert k' == k;
      }
    }
  }

  lemma CompleteHasTexts(env: Env)
    ensures forall k: nat :: Complete(env.polls(k)) ==>
              var p := env.polls(k);
              p.Body? && p.first.Some? && p.first.value.message.Some? && p.first.value.attestation.Some?
  {
  }

  /** receiveMessage returns for the attestation of poll `k`. */
  predicate MintReturns(env: Env, k: nat) {
    && env.polls(k).Body? && env.polls(k).first.Some?
    && var m := env.polls(k).first.value;
       m.message.Some? && m.attestation.Some? && env.receive(m.message.value, m.attestation.value).returned
  }

  /** The approval is broadcast exactly when the allowance read is short of the amount (and nothing stands in
      its way at the node). */
  lemma ApprovesIff(env: Env, amount: nat, f: Funds)
    ensures AllowanceLeg(env, amount, f).sent
            == if env.allowance.Some? && env.allowance.value < amount && Refusal(ApproveTx(env), env.approve).None?
               then [ApproveTx(env)] else []
    ensures AllowanceLeg(env, amount, f).failed.None? <==>
              env.allowance.Some? && (env.allowance.value >= amount || Outcome(ApproveTx(env), env.approve).Sent?)
  {
    hide Outcome, Refusal, TrueFate;
  }

  /** The checks fail with the code of the first that does; none of them sends anything. */
  lemma PrecheckCodes(env: Env, fast: bool)
    ensures Precheck(env, fast) == Some(Typed(INVALID_PARAMS)) <==> env.amount.None?
    ensures Precheck(env, fast) == Some(Typed(NO_BRIDGE_ROUTE)) <==> env.amount.Some? && env.signer && !env.configured
    ensures Precheck(env, fast) == Some(Typed(NO_SIGNER_AVAILABLE)) <==>
              env.amount.Some? && (!env.signer || (env.configured && !fast && !env.payer))
    ensures Precheck(env, fast) == Some(Typed(EXCHANGE_ERROR)) <==>
              env.amount.Some? && env.signer && env.configured && (fast || env.payer) && env.chain == Some(false)
    ensures Precheck(env, fast) == Some(Typed(INSUFFICIENT_BALANCE)) <==>
              env.amount.Some? && env.signer && env.configured && (fast || env.payer) && env.chain == Some(true)
              && env.balance.Some? && env.balance.value < env.amount.value
    ensures Precheck(env, fast).None? <==>
              env.amount.Some? && env.signer && env.configured && (fast || env.payer) && env.chain == Some(true)
              && env.balance.Some? && env.balance.value >= env.amount.value
  {
  }

  /** Where the funds are follows from what was broadcast and received: the burn took the amount when it landed
      and may still land when it floats, and the mint happened when the one receiveMessage did. */
  lemma FundsFollow(env: Env, fast: bool, attempts: nat, f: Funds)
    requires ApproveTx(env) != BurnTx(env)
    ensures var run := Execute(env, fast, attempts, f);
            var burnt := BurnTx(env) in run.sent && env.burn.fate == Landed(true);
            var minted := run.received != [] && env.receive(run.received[0].0, run.received[0].1).minted;
            && (burnt || minted ==> env.amount.Some?)
            && run.funds.source == f.source - (if burnt then env.amount.value else 0)
            && run.funds.minted == f.minted + (if minted then env.amount.value else 0)
            && run.funds.burned == f.burned + (if burnt then env.amount.value else 0)
                                   - (if minted then env.amount.value else 0)
            && (run.funds.burnFloats <==> f.burnFloats || (BurnTx(env) in run.sent && env.burn.fate == Floating))
  {
    hide Outcome, Refusal, Complete;
    SentIsBroadcast(BurnTx(env), env.burn);
  }
}
