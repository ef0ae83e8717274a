/** src/relay-swap.ts: the verifier of a Relay quote's transactions, the loop that sends them, the
    wait for the fill and the minimum-output rule. */
module RelaySwap {
  import opened Prelude
  import opened Errors
  import opened MasterTx

  // ── The remote answer ──

  datatype Json =
    | Undefined | Null | Bool(b: bool) | Num(n: real) | Str(s: string) | Arr(items: seq<Json>)
    | Obj(fields: map<string, Json>)

  function Field(j: Json, name: string): Json {
    if j.Obj? && name in j.fields then j.fields[name] else Undefined
  }

  /** rec(v)?.name: only a plain object has fields. */
  function ItemsOf(step: Json): Option<seq<Json>> {
    if step.Obj? && Field(step, "kind") == Str("transaction") && Field(step, "items").Arr?
      then Some(Field(step, "items").items) else None
  }

  datatype DepositCall =
    | DepositNative(depositor: string, id: string)
    | DepositErc20(depositor: string, token: string, amount: int, id: string)

  datatype TokenCall = Approve(spender: string, amount: int) | OtherCall

  /** Calldata decoding and BigInt() of a string or number, which throws on None. */
  datatype Abi = Abi(deposit: string -> Option<DepositCall>, token: string -> Option<TokenCall>,
      bigInt: Json -> Option<int>)

  datatype Context = Context(chainId: int, depository: Option<string>, token: string, native: bool, amountIn: int,
      sender: string, orderId: string)

  datatype Kind = ApproveTx | DepositTx

  datatype RelayTx = RelayTx(kind: Kind, to: string, data: string, value: int)

  /** Refused is POLICY_DENIED with nothing signed; Broken is a plain exception. */
  datatype Verdict<T> = Accepted(value: T) | Refused | Broken

  predicate IsHex(c: char) { '0' <= c <= '9' || 'a' <= c <= 'f' || 'A' <= c <= 'F' }

  /** /^0x[0-9a-fA-F]{40}$/ */
  predicate IsEvmAddress(a: string) {
    |a| == 42 && a[0] == '0' && a[1] == 'x' && forall i :: 2 <= i < 42 ==> IsHex(a[i])
  }

  // ── verifyRelaySteps ──

  function DepositVerdict(abi: Abi, ctx: Context, depository: string, data: string, value: int): Verdict<RelayTx> {
    var call := abi.deposit(data);
    if call.None? then Refused
    else
      var c := call.value;
      if Lower(c.id) != Lower(ctx.orderId) || !SameAddress(c.depositor, ctx.sender) || ctx.native != c.DepositNative?
        then Refused
      else if ctx.native then
        if value != ctx.amountIn then Refused else Accepted(RelayTx(DepositTx, depository, data, value))
      else if !SameAddress(c.token, ctx.token) || c.amount != ctx.amountIn || value != 0 then Refused
      else Accepted(RelayTx(DepositTx, depository, data, value))
  }

  function ApproveVerdict(abi: Abi, ctx: Context, depository: string, data: string, value: int): Verdict<RelayTx> {
    var call := abi.token(data);
    if call.None? || call.value.OtherCall? then Refused
    else if !SameAddress(call.value.spender, depository) || call.value.amount != ctx.amountIn || value != 0 then Refused
    else Accepted(RelayTx(ApproveTx, ctx.token, data, 0))
  }

  /** The native value BigInt() reads: a string or number, otherwise 0. */
  function ValueOf(abi: Abi, v: Json): Option<int> {
    if v.Str? || v.Num? then abi.bigInt(v) else Some(0)
  }

  function ItemVerdict(abi: Abi, ctx: Context, depository: string, item: Json): Verdict<RelayTx> {
    var d := Field(item, "data");
    var to, data, from := Field(d, "to"), Field(d, "data"), Field(d, "from");
    if !d.Obj? || !to.Str? || !data.Str? || !IsEvmAddress(to.s) then Refused
    else if Field(d, "chainId") != Num(ctx.chainId as real) then Refused
    else if from.Str? && !SameAddress(from.s, ctx.sender) then Refused
    else
      var value := ValueOf(abi, Field(d, "value"));
      if value.None? then Broken
      else if SameAddress(to.s, depository) then DepositVerdict(abi, ctx, depository, data.s, value.value)
      else if !ctx.native && SameAddress(to.s, ctx.token) then ApproveVerdict(abi, ctx, depository, data.s, value.value)
      else Refused
  }

  function ItemsVerdict(abi: Abi, ctx: Context, depository: string, items: seq<Json>): Verdict<seq<RelayTx>>
  {
    if items == [] then Accepted([])
    else
      var init := ItemsVerdict(abi, ctx, depository, items[..|items| - 1]);
      if !init.Accepted? then init
      else match ItemVerdict(abi, ctx, depository, items[|items| - 1])
        case Accepted(tx) => Accepted(init.value + [tx])
        case Refused => Refused
        case Broken => Broken
  }

  function StepsVerdict(abi: Abi, ctx: Context, depository: string, steps: seq<Json>): Verdict<seq<RelayTx>>
  {
    if steps == [] then Accepted([])
    else
      var init := StepsVerdict(abi, ctx, depository, steps[..|steps| - 1]);
      var items := ItemsOf(steps[|steps| - 1]);
      if !init.Accepted? then init
      else if items.None? then Refused
      else match ItemsVerdict(abi, ctx, depository, items.value)
        case Accepted(txs) => Accepted(init.value + txs)
        case Refused => Refused
        case Broken => Broken
  }

  function Count(txs: seq<RelayTx>, kind: Kind): nat {
    if txs == [] then 0 else Count(txs[..|txs| - 1], kind) + if txs[|txs| - 1].kind == kind then 1 else 0
  }

  function VerifySteps(abi: Abi, ctx: Context, steps: Json): Verdict<seq<RelayTx>> {
    if !steps.Arr? || steps.items == [] then Refused
    else if ctx.depository.None? then Broken
    else
      var txs := StepsVerdict(abi, ctx, ctx.depository.value, steps.items);
      if txs.Accepted?
        && (Count(txs.value, DepositTx) != 1 || Count(txs.value, ApproveTx) > 1
            || txs.value[|txs.value| - 1].kind != DepositTx)
      then Refused else txs
  }

  method VerifyRelaySteps(abi: Abi, ctx: Context, steps: Json) returns (r: Verdict<seq<RelayTx>>)
    ensures r == VerifySteps(abi, ctx, steps)
  {
    hide ItemVerdict, ItemsOf, Count;
    if !steps.Arr? || |steps.items| == 0 { return Refused; }
    if ctx.depository.None? { return Broken; }
    var depository := ctx.depository.value;
    var txs: seq<RelayTx> := [];
    var i := 0;
    while i < |steps.items|
      invariant 0 <= i <= |steps.items|
      invariant StepsVerdict(abi, ctx, depository, steps.items[..i]) == Accepted(txs)
    {
      ghost var before := txs;
      ghost var prefix := steps.items[..i + 1];
      assert prefix[..i] == steps.items[..i] && prefix[i] == steps.items[i];
      var items := ItemsOf(steps.items[i]);
      if items.None? {
        StepsRefused(abi, ctx, depository, steps.items, i + 1);
        return Refused;
      }
      var j := 0;
      while j < |items.value|
        invariant 0 <= j <= |items.value|
        invariant ItemsVerdict(abi, ctx, depository, items.value[..j]).Accepted?
        invariant txs == before + ItemsVerdict(abi, ctx, depository, items.value[..j]).value
      {
        assert items.value[..j + 1][..j] == items.value[..j];
        var v := ItemVerdict(abi, ctx, depository, items.value[j]);
        if !v.Accepted? {
          ItemsRefused(abi, ctx, depository, items.value, j + 1);
          StepsRefused(abi, ctx, depository, steps.items, i + 1);
          return if v.Refused? then Refused else Broken;
        }
        txs := txs + [v.value];
        j := j + 1;
      }
      assert items.value[..j] == items.value;
      i := i + 1;
    }
    assert steps.items[..i] == steps.items;
    var deposits, approves := Count(txs, DepositTx), Count(txs, ApproveTx);
    if txs == [] { CountNone(); }
    if deposits != 1 || approves > 1 || txs[|txs| - 1].kind != DepositTx { return Refused; }
    r := Accepted(txs);
  }

  lemma CountNone()
    ensures forall k: Kind :: Count([], k) == 0
  {
  }

  /** A verdict that fails on a prefix fails the same way on the whole list. */
  lemma {:induction false} ItemsRefused(abi: Abi, ctx: Context, depository: string, items: seq<Json>, n: nat)
    requires n <= |items| && !ItemsVerdict(abi, ctx, depository, items[..n]).Accepted?
    ensures ItemsVerdict(abi, ctx, depository, items) == ItemsVerdict(abi, ctx, depository, items[..n])
  {
    if n < |items| {
      assert items[..|items| - 1][..n] == items[..n];
      ItemsRefused(abi, ctx, depository, items[..|items| - 1], n);
    } else {
      assert items[..n] == items;
    }
  }

  lemma {:induction false} StepsRefused(abi: Abi, ctx: Context, depository: string, steps: seq<Json>, n: nat)
    requires n <= |steps| && !StepsVerdict(abi, ctx, depository, steps[..n]).Accepted?
    ensures StepsVerdict(abi, ctx, depository, steps) == StepsVerdict(abi, ctx, depository, steps[..n])
  {
    if n < |steps| {
      assert steps[..|steps| - 1][..n] == steps[..n];
      StepsRefused(abi, ctx, depository, steps[..|steps| - 1], n);
    } else {
      assert steps[..n] == steps;
    }
  }

  // ── executeRelaySwap: the send loop ──

  /** Hidden chain state, by lower-case address: native balances, ERC-20 balances and allowances by
      token, and the deposits the depository holds for each depositor and order id. */
  datatype Chain = Chain(
    native: map<string, int>, tokens: map<(string, string), int>, allowances: map<(string, string, string), int>,
      credits: seq<Credit>)

  /** `token` is "" for the native asset. */
  datatype Credit = Credit(depositor: string, token: string, amount: int, id: string)

  function Read<K>(m: map<K, int>, k: K): int {
    if k in m then m[k] else 0
  }

  function Move<K>(m: map<K, int>, from: K, to: K, amount: int): map<K, int> {
    var m' := m[from := Read(m, from) - amount];
    m'[to := Read(m', to) + amount]
  }

  /** What a call does on chain: the depository and the input token behave as their interfaces say
      (None: it reverts); any other contract or call does whatever `others` says. */
  function Apply(abi: Abi, ctx: Context, others: (RelayTx, Chain) -> Option<Chain>, tx: RelayTx,
      c: Chain): Option<Chain> {
    var sender := Lower(ctx.sender);
    if ctx.depository.Some? && SameAddress(tx.to, ctx.depository.value) && abi.deposit(tx.data).Some? then
      var depository := Lower(ctx.depository.value);
      match abi.deposit(tx.data).value
      case DepositNative(depositor, id) =>
        if tx.value < 0 || Read(c.native, sender) < tx.value then None
        else Some(c.(native := Move(c.native, sender, depository, tx.value),
                     credits := c.credits + [Credit(Lower(depositor), "", tx.value, Lower(id))]))
      case DepositErc20(depositor, token, amount, id) =>
        var t := Lower(token);
        var spend := (t, sender, depository);
        if tx.value != 0 || amount < 0 || Read(c.allowances, spend) < amount || Read(c.tokens, (t, sender)) < amount
          then None
        else Some(c.(tokens := Move(c.tokens, (t, sender), (t, depository), amount),
                     allowances := c.allowances[spend := Read(c.allowances, spend) - amount],
                     credits := c.credits + [Credit(Lower(depositor), t, amount, Lower(id))]))
    else if !ctx.native && SameAddress(tx.to, ctx.token) && abi.token(tx.data).Some?
      && abi.token(tx.data).value.Approve? then
      var call := abi.token(tx.data).value;
      if tx.value != 0 || call.amount < 0 then None
      else Some(c.(allowances := c.allowances[(Lower(ctx.token), sender, Lower(call.spender)) := call.amount]))
    else others(tx, c)
  }

  function MasterTxOf(ctx: Context, tx: RelayTx): Tx {
    Tx(ctx.sender, tx.to, tx.data, tx.value)
  }

  datatype SendRun = SendRun(failed: Option<Thrown>, approveHash: bool, depositHash: bool, chain: Chain,
      floating: seq<RelayTx>)

  /** The chain after one broadcast, by the transaction's hidden fate. */
  function After(abi: Abi, ctx: Context, others: (RelayTx, Chain) -> Option<Chain>, tx: RelayTx, n: Node,
      c: Chain): Chain {
    if TrueFate(MasterTxOf(ctx, tx), n) == Landed(true) && Apply(abi, ctx, others, tx, c).Some?
      then Apply(abi, ctx, others, tx, c).value else c
  }

  /** Send the first k transactions, each with the node's behaviour; the first error ends the loop. */
  function SendTxs(abi: Abi, ctx: Context, others: (RelayTx, Chain) -> Option<Chain>, txs: seq<RelayTx>,
      nodes: nat -> Node, c: Chain, k: nat): SendRun
    requires k <= |txs|
  {
    if k == 0 then SendRun(None, false, false, c, [])
    else
      var run := SendTxs(abi, ctx, others, txs, nodes, c, k - 1);
      if run.failed.Some? then run
      else
        var tx, n := txs[k - 1], nodes(k - 1);
        var r := Outcome(MasterTxOf(ctx, tx), n);
        SendRun(if r.Sent? then None else Some(r.error),
                run.approveHash || (r.Sent? && tx.kind == ApproveTx),
                run.depositHash || (r.Sent? && tx.kind == DepositTx),
                After(abi, ctx, others, tx, n, run.chain),
                run.floating + if TrueFate(MasterTxOf(ctx, tx), n) == Floating then [tx] else [])
  }

  method SendAll(abi: Abi, ctx: Context, others: (RelayTx, Chain) -> Option<Chain>, txs: seq<RelayTx>,
      nodes: nat -> Node, wallet: Wallet, ghost c: Chain)
    returns (failed: Option<Thrown>, approveHash: bool, depositHash: bool)
    modifies wallet
    ensures var run := SendTxs(abi, ctx, others, txs, nodes, c, |txs|);
            failed == run.failed && approveHash == run.approveHash && depositHash == run.depositHash
    ensures |wallet.broadcasts| <= |old(wallet.broadcasts)| + |txs|
  {
    hide Outcome, After, TrueFate;
    approveHash, depositHash := false, false;
    var i := 0;
    while i < |txs|
      invariant 0 <= i <= |txs|
      invariant var run := SendTxs(abi, ctx, others, txs, nodes, c, i);
                run.failed.None? && approveHash == run.approveHash && depositHash == run.depositHash
      invariant |wallet.broadcasts| <= |old(wallet.broadcasts)| + i
    {
      var r := wallet.SendMasterTx(MasterTxOf(ctx, txs[i]), nodes(i));
      if r.Threw? {
        SendStops(abi, ctx, others, txs, nodes, c, i + 1, |txs|);
        return Some(r.error), approveHash, depositHash;
      }
      if txs[i].kind == ApproveTx { approveHash := true; } else { depositHash := true; }
      i := i + 1;
    }
    failed := None;
  }

  lemma {:induction false} SendStops(abi: Abi, ctx: Context, others: (RelayTx, Chain) -> Option<Chain>,
      txs: seq<RelayTx>, nodes: nat -> Node, c: Chain, i: nat, k: nat)
    requires i <= k <= |txs| && SendTxs(abi, ctx, others, txs, nodes, c, i).failed.Some?
    ensures SendTxs(abi, ctx, others, txs, nodes, c, k) == SendTxs(abi, ctx, others, txs, nodes, c, i)
  {
    if i < k { SendStops(abi, ctx, others, txs, nodes, c, i, k - 1); }
  }

  // ── relayMinOutVerdict ──

  datatype AssetKind = Stable | NativeGas

  datatype Rule = Explicit | Default | RequiredRule

  /** `minOut`: not given, refused as a parameter, or raw units of the output asset. */
  datatype MinOut = NotGiven | BadParam | RawFloor(raw: nat)

  datatype Quote = Quote(inKind: AssetKind, outKind: AssetKind, sameSymbol: bool, inDecimals: nat, outDecimals: nat,
      amountIn: nat, expected: nat, minimum: nat)

  datatype MinOutVerdict = MinOutVerdict(ok: bool, rule: Rule, floor: Option<nat>) | InvalidParams

  /** The amount in, in the output asset's units: scaled up exactly, or down with the remainder dropped. */
  function Scaled(amountIn: nat, inDecimals: nat, outDecimals: nat): nat {
    if outDecimals >= inDecimals then amountIn * Ten(outDecimals - inDecimals)
    else Quot(amountIn, Ten(inDecimals - outDecimals))
  }

  const MAX_SLIPPAGE_BPS := 300
  const MAX_GUARANTEED_LOSS_BPS := 600

  function LessBps(scaled: nat, bps: nat): nat
    requires bps <= 10000
  {
    scaled * (10000 - bps) / 10000
  }

  function MinOutOf(q: Quote, minOut: MinOut): MinOutVerdict {
    if minOut.BadParam? then InvalidParams
    else if minOut.RawFloor? then MinOutVerdict(q.minimum >= minOut.raw, Explicit, Some(minOut.raw))
    else if !((q.inKind.Stable? && q.outKind.Stable?)
              || (q.inKind.NativeGas? && q.outKind.NativeGas? && q.sameSymbol)) then
      MinOutVerdict(false, RequiredRule, None)
    else
      var scaled := Scaled(q.amountIn, q.inDecimals, q.outDecimals);
      var floor := LessBps(scaled, MAX_SLIPPAGE_BPS);
      MinOutVerdict(q.expected >= floor && q.minimum >= LessBps(scaled, MAX_GUARANTEED_LOSS_BPS), Default, Some(floor))
  }

  // ── awaitRelayFill ──

  /** One answer of the status endpoint: an exception, a non-2xx or statusless answer, or a status. */
  datatype Answer = Unreadable | NotOk | Fill(status: string)

  datatype FillResult = Filled | FillError(code: ErrorCode)

  /** The statuses that end the wait, and what it then reports. */
  predicate Reports(a: Answer, r: FillResult) {
    || (a == Fill("success") && r == Filled)
    || (a == Fill("refund") && r == FillError(ACTION_REJECTED))
    || (a == Fill("failure") && r == FillError(ORDER_PENDING))
  }

  predicate Conclusive(a: Answer) {
    a in {Fill("success"), Fill("refund"), Fill("failure")}
  }

  /** The clock is read once before the loop and once after every inconclusive poll; between two
      polls the process sleeps, so the clock moves on by at least the poll interval. */
  ghost predicate SleepsReally(now: nat -> int, pollMs: int) {
    && pollMs > 0 && now(1) >= now(0)
    && forall k: nat :: k >= 1 ==> now(k + 1) >= now(k) + pollMs
  }

  /** After poll k the wait ends: the answer is terminal, or another poll would be past the deadline. */
  predicate EndsAt(answers: nat -> Answer, now: nat -> int, timeoutMs: int, pollMs: int, k: nat) {
    Conclusive(answers(k)) || now(k + 1) + pollMs > now(0) + timeoutMs
  }

  /** For every wait that returns at all (`end` is some poll that ends it): it ends after the first poll that does. */
  method AwaitRelayFill(answers: nat -> Answer, now: nat -> int, timeoutMs: int, pollMs: int, ghost end: nat)
      returns (r: FillResult, polls: nat)
    requires EndsAt(answers, now, timeoutMs, pollMs, end)
    ensures polls >= 1 && EndsAt(answers, now, timeoutMs, pollMs, polls - 1)
    ensures forall k: nat :: k < polls - 1 ==> !EndsAt(answers, now, timeoutMs, pollMs, k)
    ensures if Conclusive(answers(polls - 1)) then Reports(answers(polls - 1), r) else r == FillError(ORDER_PENDING)
  {
    var deadline := now(0) + timeoutMs;
    polls := 0;
    while true
      invariant forall k: nat :: k < polls ==> !EndsAt(answers, now, timeoutMs, pollMs, k)
      decreases end - polls
    {
      var a := answers(polls);
      polls := polls + 1;
      if a.Fill? {
        if a.status == "success" { r := Filled; break; }
        if a.status == "refund" { r := FillError(ACTION_REJECTED); break; }
        if a.status == "failure" { r := FillError(ORDER_PENDING); break; }
      }
      if now(polls) + pollMs > deadline { r := FillError(ORDER_PENDING); break; }
    }
  }

  /** With a clock that moves on while the process sleeps, the wait always returns, within the timeout's polls. */
  lemma {:induction false} WaitEnds(answers: nat -> Answer, now: nat -> int, timeoutMs: int, pollMs: int)
      returns (end: nat)
    requires SleepsReally(now, pollMs)
    ensures EndsAt(answers, now, timeoutMs, pollMs, end) && end * pollMs <= Max0(timeoutMs)
    ensures forall k: nat :: k < end ==> !EndsAt(answers, now, timeoutMs, pollMs, k)
  {
    end := 0;
    while !EndsAt(answers, now, timeoutMs, pollMs, end)
      invariant forall k: nat :: k < end ==> !EndsAt(answers, now, timeoutMs, pollMs, k)
      invariant now(end + 1) >= now(0) + end * pollMs
      invariant end * pollMs <= Max0(timeoutMs)
      decreases now(0) + timeoutMs - now(end + 1)
    {
      assert now(end + 2) >= now(end + 1) + pollMs;
      end := end + 1;
    }
  }

  function Max0(x: int): int { if x > 0 then x else 0 }
}
