/** What an accepted Relay quote does on chain, what a failed send leaves behind, and how tight the
    minimum-output rule is. */
module RelayProperties {
  import opened Prelude
  import opened Errors
  import opened MasterTx
  import opened RelaySwap

  // ── The accepted list ──

  /** A step of the answer that is an object of kind "transaction" with an array of items. */
  predicate IsTransactionStep(step: Json) {
    && step.Obj? && "kind" in step.fields && step.fields["kind"] == Str("transaction")
    && "items" in step.fields && step.fields["items"].Arr?
  }

  /** Every transaction of the remote answer: the items of its transaction steps, in order. */
  function AllItems(steps: seq<Json>): seq<Json> {
    if steps == [] then []
    else
      var last := steps[|steps| - 1];
      AllItems(steps[..|steps| - 1]) + (if IsTransactionStep(last) then last.fields["items"].items else [])
  }

  lemma ItemsOfIs(step: Json)
    ensures ItemsOf(step) == if IsTransactionStep(step) then Some(step.fields["items"].items) else None
  {
  }

  /** The field `name` of an object, when it is a string. */
  predicate HasText(o: Json, name: string, s: string) {
    o.Obj? && name in o.fields && o.fields[name] == Str(s)
  }

  /** The calldata of an item. */
  predicate HasCalldata(item: Json, data: string) {
    item.Obj? && "data" in item.fields && HasText(item.fields["data"], "data", data)
  }

  predicate GoodDeposit(abi: Abi, ctx: Context, tx: RelayTx) {
    && ctx.depository.Some? && tx.kind == DepositTx && tx.to == ctx.depository.value && abi.deposit(tx.data).Some?
    && match abi.deposit(tx.data).value
       case DepositNative(depositor, id) =>
         ctx.native && tx.value == ctx.amountIn && Lower(depositor) == Lower(ctx.sender)
           && Lower(id) == Lower(ctx.orderId)
       case DepositErc20(depositor, token, amount, id) =>
         !ctx.native && tx.value == 0 && amount == ctx.amountIn && Lower(token) == Lower(ctx.token)
         && Lower(depositor) == Lower(ctx.sender) && Lower(id) == Lower(ctx.orderId)
  }

  predicate GoodApprove(abi: Abi, ctx: Context, tx: RelayTx) {
    && ctx.depository.Some? && !ctx.native && !SameAddress(ctx.token, ctx.depository.value)
    && tx.kind == ApproveTx && tx.to == ctx.token && tx.value == 0
    && abi.token(tx.data).Some? && abi.token(tx.data).value.Approve?
    && Lower(abi.token(tx.data).value.spender) == Lower(ctx.depository.value)
       && abi.token(tx.data).value.amount == ctx.amountIn
  }

  predicate Good(abi: Abi, ctx: Context, tx: RelayTx) {
    GoodDeposit(abi, ctx, tx) || GoodApprove(abi, ctx, tx)
  }

  lemma ItemIsGood(abi: Abi, ctx: Context, item: Json)
    requires ctx.depository.Some? && ItemVerdict(abi, ctx, ctx.depository.value, item).Accepted?
    ensures Good(abi, ctx, ItemVerdict(abi, ctx, ctx.depository.value, item).value)
    ensures HasCalldata(item, ItemVerdict(abi, ctx, ctx.depository.value, item).value.data)
  {
  }

  /** The verified transactions are the remote answer's, one for one and in order. */
  ghost predicate Verified(abi: Abi, ctx: Context, items: seq<Json>, txs: seq<RelayTx>) {
    |txs| == |items| && forall k :: 0 <= k < |txs| ==>
      Good(abi, ctx, txs[k]) && HasCalldata(items[k], txs[k].data)
  }

  lemma {:induction false} ItemsAreVerified(abi: Abi, ctx: Context, items: seq<Json>)
    requires ctx.depository.Some? && ItemsVerdict(abi, ctx, ctx.depository.value, items).Accepted?
    ensures Verified(abi, ctx, items, ItemsVerdict(abi, ctx, ctx.depository.value, items).value)
  {
    hide ItemVerdict, Good;
    if items != [] {
      ItemsAreVerified(abi, ctx, items[..|items| - 1]);
      ItemIsGood(abi, ctx, items[|items| - 1]);
    }
  }

  lemma {:induction false} StepsAreVerified(abi: Abi, ctx: Context, steps: seq<Json>)
    requires ctx.depository.Some? && StepsVerdict(abi, ctx, ctx.depository.value, steps).Accepted?
    ensures Verified(abi, ctx, AllItems(steps), StepsVerdict(abi, ctx, ctx.depository.value, steps).value)
  {
    hide ItemsVerdict, Good, ItemsOf;
    if steps != [] { ItemsOfIs(steps[|steps| - 1]); }
    if steps != [] {
      StepsAreVerified(abi, ctx, steps[..|steps| - 1]);
      ItemsAreVerified(abi, ctx, ItemsOf(steps[|steps| - 1]).value);
    }
  }

  lemma {:induction false} CountsAddUp(txs: seq<RelayTx>)
    ensures Count(txs, DepositTx) + Count(txs, ApproveTx) == |txs|
  {
    if txs != [] { CountsAddUp(txs[..|txs| - 1]); }
  }

  lemma CountTwo(txs: seq<RelayTx>)
    requires |txs| == 2
    ensures forall k: Kind :: Count(txs, k) == (if txs[0].kind == k then 1 else 0) + (if txs[1].kind == k then 1 else 0)
  {
    assert txs[..1][..0] == [] && txs[..1][0] == txs[0];
    forall k: Kind ensures Count(txs, k) == (if txs[0].kind == k then 1 else 0) + (if txs[1].kind == k then 1 else 0) {
      assert Count(txs[..1][..0], k) == 0;
    }
  }

  /** Whatever the remote service sends, an accepted quote is one deposit, or one approval and then
      one deposit: no transaction of the answer is dropped, added, or left unchecked. */
  lemma AcceptedShape(abi: Abi, ctx: Context, steps: Json)
    requires VerifySteps(abi, ctx, steps).Accepted?
    ensures var txs := VerifySteps(abi, ctx, steps).value;
            && steps.Arr? && (forall k :: 0 <= k < |steps.items| ==> IsTransactionStep(steps.items[k]))
            && Verified(abi, ctx, AllItems(steps.items), txs)
            && ((|txs| == 1 && GoodDeposit(abi, ctx, txs[0]))
                || (|txs| == 2 && GoodApprove(abi, ctx, txs[0]) && GoodDeposit(abi, ctx, txs[1])))
  {
    hide StepsVerdict, IsTransactionStep;
    var txs := VerifySteps(abi, ctx, steps).value;
    AcceptedStepsHaveItems(abi, ctx, ctx.depository.value, steps.items);
    StepsAreVerified(abi, ctx, steps.items);
    CountsAddUp(txs);
    if |txs| == 2 { CountTwo(txs); }
  }

  lemma {:induction false} ItemsConcat(abi: Abi, ctx: Context, depository: string, a: seq<Json>, b: seq<Json>)
    ensures var va, vb, v := ItemsVerdict(abi, ctx, depository, a), ItemsVerdict(abi, ctx, depository, b),
            ItemsVerdict(abi, ctx, depository, a + b);
            v == if !va.Accepted? then va else if !vb.Accepted? then vb else Accepted(va.value + vb.value)
  {
    hide ItemVerdict;
    if b == [] {
      assert a + b == a;
      var va := ItemsVerdict(abi, ctx, depository, a);
      if va.Accepted? { assert va.value + [] == va.value; }
    } else {
      assert (a + b)[..|a + b| - 1] == a + b[..|b| - 1];
      ItemsConcat(abi, ctx, depository, a, b[..|b| - 1]);
      assert (a + b)[|a + b| - 1] == b[|b| - 1];
      var va, vi := ItemsVerdict(abi, ctx, depository, a), ItemsVerdict(abi, ctx, depository, b[..|b| - 1]);
      var last := ItemVerdict(abi, ctx, depository, b[|b| - 1]);
      if va.Accepted? && vi.Accepted? && last.Accepted? {
        assert (va.value + vi.value) + [last.value] == va.value + (vi.value + [last.value]);
      }
    }
  }

  /** How the service groups transactions into steps does not matter: the verdict is that of the
      flat list of transactions. */
  lemma {:induction false} GroupingIsIrrelevant(abi: Abi, ctx: Context, depository: string, steps: seq<Json>)
    requires forall k :: 0 <= k < |steps| ==> IsTransactionStep(steps[k])
    ensures StepsVerdict(abi, ctx, depository, steps) == ItemsVerdict(abi, ctx, depository, AllItems(steps))
  {
    hide ItemVerdict, ItemsOf;
    if steps != [] {
      var n := |steps| - 1;
      ItemsOfIs(steps[n]);
      GroupingIsIrrelevant(abi, ctx, depository, steps[..n]);
      ItemsConcat(abi, ctx, depository, AllItems(steps[..n]), ItemsOf(steps[n]).value);
    }
  }

  /** "0x" and 40 hexadecimal digits. */
  predicate IsAddressText(a: string) {
    |a| == 42 && a[..2] == "0x" && forall c :: c in a[2..] ==> c in "0123456789abcdefABCDEF"
  }

  lemma AddressTextIff(a: string)
    ensures IsEvmAddress(a) <==> IsAddressText(a)
  {
    if |a| == 42 {
      assert a[..2] == [a[0], a[1]];
      forall i | 2 <= i < 42 ensures a[i] in a[2..] && (IsHex(a[i]) <==> a[i] in "0123456789abcdefABCDEF") {
        assert a[i] == a[2..][i - 2];
        HexDigits(a[i]);
      }
    }
  }

  lemma HexDigits(c: char)
    ensures IsHex(c) <==> c in "0123456789abcdefABCDEF"
  {
    var s := "0123456789abcdefABCDEF";
    if '0' <= c <= '9' { assert s[c as int - '0' as int] == c; }
    if 'a' <= c <= 'f' { assert s[c as int - 'a' as int + 10] == c; }
    if 'A' <= c <= 'F' { assert s[c as int - 'A' as int + 16] == c; }
  }

  /** The item asks for exactly this transaction, on the context's chain and in the sender's name or nobody's. */
  predicate AsksFor(abi: Abi, ctx: Context, item: Json, tx: RelayTx) {
    && item.Obj? && "data" in item.fields && item.fields["data"].Obj? &&
    var d := item.fields["data"].fields;
    && "to" in d && d["to"].Str? && IsAddressText(d["to"].s) && SameAddress(d["to"].s, tx.to)
    && "data" in d && d["data"] == Str(tx.data)
    && "chainId" in d && d["chainId"] == Num(ctx.chainId as real)
    && ("from" in d && d["from"].Str? ==> SameAddress(d["from"].s, ctx.sender))
    && (if "value" in d && (d["value"].Str? || d["value"].Num?) then abi.bigInt(d["value"]) == Some(tx.value)
        else tx.value == 0)
  }

  lemma ItemAcceptedIff(abi: Abi, ctx: Context, item: Json, tx: RelayTx)
    requires ctx.depository.Some?
    ensures ItemVerdict(abi, ctx, ctx.depository.value, item) == Accepted(tx)
            <==> AsksFor(abi, ctx, item, tx) && Good(abi, ctx, tx)
  {
    hide IsEvmAddress, IsAddressText, Lower;
    if item.Obj? && "data" in item.fields && item.fields["data"].Obj? && "to" in item.fields["data"].fields
      && item.fields["data"].fields["to"].Str? {
      AddressTextIff(item.fields["data"].fields["to"].s);
    }
  }

  lemma {:induction false} ItemsAcceptedIff(abi: Abi, ctx: Context, items: seq<Json>, txs: seq<RelayTx>)
    requires ctx.depository.Some?
    ensures ItemsVerdict(abi, ctx, ctx.depository.value, items) == Accepted(txs) <==>
              |txs| == |items| && forall k :: 0 <= k < |items| ==>
                AsksFor(abi, ctx, items[k], txs[k]) && Good(abi, ctx, txs[k])
  {
    hide ItemVerdict, AsksFor, Good;
    if items != [] && txs != [] {
      var n, m := |items| - 1, |txs| - 1;
      ItemsAcceptedIff(abi, ctx, items[..n], txs[..m]);
      ItemAcceptedIff(abi, ctx, items[n], txs[m]);
      assert txs == txs[..m] + [txs[m]];
    }
  }

  lemma {:induction false} AcceptedStepsHaveItems(abi: Abi, ctx: Context, depository: string, steps: seq<Json>)
    requires StepsVerdict(abi, ctx, depository, steps).Accepted?
    ensures forall k :: 0 <= k < |steps| ==> IsTransactionStep(steps[k])
  {
    hide ItemsOf;
    if steps != [] { ItemsOfIs(steps[|steps| - 1]); }
    if steps != [] { AcceptedStepsHaveItems(abi, ctx, depository, steps[..|steps| - 1]); }
  }

  /** Exactly what is accepted, native or ERC-20 and in any grouping: transaction steps whose items,
      taken together, ask for one good deposit, or for a good approval and then a good deposit. */
  lemma {:induction false} QuoteAcceptedIff(abi: Abi, ctx: Context, steps: Json, txs: seq<RelayTx>)
    requires ctx.depository.Some? && steps.Arr?
    ensures VerifySteps(abi, ctx, steps) == Accepted(txs) <==>
              && (forall k :: 0 <= k < |steps.items| ==> IsTransactionStep(steps.items[k]))
              && |AllItems(steps.items)| == |txs|
              && (forall k :: 0 <= k < |txs| ==> AsksFor(abi, ctx, AllItems(steps.items)[k], txs[k]))
              && ((|txs| == 1 && GoodDeposit(abi, ctx, txs[0]))
                  || (|txs| == 2 && GoodApprove(abi, ctx, txs[0]) && GoodDeposit(abi, ctx, txs[1])))
  {
    hide IsTransactionStep, AsksFor, GoodDeposit, GoodApprove, StepsVerdict, ItemsVerdict, Verified;
    var depository := ctx.depository.value;
    if VerifySteps(abi, ctx, steps) == Accepted(txs) {
      AcceptedShape(abi, ctx, steps);
      AcceptedStepsHaveItems(abi, ctx, depository, steps.items);
    }
    if forall k :: 0 <= k < |steps.items| ==> IsTransactionStep(steps.items[k]) {
      GroupingIsIrrelevant(abi, ctx, depository, steps.items);
      ItemsAcceptedIff(abi, ctx, AllItems(steps.items), txs);
      KindsOf(abi, ctx, txs);
    }
    if |txs| == 1 { CountsAddUp(txs); CountOne(txs[0]); }
    if |txs| == 2 { CountTwo(txs); }
  }

  /** The usual layout: a step with the approval, then a step with the deposit, is accepted with both. */
  lemma {:induction false} TwoStepQuoteIsAccepted(abi: Abi, ctx: Context, approve: Json, deposit: Json, a: RelayTx,
      d: RelayTx)
    requires ctx.depository.Some? && GoodApprove(abi, ctx, a) && GoodDeposit(abi, ctx, d)
    requires AsksFor(abi, ctx, approve, a) && AsksFor(abi, ctx, deposit, d)
    ensures var first := Obj(map["kind" := Str("transaction"), "items" := Arr([approve])]);
            var second := Obj(map["kind" := Str("transaction"), "items" := Arr([deposit])]);
            VerifySteps(abi, ctx, Arr([first, second])) == Accepted([a, d])
  {
    hide AsksFor, GoodApprove, GoodDeposit, VerifySteps;
    var first := Obj(map["kind" := Str("transaction"), "items" := Arr([approve])]);
    var second := Obj(map["kind" := Str("transaction"), "items" := Arr([deposit])]);
    var steps := [first, second];
    assert steps[..1] == [first] && [first][..0] == [];
    assert AllItems([first]) == [] + [approve];
    assert AllItems(steps) == ([] + [approve]) + [deposit];
    QuoteAcceptedIff(abi, ctx, Arr(steps), [a, d]);
  }

  lemma CountOne(tx: RelayTx)
    ensures forall k: Kind :: Count([tx], k) == if tx.kind == k then 1 else 0
  {
    forall k: Kind ensures Count([tx], k) == if tx.kind == k then 1 else 0 {
      assert [tx][..0] == [] && Count([tx][..0], k) == 0;
    }
  }

  // ── What sending it does ──

  ghost predicate SameExcept<K(!new)>(m: map<K, int>, m': map<K, int>, keys: set<K>) {
    forall k :: k !in keys ==> Read(m', k) == Read(m, k)
  }

  lemma MoveReads<K(!new)>(m: map<K, int>, from: K, to: K, amount: int)
    requires from != to
    ensures var m' := Move(m, from, to, amount);
            Read(m', from) == Read(m, from) - amount && Read(m', to) == Read(m, to) + amount
              && SameExcept(m, m', {from, to})
  {
  }

  /** The request carried out: exactly the input leaves the sender for the pinned depository,
      credited to the sender and the order id; nothing else changes but the depository's own allowance,
      which is used up by the input: nothing is left of an approval made for it. */
  ghost predicate Carried(ctx: Context, c: Chain, c': Chain, approved: bool)
    requires ctx.depository.Some?
  {
    var s, d, t := Lower(ctx.sender), Lower(ctx.depository.value), Lower(ctx.token);
    && c'.credits == c.credits + [Credit(s, if ctx.native then "" else t, ctx.amountIn, Lower(ctx.orderId))]
    && if ctx.native then
         && Read(c'.native, s) == Read(c.native, s) - ctx.amountIn
            && Read(c'.native, d) == Read(c.native, d) + ctx.amountIn
         && SameExcept(c.native, c'.native, {s, d}) && c'.tokens == c.tokens && c'.allowances == c.allowances
       else
         && Read(c'.tokens, (t, s)) == Read(c.tokens, (t, s)) - ctx.amountIn
            && Read(c'.tokens, (t, d)) == Read(c.tokens, (t, d)) + ctx.amountIn
         && SameExcept(c.tokens, c'.tokens, {(t, s), (t, d)}) && c'.native == c.native
            && SameExcept(c.allowances, c'.allowances, {(t, s, d)})
         && Read(c'.allowances, (t, s, d)) == (if approved then 0 else Read(c.allowances, (t, s, d)) - ctx.amountIn)
  }

  /** What the depository may take of the input token before the deposit. */
  ghost predicate MayTake(ctx: Context, c: Chain, c': Chain, approved: bool)
    requires ctx.depository.Some?
  {
    var spend := (Lower(ctx.token), Lower(ctx.sender), Lower(ctx.depository.value));
    !ctx.native ==> Read(c'.allowances, spend) == if approved then ctx.amountIn else Read(c.allowances, spend)
  }

  /** Nothing moved: at most the depository may now take the input, and no more than the input. */
  ghost predicate OnlyApproved(ctx: Context, c: Chain, c': Chain)
    requires ctx.depository.Some?
  {
    var s, d, t := Lower(ctx.sender), Lower(ctx.depository.value), Lower(ctx.token);
    && c'.native == c.native && c'.tokens == c.tokens && c'.credits == c.credits
    && (c'.allowances == c.allowances || (!ctx.native && c'.allowances == c.allowances[(t, s, d) := ctx.amountIn]))
  }

  lemma DepositCarries(abi: Abi, ctx: Context, others: (RelayTx, Chain) -> Option<Chain>, tx: RelayTx, c: Chain,
      c': Chain, approved: bool)
    requires GoodDeposit(abi, ctx, tx) && !SameAddress(ctx.sender, ctx.depository.value)
    requires OnlyApproved(ctx, c, c') && MayTake(ctx, c, c', approved)
    requires Apply(abi, ctx, others, tx, c').Some?
    ensures Carried(ctx, c, Apply(abi, ctx, others, tx, c').value, approved)
    ensures var spend := (Lower(ctx.token), Lower(ctx.sender), Lower(ctx.depository.value));
            !ctx.native ==>
              Read(Apply(abi, ctx, others, tx, c').value.allowances, spend)
                == Read(c'.allowances, spend) - ctx.amountIn >= 0
  {
    var s, d, t := Lower(ctx.sender), Lower(ctx.depository.value), Lower(ctx.token);
    if ctx.native {
      MoveReads(c.native, s, d, ctx.amountIn);
    } else {
      MoveReads(c.tokens, (t, s), (t, d), ctx.amountIn);
    }
  }

  lemma ApproveOnlyApproves(abi: Abi, ctx: Context, others: (RelayTx, Chain) -> Option<Chain>, tx: RelayTx, c: Chain)
    requires GoodApprove(abi, ctx, tx) && Apply(abi, ctx, others, tx, c).Some?
    ensures OnlyApproved(ctx, c, Apply(abi, ctx, others, tx, c).value)
    ensures var spend := (Lower(ctx.token), Lower(ctx.sender), Lower(ctx.depository.value));
            Read(Apply(abi, ctx, others, tx, c).value.allowances, spend) == ctx.amountIn
  {
  }

  /** Honest nodes, and a chain that mines as successful only what its contracts carry out. */
  ghost predicate HonestSends(abi: Abi, ctx: Context, others: (RelayTx, Chain) -> Option<Chain>, txs: seq<RelayTx>,
      nodes: nat -> Node, c: Chain) {
    forall k :: 0 <= k < |txs| ==>
      HonestSend(abi, ctx, others, txs[k], nodes(k), SendTxs(abi, ctx, others, txs, nodes, c, k).chain)
  }

  ghost predicate HonestSend(abi: Abi, ctx: Context, others: (RelayTx, Chain) -> Option<Chain>, tx: RelayTx, n: Node,
      c: Chain) {
    Honest(n) && (TrueFate(MasterTxOf(ctx, tx), n) == Landed(true) ==> Apply(abi, ctx, others, tx, c).Some?)
  }

  /** One send: it returned and took effect, or failed for good, or is unknown. */
  lemma OneSend(abi: Abi, ctx: Context, others: (RelayTx, Chain) -> Option<Chain>, tx: RelayTx, n: Node, c: Chain)
    requires HonestSend(abi, ctx, others, tx, n, c)
    ensures var r, after := Outcome(MasterTxOf(ctx, tx), n), After(abi, ctx, others, tx, n, c);
            && (r.Sent? ==>
                Apply(abi, ctx, others, tx, c) == Some(after) && TrueFate(MasterTxOf(ctx, tx), n) != Floating)
            && (r.Threw? && !IsOutcomeUnknown(r.error) ==> after == c && TrueFate(MasterTxOf(ctx, tx), n) != Floating)
            && (after == c || Apply(abi, ctx, others, tx, c) == Some(after))
  {
    hide Outcome, Honest, Apply;
    SendTellsTheTruth(MasterTxOf(ctx, tx), n);
  }

  /** A run of the send loop over an accepted quote, whatever the nodes do: if it ends normally the
      request was carried out exactly; if it fails with anything but ORDER_PENDING nothing was
      deposited and nothing still can be; and in every case the chain is untouched, only approved,
      or carried out once. */
  lemma {:induction false} AcceptedQuoteDoesWhatWasAsked(abi: Abi, ctx: Context, steps: Json,
      others: (RelayTx, Chain) -> Option<Chain>, nodes: nat -> Node, c: Chain)
    requires VerifySteps(abi, ctx, steps).Accepted? && ctx.depository.Some?
             && !SameAddress(ctx.sender, ctx.depository.value)
    requires HonestSends(abi, ctx, others, VerifySteps(abi, ctx, steps).value, nodes, c)
    ensures var txs := VerifySteps(abi, ctx, steps).value;
            var run := SendTxs(abi, ctx, others, txs, nodes, c, |txs|);
            && (run.failed.None? ==> Carried(ctx, c, run.chain, |txs| == 2) && run.depositHash && run.floating == [])
            && (run.failed.Some? && !IsOutcomeUnknown(run.failed.value) ==>
                OnlyApproved(ctx, c, run.chain) && run.floating == [])
            && (OnlyApproved(ctx, c, run.chain) || Carried(ctx, c, run.chain, |txs| == 2))
  {
    hide VerifySteps, Outcome, Apply, After, Honest, HonestSend, Good, GoodDeposit, GoodApprove, Carried, OnlyApproved;
    hide Verified, TrueFate, MayTake;
    var txs := VerifySteps(abi, ctx, steps).value;
    AcceptedShape(abi, ctx, steps);
    NothingYet(ctx, c);
    KindsOf(abi, ctx, txs);
    var first := SendTxs(abi, ctx, others, txs, nodes, c, 0);
    OneSend(abi, ctx, others, txs[0], nodes(0), c);
    if |txs| == 1 {
      LastSend(abi, ctx, others, txs[0], nodes(0), c, c, false);
    } else {
      var run1 := SendTxs(abi, ctx, others, txs, nodes, c, 1);
      FirstApprove(abi, ctx, others, txs[0], nodes(0), c);
      if run1.failed.None? {
        assert HonestSend(abi, ctx, others, txs[1], nodes(1), run1.chain);
        LastSend(abi, ctx, others, txs[1], nodes(1), c, run1.chain, true);
      }
    }
  }

  lemma NothingYet(ctx: Context, c: Chain)
    requires ctx.depository.Some?
    ensures OnlyApproved(ctx, c, c) && MayTake(ctx, c, c, false)
  {
  }

  lemma KindsOf(abi: Abi, ctx: Context, txs: seq<RelayTx>)
    ensures forall k :: 0 <= k < |txs| ==>
            (GoodDeposit(abi, ctx, txs[k]) ==> txs[k].kind == DepositTx)
              && (GoodApprove(abi, ctx, txs[k]) ==> txs[k].kind == ApproveTx)
  {
  }

  lemma FirstApprove(abi: Abi, ctx: Context, others: (RelayTx, Chain) -> Option<Chain>, tx: RelayTx, n: Node, c: Chain)
    requires ctx.depository.Some? && GoodApprove(abi, ctx, tx) && HonestSend(abi, ctx, others, tx, n, c)
    ensures OnlyApproved(ctx, c, After(abi, ctx, others, tx, n, c))
    ensures Outcome(MasterTxOf(ctx, tx), n).Sent? ==> MayTake(ctx, c, After(abi, ctx, others, tx, n, c), true)
  {
    hide Apply, After, Honest, GoodApprove, OnlyApproved, Outcome, TrueFate;
    OneSend(abi, ctx, others, tx, n, c);
    NothingYet(ctx, c);
    if Apply(abi, ctx, others, tx, c).Some? { ApproveOnlyApproves(abi, ctx, others, tx, c); }
  }

  lemma LastSend(abi: Abi, ctx: Context, others: (RelayTx, Chain) -> Option<Chain>, tx: RelayTx, n: Node, c: Chain,
      c': Chain, approved: bool)
    requires GoodDeposit(abi, ctx, tx) && !SameAddress(ctx.sender, ctx.depository.value)
    requires OnlyApproved(ctx, c, c') && MayTake(ctx, c, c', approved) && HonestSend(abi, ctx, others, tx, n, c')
    ensures var r, after := Outcome(MasterTxOf(ctx, tx), n), After(abi, ctx, others, tx, n, c');
            && (r.Sent? ==> Carried(ctx, c, after, approved) && TrueFate(MasterTxOf(ctx, tx), n) != Floating)
            && (r.Threw? && !IsOutcomeUnknown(r.error) ==>
                OnlyApproved(ctx, c, after) && TrueFate(MasterTxOf(ctx, tx), n) != Floating)
            && (OnlyApproved(ctx, c, after) || Carried(ctx, c, after, approved))
  {
    hide Apply, After, Honest, Carried, OnlyApproved, Outcome, TrueFate, HonestSend, MayTake;
    OneSend(abi, ctx, others, tx, n, c');
    if Apply(abi, ctx, others, tx, c').Some? { DepositCarries(abi, ctx, others, tx, c, c', approved); }
  }

  // ── The explicit output floor ──

  /** With --min-out the quote passes if and only if its guaranteed minimum meets the floor, whatever output it
      expects. */
  lemma ExplicitFloorIff(q: Quote, raw: nat)
    ensures var v := MinOutOf(q, RawFloor(raw));
            v.MinOutVerdict? && v.rule == Explicit && v.floor == Some(raw) && (v.ok <==> q.minimum >= raw)
  {
  }

  // ── The default output floor ──

  predicate SameValue(q: Quote) {
    (q.inKind.Stable? && q.outKind.Stable?) || (q.inKind.NativeGas? && q.outKind.NativeGas? && q.sameSymbol)
  }

  /** `out` is at least (10000 - bps)/10000 of the amount in, exactly, as a fraction. */
  predicate Meets(q: Quote, out: nat, bps: nat)
    requires bps <= 10000
  {
    out * 10000 * Ten(q.inDecimals) >= q.amountIn * (10000 - bps) * Ten(q.outDecimals)
  }

  /** The floor rounds the exact bound down, by less than two raw units. */
  lemma {:induction false} FloorIsTight(q: Quote, out: nat, bps: nat)
    requires bps <= 10000
    ensures out >= LessBps(Scaled(q.amountIn, q.inDecimals, q.outDecimals), bps) ==> Meets(q, out + 2, bps)
    ensures Meets(q, out, bps) ==> out >= LessBps(Scaled(q.amountIn, q.inDecimals, q.outDecimals), bps)
  {
    hide Ten, Meets;
    var k, i, o := 10000 - bps, Ten(q.inDecimals), Ten(q.outDecimals);
    if q.outDecimals >= q.inDecimals {
      TenSum(q.outDecimals - q.inDecimals, q.inDecimals);
      ScaleUp(q.amountIn, Ten(q.outDecimals - q.inDecimals), i, o, out, k);
    } else {
      TenSum(q.inDecimals - q.outDecimals, q.outDecimals);
      ScaleDown(q.amountIn, Ten(q.inDecimals - q.outDecimals), i, o, out, k);
    }
    MeetsAs(q, out, bps);
    MeetsAs(q, out + 2, bps);
  }

  lemma MeetsAs(q: Quote, out: nat, bps: nat)
    requires bps <= 10000
    ensures Meets(q, out, bps)
            <==> (out * 10000) * Ten(q.inDecimals) >= (q.amountIn * (10000 - bps)) * Ten(q.outDecimals)
  {
  }

  lemma {:induction false} ScaleUp(a: nat, p: nat, i: nat, o: nat, out: nat, k: nat)
    requires p >= 1 && i >= 1 && o == p * i && k <= 10000
    ensures out >= (a * p) * k / 10000 ==> ((out + 2) * 10000) * i >= (a * k) * o
    ensures (out * 10000) * i >= (a * k) * o ==> out >= (a * p) * k / 10000
  {
    var x := a * p * k;
    assert (a * k) * o == x * i by { Reorder(a, k, p, i); }
    if out >= x / 10000 { Grow((out + 2) * 10000, x, i); }
    if (out * 10000) * i >= x * i { Shrink(out * 10000, x, i); }
  }

  lemma {:induction false} ScaleDown(a: nat, p: nat, i: nat, o: nat, out: nat, k: nat)
    requires p >= 1 && o >= 1 && i == p * o && k <= 10000
    ensures out >= (a / p) * k / 10000 ==> ((out + 2) * 10000) * i >= (a * k) * o
    ensures (out * 10000) * i >= (a * k) * o ==> out >= (a / p) * k / 10000
  {
    var s := a / p;
    Euclid(a, p);
    assert ((out + 2) * 10000) * i == (((out + 2) * 10000) * p) * o by { MulAssoc((out + 2) * 10000, p, o); }
    assert (out * 10000) * i == ((out * 10000) * p) * o by { MulAssoc(out * 10000, p, o); }
    if out >= s * k / 10000 {
      DownTight(a, p, s, out, k);
      Grow(((out + 2) * 10000) * p, a * k, o);
    }
    if ((out * 10000) * p) * o >= (a * k) * o {
      Shrink((out * 10000) * p, a * k, o);
      DownComplete(a, p, s, out, k);
    }
  }

  lemma Euclid(a: nat, p: nat)
    requires p >= 1
    ensures var s := a / p; s * p <= a < s * p + p
  {
  }

  lemma {:induction false} DownTight(a: nat, p: nat, s: nat, out: nat, k: nat)
    requires s * p <= a < s * p + p && out >= s * k / 10000 && k <= 10000
    ensures ((out + 2) * 10000) * p >= a * k
  {
    // (out + 2)·10000 ≥ s·k + 10000 ≥ (s + 1)·k
    assert (out + 2) * 10000 >= s * k + k;
    assert (s * k + k) * p == (s * p + p) * k by { Reorder2(s, k, p); }
    Grow((out + 2) * 10000, s * k + k, p);
    Grow(s * p + p, a, k);
  }

  lemma DownComplete(a: nat, p: nat, s: nat, out: nat, k: nat)
    requires s * p <= a && p >= 1 && (out * 10000) * p >= a * k
    ensures out >= s * k / 10000
  {
    Grow(a, s * p, k);
    assert (s * p) * k == (s * k) * p by { Reorder3(s, p, k); }
    Shrink(out * 10000, s * k, p);
  }

  lemma Reorder(a: int, k: int, p: int, i: int)
    ensures (a * k) * (p * i) == (a * p * k) * i
  {
  }

  lemma Reorder2(s: int, k: int, p: int)
    ensures (s * k + k) * p == (s * p + p) * k
  {
  }

  lemma Reorder3(s: int, p: int, k: int)
    ensures (s * p) * k == (s * k) * p
  {
  }

  lemma Grow(x: int, y: int, m: int)
    requires x >= y && m >= 0
    ensures x * m >= y * m
  {
  }

  lemma Shrink(x: int, y: int, m: int)
    requires x * m >= y * m && m >= 1
    ensures x >= y
  {
    if x < y { Grow(y, x + 1, m); }
  }

  /** Under the default rule an accepted quote is within two raw output units of 97% (expected) and
      94% (guaranteed) of the amount in, and every quote that meets both exactly is accepted. */
  lemma DefaultRuleIsTight(q: Quote)
    requires SameValue(q)
    ensures MinOutOf(q, NotGiven).ok ==> Meets(q, q.expected + 2, 300) && Meets(q, q.minimum + 2, 600)
    ensures Meets(q, q.expected, 300) && Meets(q, q.minimum, 600) ==> MinOutOf(q, NotGiven).ok
  {
    hide Meets, LessBps, Scaled;
    FloorIsTight(q, q.expected, 300);
    FloorIsTight(q, q.minimum, 600);
  }

  /** A better quote is never refused where a worse one is accepted, under any rule; and without a
      fixed rate nothing is accepted unless --min-out is given. */
  lemma BetterQuoteStillAccepted(q: Quote, q': Quote, minOut: MinOut)
    requires q' == q.(expected := q'.expected, minimum := q'.minimum) && q'.expected >= q.expected
             && q'.minimum >= q.minimum
    requires MinOutOf(q, minOut).MinOutVerdict? && MinOutOf(q, minOut).ok
    ensures MinOutOf(q', minOut).MinOutVerdict? && MinOutOf(q', minOut).ok && (minOut.NotGiven? ==> SameValue(q))
  {
    hide LessBps, Scaled;
  }

  // ── A plain exception ──

  /** The native value of the item's transaction cannot be read. */
  predicate ValueBreaks(abi: Abi, item: Json) {
    && item.Obj? && "data" in item.fields && item.fields["data"].Obj? && "value" in item.fields["data"].fields
    && var v := item.fields["data"].fields["value"]; (v.Str? || v.Num?) && abi.bigInt(v).None?
  }

  /** An item is refused with POLICY_DENIED, but for one that would pass the checks of its address, chain and
      sender and whose value cannot be read: that one is a plain exception. */
  lemma BrokenItemIff(abi: Abi, ctx: Context, depository: string, item: Json)
    ensures ItemVerdict(abi, ctx, depository, item).Broken? <==>
              && ValueBreaks(abi, item)
              && var d := item.fields["data"].fields;
                 && "to" in d && d["to"].Str? && IsAddressText(d["to"].s) && "data" in d && d["data"].Str?
                 && "chainId" in d && d["chainId"] == Num(ctx.chainId as real)
                 && ("from" in d && d["from"].Str? ==> SameAddress(d["from"].s, ctx.sender))
  {
    hide IsEvmAddress, IsAddressText, Lower;
    if item.Obj? && "data" in item.fields && item.fields["data"].Obj? && "to" in item.fields["data"].fields
      && item.fields["data"].fields["to"].Str? {
      AddressTextIff(item.fields["data"].fields["to"].s);
    }
  }

  /** Item `k` is the first that is not accepted, and broken or refused as said. */
  ghost predicate FirstFailure(abi: Abi, ctx: Context, depository: string, items: seq<Json>, k: nat, broken: bool) {
    && k < |items| && (forall j :: 0 <= j < k ==> ItemVerdict(abi, ctx, depository, items[j]).Accepted?)
    && !ItemVerdict(abi, ctx, depository, items[k]).Accepted?
    && (broken <==> ItemVerdict(abi, ctx, depository, items[k]).Broken?)
  }

  /** The first item that is not accepted decides between POLICY_DENIED and a plain exception. */
  lemma {:induction false} FirstFailureDecides(abi: Abi, ctx: Context, depository: string, items: seq<Json>)
    ensures var v := ItemsVerdict(abi, ctx, depository, items);
            if v.Accepted? then forall j :: 0 <= j < |items| ==> ItemVerdict(abi, ctx, depository, items[j]).Accepted?
            else exists k: nat :: FirstFailure(abi, ctx, depository, items, k, v.Broken?)
  {
    hide ItemVerdict;
    if items != [] {
      var n := |items| - 1;
      FirstFailureDecides(abi, ctx, depository, items[..n]);
      var v := ItemsVerdict(abi, ctx, depository, items);
      if k: nat :| FirstFailure(abi, ctx, depository, items[..n], k,
                                ItemsVerdict(abi, ctx, depository, items[..n]).Broken?) {
        assert FirstFailure(abi, ctx, depository, items, k, v.Broken?);
      } else if !v.Accepted? {
        assert FirstFailure(abi, ctx, depository, items, n, v.Broken?);
      }
    }
  }

  /** An answer without steps is refused; of the others none is accepted on a chain without a pinned depository,
      where every one is a plain exception. */
  lemma WithoutDepository(abi: Abi, ctx: Context, steps: Json)
    ensures !steps.Arr? || |steps.items| == 0 ==> VerifySteps(abi, ctx, steps) == Refused
    ensures steps.Arr? && |steps.items| > 0 && ctx.depository == None ==> VerifySteps(abi, ctx, steps) == Broken
  {
  }

  /** The sends of transactions 0 to j all returned. */
  ghost predicate Returned(ctx: Context, txs: seq<RelayTx>, nodes: nat -> Node, j: nat)
    requires j < |txs|
  {
    forall i :: 0 <= i <= j ==> Outcome(MasterTxOf(ctx, txs[i]), nodes(i)).Sent?
  }

  ghost predicate HashOf(ctx: Context, txs: seq<RelayTx>, nodes: nat -> Node, k: nat, kind: Kind)
    requires k <= |txs|
  {
    exists j :: 0 <= j < k && txs[j].kind == kind && Returned(ctx, txs, nodes, j)
  }

  /** The hash of an approval or a deposit is reported exactly when its send and all before it returned; no error
      is reported exactly when all returned. */
  lemma {:induction false} HashesCollected(abi: Abi, ctx: Context, others: (RelayTx, Chain) -> Option<Chain>,
      txs: seq<RelayTx>, nodes: nat -> Node, c: Chain, k: nat)
    requires k <= |txs|
    ensures var run := SendTxs(abi, ctx, others, txs, nodes, c, k);
            && (run.approveHash <==> HashOf(ctx, txs, nodes, k, ApproveTx))
            && (run.depositHash <==> HashOf(ctx, txs, nodes, k, DepositTx))
            && (run.failed.None? <==> k == 0 || Returned(ctx, txs, nodes, k - 1))
  {
    hide Outcome, After, TrueFate, MasterTxOf, HashOf, Returned;
    if k == 0 {
      NoHashes(ctx, txs, nodes, ApproveTx);
      NoHashes(ctx, txs, nodes, DepositTx);
    } else {
      HashesCollected(abi, ctx, others, txs, nodes, c, k - 1);
      HashGrows(ctx, txs, nodes, k, ApproveTx);
      HashGrows(ctx, txs, nodes, k, DepositTx);
      ReturnedGrows(ctx, txs, nodes, k - 1);
    }
  }

  lemma NoHashes(ctx: Context, txs: seq<RelayTx>, nodes: nat -> Node, kind: Kind)
    ensures !HashOf(ctx, txs, nodes, 0, kind)
  {
  }

  /** The error reported is that of the first send that threw. */
  lemma {:induction false} FirstErrorReported(abi: Abi, ctx: Context, others: (RelayTx, Chain) -> Option<Chain>,
      txs: seq<RelayTx>, nodes: nat -> Node, c: Chain, k: nat, j: nat)
    requires j < k <= |txs| && (j == 0 || Returned(ctx, txs, nodes, j - 1))
    requires Outcome(MasterTxOf(ctx, txs[j]), nodes(j)).Threw?
    ensures SendTxs(abi, ctx, others, txs, nodes, c, k).failed
            == Some(Outcome(MasterTxOf(ctx, txs[j]), nodes(j)).error)
  {
    hide Outcome, After, TrueFate, MasterTxOf, Returned;
    if j < k - 1 {
      FirstErrorReported(abi, ctx, others, txs, nodes, c, k - 1, j);
    } else {
      HashesCollected(abi, ctx, others, txs, nodes, c, j);
    }
  }

  lemma ReturnedGrows(ctx: Context, txs: seq<RelayTx>, nodes: nat -> Node, j: nat)
    requires j < |txs|
    ensures Returned(ctx, txs, nodes, j) <==>
              (j == 0 || Returned(ctx, txs, nodes, j - 1)) && Outcome(MasterTxOf(ctx, txs[j]), nodes(j)).Sent?
  {
    hide Outcome, MasterTxOf;
  }

  lemma HashGrows(ctx: Context, txs: seq<RelayTx>, nodes: nat -> Node, k: nat, kind: Kind)
    requires 0 < k <= |txs|
    ensures HashOf(ctx, txs, nodes, k, kind) <==>
              HashOf(ctx, txs, nodes, k - 1, kind) || (txs[k - 1].kind == kind && Returned(ctx, txs, nodes, k - 1))
  {
    hide Returned;
    if HashOf(ctx, txs, nodes, k - 1, kind) {
      var j :| 0 <= j < k - 1 && txs[j].kind == kind && Returned(ctx, txs, nodes, j);
    }
  }

  /** A verified transaction is sent by the sender to its own target, with its data and value. */
  lemma SentAs(ctx: Context, tx: RelayTx)
    ensures var t := MasterTxOf(ctx, tx);
            t.from == ctx.sender && t.to == tx.to && t.data == tx.data && t.value == tx.value
  {
  }
}
