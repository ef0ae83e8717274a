/** src/evm-master-tx.ts: one transaction of the master wallet (simulate, check gas, sign,
    broadcast, wait for the receipt) as a step protocol against a node that may answer anything. */
module MasterTx {
  import opened Prelude
  import opened Errors

  datatype Tx = Tx(from: string, to: string, data: string, value: int)

  datatype Fee = Fee(maxFeePerGas: Option<int>, maxPriorityFeePerGas: Option<int>, gasPrice: Option<int>)

  /** eth_sendRawTransaction: taken, or an error with its object graph and its own `code`. */
  datatype Broadcast = Taken | Failed(graph: Graph, error: Value, code: Option<string>)

  /** waitForTransaction: a receipt with its status, null, or an exception. */
  datatype Receipt = Status(status: int) | NoReceipt | Unreadable

  /** What really becomes of a broadcast transaction: it never enters the chain, it may still do so, or it was mined. */
  datatype Fate = Never | Floating | Landed(ok: bool)

  /** What the node and the signer answer along one send (None: the call throws), and the fate
      of the transaction should it be broadcast, which the sender cannot see. */
  datatype Node = Node(estimate: Option<int>, fee: Option<Fee>, balance: Option<int>, nonce: Option<int>,
                       signer: Option<Option<string>>, hash: bool, broadcast: Broadcast, receipt: Receipt, fate: Fate)

  datatype SendResult = Sent | Threw(error: Thrown)

  function Typed(code: ErrorCode): Thrown {
    PerpError(code, None, Primitive)
  }

  const RAW: Thrown := Untyped(Primitive)

  predicate SameAddress(a: string, b: string) {
    Lower(a) == Lower(b)
  }

  /** eth_estimateGas plus 20% (bigint division of a non-negative estimate). */
  function GasLimit(estimate: int): int {
    estimate + estimate * 20 / 100
  }

  function Price(fee: Fee): Option<int> {
    if fee.maxFeePerGas.Some? && fee.maxPriorityFeePerGas.Some? then fee.maxFeePerGas else fee.gasPrice
  }

  /** Why nothing is broadcast, if so. */
  function Refusal(t: Tx, n: Node): Option<Thrown> {
    if n.estimate.None? then Some(Typed(ACTION_REJECTED))
    else if n.fee.None? then Some(RAW)
    else if Price(n.fee.value).None? then Some(Typed(EXCHANGE_ERROR))
    else if n.balance.None? then Some(RAW)
    else if n.balance.value < GasLimit(n.estimate.value) * Price(n.fee.value).value + t.value
      then Some(Typed(INSUFFICIENT_BALANCE))
    else if n.nonce.None? || n.signer.None? then Some(RAW)
    else if n.signer.value.None? || !SameAddress(n.signer.value.value, t.from) then Some(Typed(SIGNATURE_FAILED))
    else if !n.hash then Some(RAW)
    else None
  }

  /** The broadcast errors that mean the node does not have the transaction. */
  function NotAccepted(b: Broadcast): Option<ErrorCode> {
    if b.Taken? then None
    else if IsConnectFailure(b.graph, b.error) then Some(EXCHANGE_UNREACHABLE)
    else if b.code == Some("INSUFFICIENT_FUNDS") then Some(ACTION_REJECTED)
    else None
  }

  function Outcome(t: Tx, n: Node): SendResult {
    if Refusal(t, n).Some? then Threw(Refusal(t, n).value)
    else if NotAccepted(n.broadcast).Some? then Threw(Typed(NotAccepted(n.broadcast).value))
    else match n.receipt
      case Unreadable => Threw(Typed(ORDER_PENDING))
      case NoReceipt => Threw(Typed(ORDER_PENDING))
      case Status(s) => if s == 1 then Sent else Threw(Typed(ACTION_REJECTED))
  }

  /** The master wallet's connection to a node, and the transactions it handed over. */
  class Wallet {
    var broadcasts: seq<Tx>

    constructor ()
      ensures broadcasts == []
    {
      broadcasts := [];
    }

    method SendMasterTx(t: Tx, n: Node) returns (r: SendResult)
      modifies this
      ensures r == Outcome(t, n)
      ensures broadcasts == old(broadcasts) + (if Refusal(t, n).Some? then [] else [t])
    {
      if n.estimate.None? { return Threw(Typed(ACTION_REJECTED)); }
      var gasLimit := n.estimate.value + n.estimate.value * 20 / 100;
      if n.fee.None? { return Threw(RAW); }
      var fee := n.fee.value;
      var eip1559 := fee.maxFeePerGas.Some? && fee.maxPriorityFeePerGas.Some?;
      if !eip1559 && fee.gasPrice.None? { return Threw(Typed(EXCHANGE_ERROR)); }
      var price := if eip1559 then fee.maxFeePerGas.value else fee.gasPrice.value;
      var need := gasLimit * price + t.value;
      if n.balance.None? { return Threw(RAW); }
      if n.balance.value < need { return Threw(Typed(INSUFFICIENT_BALANCE)); }
      if n.nonce.None? { return Threw(RAW); }
      if n.signer.None? { return Threw(RAW); }
      if n.signer.value.None? || !SameAddress(n.signer.value.value, t.from) { return Threw(Typed(SIGNATURE_FAILED)); }
      if !n.hash { return Threw(RAW); }

      broadcasts := broadcasts + [t];
      if n.broadcast.Failed? {
        if IsConnectFailure(n.broadcast.graph, n.broadcast.error) { return Threw(Typed(EXCHANGE_UNREACHABLE)); }
        if n.broadcast.code == Some("INSUFFICIENT_FUNDS") { return Threw(Typed(ACTION_REJECTED)); }
      }
      if n.receipt.Unreadable? || n.receipt.NoReceipt? { return Threw(Typed(ORDER_PENDING)); }
      if n.receipt.status != 1 { return Threw(Typed(ACTION_REJECTED)); }
      r := Sent;
    }
  }

  // ── The hidden truth ──

  /** All that is assumed of a node: a transaction is never accepted over a connection that was
      not made, nor when the node answers "insufficient funds"; and a receipt tells the truth. */
  ghost predicate Honest(n: Node) {
    && (n.broadcast.Failed?
        && (Unconnected(n.broadcast.graph, n.broadcast.error) || n.broadcast.code == Some("INSUFFICIENT_FUNDS"))
        ==> n.fate == Never)
    && (NotAccepted(n.broadcast).None? && n.receipt.Status? ==> n.fate == Landed(n.receipt.status == 1))
  }

  /** What becomes of the transaction: nothing if it was not broadcast. */
  function TrueFate(t: Tx, n: Node): Fate {
    if Refusal(t, n).Some? then Never else n.fate
  }

  /** A normal return means the transaction took effect; an error other than ORDER_PENDING means it
      never did and never will. (A connection failure the walk does not recognise costs only an
      ORDER_PENDING.) */
  lemma SendTellsTheTruth(t: Tx, n: Node)
    requires Honest(n)
    ensures Outcome(t, n).Sent? ==> TrueFate(t, n) == Landed(true)
    ensures Outcome(t, n).Threw? && !IsOutcomeUnknown(Outcome(t, n).error) ==> TrueFate(t, n) in {Never, Landed(false)}
  {
    var b := n.broadcast;
    if Refusal(t, n).None? && b.Failed? && IsConnectFailure(b.graph, b.error) {
      var k := WalkSound(b.graph, b.error, {});
      assert Unconnected(b.graph, b.error);
    }
  }

  /** Nothing is broadcast that the wallet could not pay for, at the estimate with its headroom, or
      that someone else signed. */
  lemma {:induction false} CoveredBeforeBroadcast(t: Tx, n: Node)
    requires Refusal(t, n).None? && n.estimate.value >= 0 && Price(n.fee.value).value >= 0
    ensures n.signer == Some(n.signer.value) && n.signer.value.Some? && SameAddress(n.signer.value.value, t.from)
    ensures n.balance.value * 100 >= (n.estimate.value * 120 - 100) * Price(n.fee.value).value + t.value * 100
  {
    var e, p, g := n.estimate.value, Price(n.fee.value).value, GasLimit(n.estimate.value);
    assert g * 100 >= e * 120 - 100;
    Scale(g * 100, e * 120 - 100, p);
    assert (g * 100) * p == (g * p) * 100;
  }

  lemma Scale(a: int, b: int, p: int)
    requires a >= b && p >= 0
    ensures a * p >= b * p
  {
  }

  /** The balance read covers the estimate plus 20% (rounded down) at the fee, and the value. */
  predicate Covers(fee: Fee, estimate: int, balance: int, value: int) {
    var eip1559 := fee.maxFeePerGas.Some? && fee.maxPriorityFeePerGas.Some?;
    if eip1559 then balance >= (estimate + estimate * 20 / 100) * fee.maxFeePerGas.value + value
    else fee.gasPrice.Some? && balance >= (estimate + estimate * 20 / 100) * fee.gasPrice.value + value
  }

  /** The send returns normally exactly when: gas, fee and balance are known and the balance covers them;
      nonce, signature by the sender and hash are there; the node did not say that it lacks the transaction;
      and the receipt has status 1. */
  lemma SentIff(t: Tx, n: Node)
    ensures Outcome(t, n).Sent? <==>
              && n.estimate.Some? && n.fee.Some? && n.balance.Some?
              && Covers(n.fee.value, n.estimate.value, n.balance.value, t.value)
              && n.nonce.Some? && n.signer.Some? && n.signer.value.Some?
              && Lower(n.signer.value.value) == Lower(t.from) && n.hash
              && (n.broadcast.Failed? ==>
                    !IsConnectFailure(n.broadcast.graph, n.broadcast.error)
                    && n.broadcast.code != Some("INSUFFICIENT_FUNDS"))
              && n.receipt == Status(1)
  {
    hide Lower, IsConnectFailure;
  }

  /** Everything up to the balance is known, and the price too. */
  predicate Priced(n: Node) {
    n.estimate.Some? && n.fee.Some? && n.balance.Some?
    && ((n.fee.value.maxFeePerGas.Some? && n.fee.value.maxPriorityFeePerGas.Some?) || n.fee.value.gasPrice.Some?)
  }

  /** It was handed to the node, which did not say that it lacks it. */
  predicate MayBeIn(t: Tx, n: Node) {
    && Priced(n) && Covers(n.fee.value, n.estimate.value, n.balance.value, t.value)
    && n.nonce.Some? && n.signer.Some? && n.signer.value.Some?
    && Lower(n.signer.value.value) == Lower(t.from) && n.hash
    && (n.broadcast.Failed? ==>
          !IsConnectFailure(n.broadcast.graph, n.broadcast.error) && n.broadcast.code != Some("INSUFFICIENT_FUNDS"))
  }

  /** Which error says what: INSUFFICIENT_BALANCE that the balance read does not cover gas and value,
      SIGNATURE_FAILED that the signature is not the sender's, EXCHANGE_ERROR that there is no price,
      EXCHANGE_UNREACHABLE that no connection was made, and ORDER_PENDING exactly that the transaction may
      be in and its receipt is not known. */
  lemma ErrorsSayWhy(t: Tx, n: Node)
    ensures Outcome(t, n) == Threw(Typed(INSUFFICIENT_BALANCE)) <==>
              Priced(n) && !Covers(n.fee.value, n.estimate.value, n.balance.value, t.value)
    ensures Outcome(t, n) == Threw(Typed(EXCHANGE_ERROR)) <==>
              n.estimate.Some? && n.fee.Some? && n.fee.value.gasPrice.None?
              && (n.fee.value.maxFeePerGas.None? || n.fee.value.maxPriorityFeePerGas.None?)
    ensures Outcome(t, n) == Threw(Typed(SIGNATURE_FAILED)) <==>
              Priced(n) && Covers(n.fee.value, n.estimate.value, n.balance.value, t.value) && n.nonce.Some?
              && n.signer.Some? && (n.signer.value.None? || Lower(n.signer.value.value) != Lower(t.from))
    ensures Outcome(t, n) == Threw(Typed(ORDER_PENDING)) <==> MayBeIn(t, n) && !n.receipt.Status?
    ensures Outcome(t, n) == Threw(Typed(ACTION_REJECTED)) <==>
              || n.estimate.None?
              || (MayBeIn(t, n) && n.receipt.Status? && n.receipt.status != 1)
              || (Refusal(t, n).None? && n.broadcast.Failed? && n.broadcast.code == Some("INSUFFICIENT_FUNDS")
                  && !IsConnectFailure(n.broadcast.graph, n.broadcast.error))
    ensures Outcome(t, n) == Threw(Typed(EXCHANGE_UNREACHABLE)) <==>
              Refusal(t, n).None? && n.broadcast.Failed? && IsConnectFailure(n.broadcast.graph, n.broadcast.error)
  {
    hide Lower, IsConnectFailure;
  }
}
