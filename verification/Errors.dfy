/** src/errors.ts: error codes, order-outcome classification and the walk of an error graph. */
module Errors {
  import opened Prelude

  datatype ErrorCode =
    | INVALID_PARAMS | SYMBOL_NOT_FOUND | ORDER_NOT_FOUND | POSITION_NOT_FOUND
    | INSUFFICIENT_BALANCE | MARGIN_INSUFFICIENT | SIZE_TOO_SMALL | SIZE_TOO_LARGE
    | RISK_VIOLATION | DUPLICATE_ORDER | DEPOSIT_REQUIRED
    | NO_SIGNER_AVAILABLE | AGENT_NOT_REGISTERED | AGENT_EXPIRED | POLICY_DENIED
    | KEY_NOT_FOUND | WALLET_LOCKED | APPROVE_PARTIAL | APPROVE_FAILED | LOCK_HELD
    | PASSPHRASE_REQUIRED | INVALID_PASSPHRASE | NOT_IMPLEMENTED
    | UNKNOWN_VENUE | TIF_REQUIRED | INVALID_TICK | NO_ENV_TIER | NO_BRIDGE_ROUTE
    | CAPABILITY_UNSUPPORTED | ORDER_PARTIAL | ORDER_PENDING | ORDER_REJECTED | ACTION_REJECTED
    | WS_PROTOCOL_ERROR | WS_AUTH_FAILED | SUBSCRIPTION_LIMIT | STREAM_OVERFLOW
    | EXCHANGE_UNREACHABLE | RATE_LIMITED | PRICE_STALE | SIGNATURE_FAILED | EXCHANGE_ERROR
    | TIMEOUT | UNKNOWN

  const DEFINITE_ORDER_FAILURE_CODES: set<ErrorCode> := {
    INVALID_PARAMS, SYMBOL_NOT_FOUND, INSUFFICIENT_BALANCE, MARGIN_INSUFFICIENT,
    SIZE_TOO_SMALL, SIZE_TOO_LARGE, RISK_VIOLATION, DEPOSIT_REQUIRED,
    NO_SIGNER_AVAILABLE, AGENT_NOT_REGISTERED, AGENT_EXPIRED, POLICY_DENIED,
    KEY_NOT_FOUND, WALLET_LOCKED, PASSPHRASE_REQUIRED, INVALID_PASSPHRASE,
    NOT_IMPLEMENTED, UNKNOWN_VENUE, TIF_REQUIRED, INVALID_TICK,
    NO_ENV_TIER, CAPABILITY_UNSUPPORTED, SIGNATURE_FAILED, ORDER_REJECTED, ACTION_REJECTED,
    PRICE_STALE
  }

  /** A thrown value: a typed PerpError with its `details.sent` (None = not stated), or anything
      else, which is an object of an error graph (`cause` / `errors` links) or a primitive. */
  datatype Thrown =
    | PerpError(code: ErrorCode, sent: Option<bool>, self: Value)
    | Untyped(self: Value)

  // ── Order outcome classification ──

  predicate IsDefiniteOrderFailure(e: Thrown) {
    e.PerpError? && (e.code in DEFINITE_ORDER_FAILURE_CODES || e.sent == Some(false))
  }

  predicate IsOutcomeUnknown(e: Thrown) {
    e.PerpError? && e.code == ORDER_PENDING
  }

  function OrderNotSent(e: Thrown): Thrown {
    if e.PerpError? && e.code in DEFINITE_ORDER_FAILURE_CODES then e
    else PerpError(ORDER_REJECTED, None, Primitive)
  }

  function OrderOutcomeUnknown(e: Thrown): Thrown {
    if e.PerpError? && e.code == ORDER_PENDING then e
    else PerpError(ORDER_PENDING, None, Primitive)
  }

  /** Never surfaces a retryable or untyped error: the result is definite or ORDER_PENDING, and it
      is definite exactly when the thrower said so or no connection was ever made. */
  function SendFailure(h: Graph, e: Thrown): (f: Thrown)
    ensures f.PerpError? && (f.code in DEFINITE_ORDER_FAILURE_CODES || f.code == ORDER_PENDING)
    ensures f.code in DEFINITE_ORDER_FAILURE_CODES <==> IsDefiniteOrderFailure(e) || IsConnectFailure(h, e.self)
  {
    if e.PerpError? && e.code in DEFINITE_ORDER_FAILURE_CODES then e
    else if IsDefiniteOrderFailure(e) then OrderNotSent(e)
    else if IsConnectFailure(h, e.self) then OrderNotSent(e)
    else OrderOutcomeUnknown(e)
  }

  // ── The error graph ──

  datatype Value = Primitive | Object(ref: nat)

  /** The fields the walk reads: `code` when it is a string, `cause`, and `errors` when it is an array. */
  datatype ErrorObject = ErrorObject(code: Option<string>, cause: Value, errors: Option<seq<Value>>)

  type Graph = map<nat, ErrorObject>

  const CONNECT_FAILURE_CODES: set<string> := {
    "ENOTFOUND", "EAI_AGAIN", "ECONNREFUSED", "UND_ERR_CONNECT_TIMEOUT", "ENETUNREACH", "EHOSTUNREACH"
  }

  predicate CarriesConnectCode(o: ErrorObject) {
    o.code.Some? && o.code.value in CONNECT_FAILURE_CODES
  }

  /** One call of the inner `walk`, from the `seen` set it finds to the one it leaves. An object
      without recorded fields has none of the three. */
  function Walk(h: Graph, x: Value, seen: set<nat>): (r: (bool, set<nat>))
    ensures seen <= r.1
    decreases h.Keys - seen, 0
  {
    if x.Primitive? || x.ref in seen then (false, seen)
    else if x.ref !in h then (false, seen + {x.ref})
    else
      var o, s := h[x.ref], seen + {x.ref};
      assert x.ref in h.Keys - seen && x.ref !in h.Keys - s;
      if CarriesConnectCode(o) then (true, s)
      else
        var every := if o.errors.Some? && |o.errors.value| > 0 then WalkEvery(h, o.errors.value, s) else (false, s);
        if every.0 then every else Walk(h, o.cause, every.1)
  }

  /** `errors.every(walk)`: stops at the first member whose walk is false. */
  function WalkEvery(h: Graph, xs: seq<Value>, seen: set<nat>): (r: (bool, set<nat>))
    ensures seen <= r.1
    decreases h.Keys - seen, |xs| + 1
  {
    if xs == [] then (true, seen)
    else
      var first := Walk(h, xs[0], seen);
      assert h.Keys - first.1 <= h.Keys - seen;
      if !first.0 then first else WalkEvery(h, xs[1..], first.1)
  }

  predicate IsConnectFailure(h: Graph, e: Value) {
    Walk(h, e, {}).0
  }

  /** The walk as the source runs it: a closure over one mutable `seen` set. */
  class Walker {
    const h: Graph
    var seen: set<nat>

    constructor (h: Graph)
      ensures this.h == h && seen == {}
    {
      this.h := h;
      seen := {};
    }

    method Visit(x: Value) returns (b: bool)
      modifies this
      ensures (b, seen) == Walk(h, x, old(seen))
      decreases h.Keys - seen, 0
    {
      if x.Primitive? || x.ref in seen { return false; }
      seen := seen + {x.ref};
      if x.ref !in h { return false; }
      var o := h[x.ref];
      assert x.ref in h.Keys - old(seen) && x.ref !in h.Keys - seen;
      if CarriesConnectCode(o) { return true; }
      if o.errors.Some? && |o.errors.value| > 0 {
        b := VisitEvery(o.errors.value);
        if b { return true; }
      }
      b := Visit(o.cause);
    }

    method VisitEvery(xs: seq<Value>) returns (b: bool)
      modifies this
      ensures (b, seen) == WalkEvery(h, xs, old(seen))
      decreases h.Keys - seen, |xs| + 1
    {
      var i := 0;
      while i < |xs|
        invariant 0 <= i <= |xs|
        invariant old(seen) <= seen
        invariant WalkEvery(h, xs, old(seen)) == WalkEvery(h, xs[i..], seen)
      {
        assert h.Keys - seen <= old(h.Keys - seen);
        assert xs[i..][0] == xs[i] && xs[i..][1..] == xs[i + 1..];
        var ok := Visit(xs[i]);
        if !ok { return false; }
        i := i + 1;
      }
      return true;
    }
  }

  // ── What the answer means ──

  /** No connection was made, seen from `x` within `k` links: the object carries a connect-failure
      code, or it aggregates errors that ALL failed that way, or its cause did. */
  ghost predicate NeverConnected(h: Graph, x: Value, k: nat)
    decreases k
  {
    k > 0 && x.Object? && x.ref in h &&
    var o := h[x.ref];
    || CarriesConnectCode(o)
    || (o.errors.Some? && |o.errors.value| > 0 && forall i :: 0 <= i < |o.errors.value| ==>
        NeverConnected(h, o.errors.value[i], k - 1))
    || NeverConnected(h, o.cause, k - 1)
  }

  lemma {:induction false} NeverConnectedMono(h: Graph, x: Value, k: nat, m: nat)
    requires NeverConnected(h, x, k) && k <= m
    ensures NeverConnected(h, x, m)
    decreases k
  {
    var o := h[x.ref];
    if o.errors.Some? {
      forall i | 0 <= i < |o.errors.value| && NeverConnected(h, o.errors.value[i], k - 1)
        ensures NeverConnected(h, o.errors.value[i], m - 1)
      {
        NeverConnectedMono(h, o.errors.value[i], k - 1, m - 1);
      }
    }
    if NeverConnected(h, o.cause, k - 1) { NeverConnectedMono(h, o.cause, k - 1, m - 1); }
  }

  /** The walk answers true only when every branch below `x` failed to connect: never because one
      of several aggregated attempts did, never through a cycle. */
  lemma {:induction false} WalkSound(h: Graph, x: Value, seen: set<nat>) returns (k: nat)
    requires Walk(h, x, seen).0
    ensures NeverConnected(h, x, k)
    decreases h.Keys - seen, 0
  {
    var o, s := h[x.ref], seen + {x.ref};
    assert x.ref in h.Keys - seen && x.ref !in h.Keys - s;
    if CarriesConnectCode(o) { return 1; }
    if o.errors.Some? && |o.errors.value| > 0 && WalkEvery(h, o.errors.value, s).0 {
      k := WalkEverySound(h, o.errors.value, s);
      k := k + 1;
    } else {
      var every := if o.errors.Some? && |o.errors.value| > 0 then WalkEvery(h, o.errors.value, s) else (false, s);
      k := WalkSound(h, o.cause, every.1);
      k := k + 1;
    }
  }

  lemma {:induction false} WalkEverySound(h: Graph, xs: seq<Value>, seen: set<nat>) returns (k: nat)
    requires WalkEvery(h, xs, seen).0
    ensures forall i :: 0 <= i < |xs| ==> NeverConnected(h, xs[i], k)
    decreases h.Keys - seen, |xs| + 1
  {
    if xs == [] { return 0; }
    var first := Walk(h, xs[0], seen);
    assert h.Keys - first.1 <= h.Keys - seen;
    var k0 := WalkSound(h, xs[0], seen);
    var k1 := WalkEverySound(h, xs[1..], first.1);
    k := k0 + k1;
    NeverConnectedMono(h, xs[0], k0, k);
    forall i | 0 < i < |xs| ensures NeverConnected(h, xs[i], k) {
      assert xs[i] == xs[1..][i - 1];
      NeverConnectedMono(h, xs[i], k1, k);
    }
  }

  // ── When the answer is complete ──

  /** Slot `s` of object `p` links to `x`: -1 is its cause, others are its `errors`. An object with a
      connect-failure code of its own is not looked into, so its links do not count. */
  predicate PointsTo(h: Graph, p: nat, s: int, x: Value) {
    && p in h && !CarriesConnectCode(h[p])
    && if s == -1 then h[p].cause == x
       else h[p].errors.Some? && 0 <= s < |h[p].errors.value| && h[p].errors.value[s] == x
  }

  /** No connection was ever made, at any depth of the error graph. */
  ghost predicate Unconnected(h: Graph, x: Value) {
    exists k: nat :: NeverConnected(h, x, k)
  }

  /** No object that never connected is reached by two links. Cycles are allowed. */
  ghost predicate SingleLinked(h: Graph) {
    forall x: Value, p: nat, s: int, q: nat, r: int ::
      PointsTo(h, p, s, x) && PointsTo(h, q, r, x) && Unconnected(h, x) ==> p == q && s == r
  }

  /** Every object a walk sees, but the one it starts from, hangs on another one that it sees first. */
  lemma {:induction false} NewHasNewParent(h: Graph, x: Value, seen: set<nat>, n: nat) returns (p: nat, s: int)
    requires n in Walk(h, x, seen).1 - seen && x != Object(n)
    ensures p in Walk(h, x, seen).1 - seen && PointsTo(h, p, s, Object(n))
    decreases h.Keys - seen, 0
  {
    var o, s0 := h[x.ref], seen + {x.ref};
    assert x.ref in h.Keys - seen && x.ref !in h.Keys - s0;
    var every := if o.errors.Some? && |o.errors.value| > 0 then WalkEvery(h, o.errors.value, s0) else (false, s0);
    if n in every.1 {
      p, s := NewHasParentEvery(h, o.errors.value, s0, n);
      if s < -1 { p, s := x.ref, -s - 2; }
    } else if o.cause == Object(n) {
      p, s := x.ref, -1;
    } else {
      p, s := NewHasNewParent(h, o.cause, every.1, n);
    }
  }

  /** The same for a list: either a member seen first, or (s = -2 - i) the list's own member i. */
  lemma {:induction false} NewHasParentEvery(h: Graph, xs: seq<Value>, seen: set<nat>, n: nat) returns (p: nat, s: int)
    requires n in WalkEvery(h, xs, seen).1 - seen
    ensures if s < -1 then 0 <= -s - 2 < |xs| && xs[-s - 2] == Object(n)
            else p in WalkEvery(h, xs, seen).1 - seen && PointsTo(h, p, s, Object(n))
    decreases h.Keys - seen, |xs| + 1
  {
    var first := Walk(h, xs[0], seen);
    assert h.Keys - first.1 <= h.Keys - seen;
    if n in first.1 {
      if xs[0] == Object(n) { return 0, -2; }
      p, s := NewHasNewParent(h, xs[0], seen, n);
    } else {
      p, s := NewHasParentEvery(h, xs[1..], first.1, n);
      if s < -1 { s := s - 1; }
    }
  }

  /** What has been seen of the never-connected objects was reached by its link: whoever links to it
      was seen, except to the object the walk began with. */
  ghost predicate Closed(h: Graph, root: Value, seen: set<nat>) {
    forall n: nat, p: nat, s: int ::
      n in seen && Object(n) != root && Unconnected(h, Object(n)) && PointsTo(h, p, s, Object(n)) ==> p in seen
  }

  lemma WalkKeepsClosed(h: Graph, root: Value, x: Value, seen: set<nat>, parent: nat, slot: int)
    requires SingleLinked(h) && Closed(h, root, seen) && (x == root || (parent in seen && PointsTo(h, parent, slot, x)))
    ensures Closed(h, root, Walk(h, x, seen).1)
  {
    var after := Walk(h, x, seen).1;
    forall n: nat, p: nat, s: int
      | n in after && Object(n) != root && Unconnected(h, Object(n)) && PointsTo(h, p, s, Object(n))
      ensures p in after
    {
      if n !in seen && x != Object(n) { var q, r := NewHasNewParent(h, x, seen, n); }
    }
  }

  lemma EveryKeepsClosed(h: Graph, root: Value, xs: seq<Value>, seen: set<nat>, parent: nat)
    requires SingleLinked(h) && Closed(h, root, seen) && parent in seen
    requires forall i: int :: 0 <= i < |xs| ==> PointsTo(h, parent, i, xs[i])
    ensures Closed(h, root, WalkEvery(h, xs, seen).1)
  {
    var after := WalkEvery(h, xs, seen).1;
    forall n: nat, p: nat, s: int
      | n in after && Object(n) != root && Unconnected(h, Object(n)) && PointsTo(h, p, s, Object(n))
      ensures p in after
    {
      if n !in seen {
        var q, r := NewHasParentEvery(h, xs, seen, n);
        if r < -1 { assert PointsTo(h, parent, -r - 2, xs[-r - 2]); }
      }
    }
  }

  /** The object `x`, never connected within `k` links, has not been seen: its walk answers true. */
  lemma {:induction false} WalkComplete(h: Graph, root: Value, depth: nat, x: Value, k: nat, seen: set<nat>)
    requires SingleLinked(h) && Closed(h, root, seen) && NeverConnected(h, x, k) && x.ref !in seen
    requires depth > 0 && !NeverConnected(h, root, depth - 1) && k <= depth
    requires x == root || exists p: nat, s: int :: p in seen && PointsTo(h, p, s, x)
    ensures Walk(h, x, seen).0
    decreases k, 0
  {
    if NeverConnected(h, x, k - 1) {
      WalkComplete(h, root, depth, x, k - 1, seen);
      return;
    }
    var o, s0 := h[x.ref], seen + {x.ref};
    if CarriesConnectCode(o) { return; }
    StartKeepsClosed(h, root, x, seen);
    var some := o.errors.Some? && |o.errors.value| > 0;
    if some && forall i :: 0 <= i < |o.errors.value| ==> NeverConnected(h, o.errors.value[i], k - 1) {
      forall i | 0 <= i < |o.errors.value|
        ensures o.errors.value[i].ref !in s0 && PointsTo(h, x.ref, i, o.errors.value[i]) {
        ChildUnseen(h, root, depth, x, k, seen, i, o.errors.value[i]);
      }
      EveryComplete(h, root, depth, x, 0, k - 1, s0);
      assert o.errors.value[0..] == o.errors.value;
    } else {
      ChildUnseen(h, root, depth, x, k, seen, -1, o.cause);
      var every := if some then WalkEvery(h, o.errors.value, s0) else (false, s0);
      if some { CauseUnseen(h, root, x, s0); }
      assert x.ref in every.1 && PointsTo(h, x.ref, -1, o.cause);
      WalkComplete(h, root, depth, o.cause, k - 1, every.1);
    }
  }

  lemma StartKeepsClosed(h: Graph, root: Value, x: Value, seen: set<nat>)
    requires SingleLinked(h) && Closed(h, root, seen) && x.Object?
    requires x == root || exists p: nat, s: int :: p in seen && PointsTo(h, p, s, x)
    ensures Closed(h, root, seen + {x.ref})
  {
    if x != root { var p: nat, s: int :| p in seen && PointsTo(h, p, s, x); }
  }

  /** A child that never connected, nearer a connect-failure code than the root, waits unseen. */
  lemma ChildUnseen(h: Graph, root: Value, depth: nat, x: Value, k: nat, seen: set<nat>, s: int, child: Value)
    requires Closed(h, root, seen) && x.Object? && x.ref !in seen && PointsTo(h, x.ref, s, child)
    requires 0 < k <= depth && !NeverConnected(h, root, depth - 1) && !NeverConnected(h, x, k - 1)
    requires NeverConnected(h, child, k - 1)
    ensures child.ref !in seen + {x.ref}
  {
    if child == root { NeverConnectedMono(h, child, k - 1, depth - 1); }
    assert Unconnected(h, child);
    assert child == Object(child.ref) && child != x;
  }

  /** Walking the aggregated errors does not see a cause that is linked to only once. */
  lemma CauseUnseen(h: Graph, root: Value, x: Value, seen: set<nat>)
    requires SingleLinked(h) && x.Object? && x.ref in h && x.ref in seen && !CarriesConnectCode(h[x.ref])
             && Closed(h, root, seen)
    requires h[x.ref].errors.Some? && h[x.ref].cause.Object? && Unconnected(h, h[x.ref].cause)
             && h[x.ref].cause.ref !in seen
    ensures h[x.ref].cause.ref !in WalkEvery(h, h[x.ref].errors.value, seen).1
    ensures Closed(h, root, WalkEvery(h, h[x.ref].errors.value, seen).1)
    ensures x.ref in WalkEvery(h, h[x.ref].errors.value, seen).1 && PointsTo(h, x.ref, -1, h[x.ref].cause)
  {
    var xs, c := h[x.ref].errors.value, h[x.ref].cause.ref;
    EveryKeepsClosed(h, root, xs, seen, x.ref);
    assert PointsTo(h, x.ref, -1, Object(c));
    forall i | 0 <= i < |xs| ensures xs[i] != Object(c) { assert PointsTo(h, x.ref, i, xs[i]); }
    if c in WalkEvery(h, xs, seen).1 { var p, s := NewHasParentEvery(h, xs, seen, c); }
  }

  /** From member i on, all aggregated errors answer true, each still unseen when its turn comes. */
  lemma {:induction false} EveryComplete(h: Graph, root: Value, depth: nat, x: Value, i: nat, k: nat, seen: set<nat>)
    requires SingleLinked(h) && Closed(h, root, seen) && x.Object? && x.ref in h && x.ref in seen
             && !CarriesConnectCode(h[x.ref])
    requires depth > 0 && !NeverConnected(h, root, depth - 1) && k < depth
    requires h[x.ref].errors.Some? && i <= |h[x.ref].errors.value|
    requires forall j :: i <= j < |h[x.ref].errors.value| ==>
               NeverConnected(h, h[x.ref].errors.value[j], k) && h[x.ref].errors.value[j].ref !in seen
    ensures WalkEvery(h, h[x.ref].errors.value[i..], seen).0
    decreases k, |h[x.ref].errors.value| - i + 1
  {
    var xs := h[x.ref].errors.value;
    if i < |xs| {
      assert PointsTo(h, x.ref, i, xs[i]);
      WalkComplete(h, root, depth, xs[i], k, seen);
      WalkKeepsClosed(h, root, xs[i], seen, x.ref, i);
      var after := Walk(h, xs[i], seen).1;
      forall j | i < j < |xs| ensures xs[j].ref !in after {
        assert PointsTo(h, x.ref, j, xs[j]) && Unconnected(h, xs[j]) && xs[j] == Object(xs[j].ref);
        if xs[j].ref in after && xs[i] != xs[j] { var p, s := NewHasNewParent(h, xs[i], seen, xs[j].ref); }
      }
      EveryComplete(h, root, depth, x, i + 1, k, after);
      assert xs[i..][1..] == xs[i + 1..];
    }
  }

  lemma {:induction false} LeastDepth(h: Graph, x: Value, k: nat) returns (least: nat)
    requires NeverConnected(h, x, k)
    ensures 0 < least <= k && NeverConnected(h, x, least) && !NeverConnected(h, x, least - 1)
    decreases k
  {
    if NeverConnected(h, x, k - 1) { least := LeastDepth(h, x, k - 1); } else { least := k; }
  }

  lemma SingleLinkedIff(h: Graph, x: Value)
    requires SingleLinked(h)
    ensures IsConnectFailure(h, x) <==> Unconnected(h, x)
  {
    if IsConnectFailure(h, x) {
      var k := WalkSound(h, x, {});
    }
    if k: nat :| NeverConnected(h, x, k) {
      var least := LeastDepth(h, x, k);
      WalkComplete(h, x, least, x, least, {});
    }
  }

  // ── Only what is reached matters ──

  /** `r` holds x and everything that can be reached from it. */
  ghost predicate Holds(r: set<nat>, h: Graph, x: Value) {
    && (x.Object? ==> x.ref in r)
    && forall p: nat, s: int, n: nat :: p in r && PointsTo(h, p, s, Object(n)) ==> n in r
  }

  /** The objects of `r`. */
  function Part(h: Graph, r: set<nat>): Graph {
    map p | p in h && p in r :: h[p]
  }

  lemma MembersHeld(r: set<nat>, h: Graph, p: nat)
    requires p in h && p in r && !CarriesConnectCode(h[p]) && Holds(r, h, Object(p))
    ensures Holds(r, h, h[p].cause)
    ensures h[p].errors.Some? ==> forall i :: 0 <= i < |h[p].errors.value| ==> Holds(r, h, h[p].errors.value[i])
  {
    assert PointsTo(h, p, -1, h[p].cause);
    if h[p].errors.Some? {
      forall i: int | 0 <= i < |h[p].errors.value| ensures Holds(r, h, h[p].errors.value[i]) {
        assert PointsTo(h, p, i, h[p].errors.value[i]);
        var v := h[p].errors.value[i];
        if v.Object? { assert v == Object(v.ref); }
      }
    }
    var c := h[p].cause;
    if c.Object? { assert c == Object(c.ref); }
  }

  lemma {:induction false} SameWalk(h: Graph, r: set<nat>, x: Value, seen: set<nat>)
    requires Holds(r, h, x)
    ensures Walk(Part(h, r), x, seen) == Walk(h, x, seen)
    decreases h.Keys - seen, 0
  {
    if x.Object? && x.ref in h && x.ref !in seen && !CarriesConnectCode(h[x.ref]) {
      var o, s := h[x.ref], seen + {x.ref};
      assert x.ref in h.Keys - seen && x.ref !in h.Keys - s;
      MembersHeld(r, h, x.ref);
      if o.errors.Some? { SameWalkEvery(h, r, o.errors.value, s); }
      var every := if o.errors.Some? && |o.errors.value| > 0 then WalkEvery(h, o.errors.value, s) else (false, s);
      SameWalk(h, r, o.cause, every.1);
    }
  }

  lemma {:induction false} SameWalkEvery(h: Graph, r: set<nat>, xs: seq<Value>, seen: set<nat>)
    requires forall i :: 0 <= i < |xs| ==> Holds(r, h, xs[i])
    ensures WalkEvery(Part(h, r), xs, seen) == WalkEvery(h, xs, seen)
    decreases h.Keys - seen, |xs| + 1
  {
    hide Holds;
    if xs != [] {
      SameWalk(h, r, xs[0], seen);
      assert h.Keys - Walk(h, xs[0], seen).1 <= h.Keys - seen;
      SameWalkEvery(h, r, xs[1..], Walk(h, xs[0], seen).1);
    }
  }

  lemma {:induction false} SameDepth(h: Graph, r: set<nat>, x: Value, k: nat)
    requires Holds(r, h, x)
    ensures NeverConnected(Part(h, r), x, k) <==> NeverConnected(h, x, k)
    decreases k
  {
    if k > 0 && x.Object? && x.ref in h && !CarriesConnectCode(h[x.ref]) {
      var o := h[x.ref];
      MembersHeld(r, h, x.ref);
      SameDepth(h, r, x, k - 1);
      SameDepth(h, r, o.cause, k - 1);
      if o.errors.Some? {
        forall i | 0 <= i < |o.errors.value|
          ensures NeverConnected(Part(h, r), o.errors.value[i], k - 1) <==> NeverConnected(h, o.errors.value[i], k - 1)
        {
          SameDepth(h, r, o.errors.value[i], k - 1);
        }
      }
    }
  }

  /** isConnectFailure is exact on every error graph, cyclic ones included, in which no never-connected
      object that x reaches is linked to twice; links of unreachable objects, and of objects that carry a
      connect-failure code themselves, are harmless. */
  lemma ConnectFailureIff(h: Graph, x: Value, r: set<nat>)
    requires Holds(r, h, x) && SingleLinked(Part(h, r))
    ensures IsConnectFailure(h, x) <==> Unconnected(h, x)
  {
    SingleLinkedIff(Part(h, r), x);
    SameWalk(h, r, x, {});
    forall k: nat ensures NeverConnected(Part(h, r), x, k) <==> NeverConnected(h, x, k) { SameDepth(h, r, x, k); }
    if k: nat :| NeverConnected(h, x, k) { assert NeverConnected(Part(h, r), x, k); }
    if k: nat :| NeverConnected(Part(h, r), x, k) { assert NeverConnected(h, x, k); }
  }

  function CyclicGraph(): Graph {
    map[0 := ErrorObject(None, Object(2), Some([Object(1)])), 1 := ErrorObject(None, Object(0), None),
        2 := ErrorObject(Some("ECONNREFUSED"), Object(1), None), 3 := ErrorObject(None, Object(2), None)]
  }

  /** A graph whose walk goes round a cycle, 0 by 1 back to 0, before the cause of 0 answers; and with
      sharing that does no harm: 2, which needs no cause, also links to 1, and the unreachable 3 to 2. */
  lemma CyclicErrorIsExact()
    ensures IsConnectFailure(CyclicGraph(), Object(0))
    ensures Walk(CyclicGraph(), Object(1), {0}) == (false, {0, 1})
  {
    var h, r := CyclicGraph(), {0, 1, 2};
    assert h[2].code.value in CONNECT_FAILURE_CODES && CarriesConnectCode(h[2]);
    assert NeverConnected(h, Object(2), 1) && NeverConnected(h, Object(0), 2) && NeverConnected(h, Object(1), 3);
    var g := Part(h, r);
    assert g == map[0 := h[0], 1 := h[1], 2 := h[2]];
    forall x: Value, p: nat, s: int, q: nat, t: int
      | PointsTo(g, p, s, x) && PointsTo(g, q, t, x) && Unconnected(g, x)
      ensures p == q && s == t
    {
    }
    ConnectFailureIff(h, Object(0), r);
    assert {0} + {1} == {0, 1};
    assert Walk(h, Object(0), {0, 1}) == (false, {0, 1});
  }

  /** Sharing is what breaks completeness: one refused connection listed twice in `errors` is not
      recognised, although both members failed to connect. */
  lemma SharedErrorMissed()
    ensures var h := map[0 := ErrorObject(None, Primitive, Some([Object(1), Object(1)])),
                         1 := ErrorObject(Some("ECONNREFUSED"), Primitive, None)];
            NeverConnected(h, Object(0), 2) && !IsConnectFailure(h, Object(0))
  {
    var h: Graph := map[0 := ErrorObject(None, Primitive, Some([Object(1), Object(1)])),
                        1 := ErrorObject(Some("ECONNREFUSED"), Primitive, None)];
    var xs := [Object(1), Object(1)];
    assert h[1].code.value in CONNECT_FAILURE_CODES && CarriesConnectCode(h[1]);
    assert {0} + {1} == {0, 1};
    assert Walk(h, Object(1), {0}) == (true, {0, 1});
    assert xs[1..] == [Object(1)];
    assert WalkEvery(h, xs[1..], {0, 1}) == (false, {0, 1});
    assert WalkEvery(h, xs, {0}) == (false, {0, 1});
    var none: set<nat> := {};
    assert none + {0} == {0};
    assert !Walk(h, Object(0), none).0;
    assert NeverConnected(h, Object(1), 1);
  }

  /** The codes that do not tell whether an order was placed. */
  lemma IndefiniteCodes(code: ErrorCode)
    ensures code !in DEFINITE_ORDER_FAILURE_CODES <==>
              code in {ORDER_NOT_FOUND, POSITION_NOT_FOUND, DUPLICATE_ORDER, APPROVE_PARTIAL, APPROVE_FAILED, LOCK_HELD,
                       NO_BRIDGE_ROUTE, ORDER_PARTIAL, ORDER_PENDING, WS_PROTOCOL_ERROR, WS_AUTH_FAILED,
                       SUBSCRIPTION_LIMIT, STREAM_OVERFLOW, EXCHANGE_UNREACHABLE, RATE_LIMITED, EXCHANGE_ERROR,
                       TIMEOUT, UNKNOWN}
  {
  }

  /** The codes of a connection that was never made: no such host, refused, timed out or unreachable. */
  lemma ConnectCodes(o: ErrorObject)
    ensures CarriesConnectCode(o) <==>
              o.code in {Some("ENOTFOUND"), Some("EAI_AGAIN"), Some("ECONNREFUSED"), Some("UND_ERR_CONNECT_TIMEOUT"),
                         Some("ENETUNREACH"), Some("EHOSTUNREACH")}
  {
  }
}
