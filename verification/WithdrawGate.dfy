/** src/withdraw-gate.ts and its callers: the gate and the ledger in front of withdrawals that an
    API key alone authorizes. Amounts are reals, times are milliseconds, ids never repeat. */
module WithdrawGate {
  import opened Prelude
  import opened Errors

  datatype Gate = Gate(allowlist: seq<string>, maxPerTx: real, maxPerDay: real)

  datatype Entry = Entry(id: nat, venue: string, network: string, amount: real, to: string, at: int)

  /** utcDay: a date back before the epoch rounds down too. */
  function UtcDay(ms: int): int {
    ms / 86400000
  }

  predicate Counts(e: Entry, venue: string, network: string, day: int) {
    e.venue == venue && e.network == network && UtcDay(e.at) == day
  }

  function WithdrawnOnDay(ledger: seq<Entry>, venue: string, network: string, day: int): real {
    if ledger == [] then 0.0
    else WithdrawnOnDay(ledger[..|ledger| - 1], venue, network, day)
         + if Counts(ledger[|ledger| - 1], venue, network, day) then ledger[|ledger| - 1].amount else 0.0
  }

  /** `amount` is None when it is not a finite number. */
  datatype Request = Request(venue: string, network: string, amount: Option<real>, to: string)

  /** The entry that recording the request makes. */
  function EntryOf(r: Request, id: nat, now: int): Entry
    requires r.amount.Some?
  {
    Entry(id, r.venue, r.network, r.amount.value, Lower(r.to), now)
  }

  /** The destination is allowlisted, the amount within the limit of one transaction, and with the
      withdrawal recorded (under any id) its day is within the limit of a day. */
  predicate Allowed(ledger: seq<Entry>, gate: Option<Gate>, r: Request, now: int) {
    && gate.Some? && r.amount.Some?
    && Lower(r.to) in gate.value.allowlist
    && 0.0 < r.amount.value <= gate.value.maxPerTx
    && WithdrawnOnDay(ledger + [EntryOf(r, 0, now)], r.venue, r.network, UtcDay(now)) <= gate.value.maxPerDay
  }

  function Without(ledger: seq<Entry>, id: nat): seq<Entry> {
    if ledger == [] then []
    else Without(ledger[..|ledger| - 1], id) + (if ledger[|ledger| - 1].id != id then [ledger[|ledger| - 1]] else [])
  }

  /** What a failed send throws; `httpStatus` is its details.httpStatus when that is a number. */
  datatype Failure = Failure(error: Thrown, httpStatus: Option<int>)

  /** The failures after which the attempt is forgotten: for QFEX an HTTP answer below 500, for
      Hyperliquid the definite order failures. */
  predicate DefinitelyRefused(venue: string, f: Failure) {
    if venue == "qfex"
      then f.error.PerpError? && f.error.code != ORDER_PENDING && f.httpStatus.Some? && f.httpStatus.value < 500
    else IsDefiniteOrderFailure(f.error)
  }

  /** How sending ends (None when it returns normally), and whether the money really left. */
  datatype Answer = Answer(failure: Option<Failure>, left: bool)

  predicate Refuses(venue: string, a: Answer) {
    a.failure.Some? && DefinitelyRefused(venue, a.failure.value)
  }

  /** `left` is hidden: the withdrawals that really left, with the day they were attempted. */
  datatype State = State(ledger: seq<Entry>, nextId: nat, left: seq<Entry>)

  datatype Attempt = Attempt(request: Request, now: int, answer: Answer)

  /** Only a definite refusal is assumed truthful. */
  predicate Truthful(a: Attempt) {
    Refuses(a.request.venue, a.answer) ==> !a.answer.left
  }

  /** One withdrawal: check, record before sending, send, forget only what was definitely refused. */
  function Withdraw(s: State, gates: string -> Option<Gate>, a: Attempt): State {
    var r := a.request;
    if !Allowed(s.ledger, gates(r.venue), r, a.now) then s
    else
      var e := EntryOf(r, s.nextId, a.now);
      var recorded := s.ledger + [e];
      State(if Refuses(r.venue, a.answer) then Without(recorded, e.id) else recorded, s.nextId + 1,
            if a.answer.left then s.left + [e] else s.left)
  }

  function Run(s: State, gates: string -> Option<Gate>, attempts: seq<Attempt>): State {
    if attempts == [] then s else Withdraw(Run(s, gates, attempts[..|attempts| - 1]), gates, attempts[|attempts| - 1])
  }

  datatype Outcome = Denied(code: ErrorCode) | Failed(failure: Failure) | Accepted

  /** The ledger file and the calls on it. */
  class Ledger {
    var entries: seq<Entry>
    var nextId: nat

    constructor ()
      ensures entries == [] && nextId == 0
    {
      entries, nextId := [], 0;
    }

    method AssertWithdrawAllowed(gate: Option<Gate>, r: Request, now: int) returns (refusal: Option<ErrorCode>)
      ensures refusal.None? <==> Allowed(entries, gate, r, now)
      ensures refusal == Some(INVALID_PARAMS) <==> gate.Some? && (r.amount.None? || r.amount.value <= 0.0)
      ensures refusal in {None, Some(INVALID_PARAMS), Some(POLICY_DENIED)}
    {
      if gate.None? { return Some(POLICY_DENIED); }
      if r.amount.None? || r.amount.value <= 0.0 { return Some(INVALID_PARAMS); }
      var n := r.amount.value;
      if Lower(r.to) !in gate.value.allowlist { return Some(POLICY_DENIED); }
      if n > gate.value.maxPerTx { return Some(POLICY_DENIED); }
      Appended(entries, EntryOf(r, 0, now), r.venue, r.network, UtcDay(now));
      var today := WithdrawnOnDay(entries, r.venue, r.network, UtcDay(now));
      if today + n > gate.value.maxPerDay { return Some(POLICY_DENIED); }
      refusal := None;
    }

    method RecordWithdrawAttempt(r: Request, now: int) returns (id: nat)
      requires r.amount.Some?
      modifies this
      ensures id == old(nextId) && nextId == old(nextId) + 1
      ensures entries == old(entries) + [EntryOf(r, id, now)]
    {
      id := nextId;
      nextId := nextId + 1;
      entries := entries + [EntryOf(r, id, now)];
    }

    method ForgetWithdrawAttempt(id: nat)
      modifies this`entries
      ensures entries == Without(old(entries), id)
    {
      entries := Without(entries, id);
    }

    /** The gated send: `answer` is what sending does, `before` the withdrawals that left so far. */
    method SendWithdrawal(gate: Option<Gate>, r: Request, now: int, answer: Answer, ghost before: seq<Entry>)
      returns (outcome: Outcome)
      modifies this
      ensures var s' := Withdraw(State(old(entries), old(nextId), before), _ => gate, Attempt(r, now, answer));
              entries == s'.ledger && nextId == s'.nextId
      ensures if !Allowed(old(entries), gate, r, now)
              then outcome.Denied? && outcome.code in {INVALID_PARAMS, POLICY_DENIED}
              else outcome == (if answer.failure.Some? then Failed(answer.failure.value) else Accepted)
    {
      var refusal := AssertWithdrawAllowed(gate, r, now);
      if refusal.Some? { return Denied(refusal.value); }
      var attempt := RecordWithdrawAttempt(r, now);
      if answer.failure.Some? {
        if DefinitelyRefused(r.venue, answer.failure.value) { ForgetWithdrawAttempt(attempt); }
        return Failed(answer.failure.value);
      }
      outcome := Accepted;
    }
  }

  // ── Limits over whole runs ──

  ghost predicate Fresh(ledger: seq<Entry>, nextId: nat) {
    forall i :: 0 <= i < |ledger| ==> ledger[i].id < nextId
  }

  /** Every entry was allowed: allowlisted, positive, within the per-transaction limit. */
  ghost predicate EntriesAllowed(ledger: seq<Entry>, gates: string -> Option<Gate>) {
    forall i :: 0 <= i < |ledger| ==>
      var e := ledger[i];
      gates(e.venue).Some? && e.to in gates(e.venue).value.allowlist && 0.0 < e.amount <= gates(e.venue).value.maxPerTx
  }

  /** What left is at most what the ledger holds, for every venue, network and day. */
  ghost predicate LeftCovered(s: State) {
    forall v: string, n: string, d: int :: WithdrawnOnDay(s.left, v, n, d) <= WithdrawnOnDay(s.ledger, v, n, d)
  }

  /** No day of any venue and network exceeds its limit (a day without withdrawals totals 0, whatever the limit). */
  ghost predicate DaysWithin(ledger: seq<Entry>, gates: string -> Option<Gate>) {
    forall v: string, n: string, d: int :: gates(v).Some? ==>
      WithdrawnOnDay(ledger, v, n, d) <= gates(v).value.maxPerDay || WithdrawnOnDay(ledger, v, n, d) == 0.0
  }

  ghost predicate Inv(s: State, gates: string -> Option<Gate>) {
    Fresh(s.ledger, s.nextId) && EntriesAllowed(s.ledger, gates) && DaysWithin(s.ledger, gates) && LeftCovered(s)
  }

  lemma Appended(ledger: seq<Entry>, e: Entry, v: string, n: string, d: int)
    ensures WithdrawnOnDay(ledger + [e], v, n, d)
            == WithdrawnOnDay(ledger, v, n, d) + if Counts(e, v, n, d) then e.amount else 0.0
  {
    assert (ledger + [e])[..|ledger|] == ledger;
  }

  lemma {:induction false} WithoutAbsent(ledger: seq<Entry>, id: nat)
    requires forall i :: 0 <= i < |ledger| ==> ledger[i].id != id
    ensures Without(ledger, id) == ledger
  {
    if ledger != [] { WithoutAbsent(ledger[..|ledger| - 1], id); }
  }

  /** Forgetting an attempt undoes its record exactly. */
  lemma ForgetUndoesRecord(ledger: seq<Entry>, e: Entry)
    requires Fresh(ledger, e.id)
    ensures Without(ledger + [e], e.id) == ledger
  {
    assert (ledger + [e])[..|ledger|] == ledger;
    WithoutAbsent(ledger, e.id);
  }

  lemma {:induction false} WithdrawKeeps(s: State, gates: string -> Option<Gate>, a: Attempt)
    requires Inv(s, gates) && Truthful(a)
    ensures Inv(Withdraw(s, gates, a), gates)
  {
    var r, s' := a.request, Withdraw(s, gates, a);
    if Allowed(s.ledger, gates(r.venue), r, a.now) {
      var e := EntryOf(r, s.nextId, a.now);
      ForgetUndoesRecord(s.ledger, e);
      Appended(s.ledger, EntryOf(r, 0, a.now), r.venue, r.network, UtcDay(a.now));
      hide WithdrawnOnDay, UtcDay;
      forall v: string, n: string, d: int
        ensures WithdrawnOnDay(s'.left, v, n, d) <= WithdrawnOnDay(s'.ledger, v, n, d)
        ensures gates(v).Some? ==>
                WithdrawnOnDay(s'.ledger, v, n, d) <= gates(v).value.maxPerDay
                  || WithdrawnOnDay(s'.ledger, v, n, d) == 0.0
      {
        Appended(s.ledger, e, v, n, d);
        Appended(s.left, e, v, n, d);
        assert WithdrawnOnDay(s.left, v, n, d) <= WithdrawnOnDay(s.ledger, v, n, d);
      }
    }
  }

  /** Over any serial run, under any clock, one that goes back included: every venue, network and
      UTC day stays within maxPerDay, every recorded withdrawal is allowlisted and within maxPerTx,
      and what really left on a day's attempts is at most what the ledger says. */
  lemma {:induction false} LimitsHoldOverRuns(gates: string -> Option<Gate>, attempts: seq<Attempt>)
    requires forall i :: 0 <= i < |attempts| ==> Truthful(attempts[i])
    ensures Inv(Run(State([], 0, []), gates, attempts), gates)
  {
    hide Withdraw, Inv;
    if attempts == [] {
      EmptyInv(gates);
    } else {
      LimitsHoldOverRuns(gates, attempts[..|attempts| - 1]);
      WithdrawKeeps(Run(State([], 0, []), gates, attempts[..|attempts| - 1]), gates, attempts[|attempts| - 1]);
    }
  }

  lemma EmptyInv(gates: string -> Option<Gate>)
    ensures Inv(State([], 0, []), gates)
  {
  }

  /** The gate is not stricter than its limits: with them met, a withdrawal is let through, and an
      unknown outcome keeps counting against the day while a definite refusal gives it back. */
  lemma GateIsExact(s: State, gates: string -> Option<Gate>, a: Attempt)
    requires Fresh(s.ledger, s.nextId)
    ensures var s', r := Withdraw(s, gates, a), a.request;
            var allowed := gates(r.venue).Some? && r.amount.Some?
                           && 0.0 < r.amount.value <= gates(r.venue).value.maxPerTx
                           && Lower(r.to) in gates(r.venue).value.allowlist
                           && WithdrawnOnDay(s.ledger, r.venue, r.network, UtcDay(a.now)) + r.amount.value
                              <= gates(r.venue).value.maxPerDay;
            && (s'.nextId == s.nextId + 1 <==> allowed)
            && (!allowed || Refuses(r.venue, a.answer) ==> s'.ledger == s.ledger)
            && (allowed && !Refuses(r.venue, a.answer) ==>
                 forall v: string, n: string, d: int ::
                   WithdrawnOnDay(s'.ledger, v, n, d) == WithdrawnOnDay(s.ledger, v, n, d)
                     + if (v, n, d) == (r.venue, r.network, UtcDay(a.now)) then r.amount.value else 0.0)
  {
    hide WithdrawnOnDay, UtcDay, Lower, DefinitelyRefused;
    var r := a.request;
    if r.amount.Some? { Appended(s.ledger, EntryOf(r, 0, a.now), r.venue, r.network, UtcDay(a.now)); }
    if Allowed(s.ledger, gates(r.venue), r, a.now) {
      var e := EntryOf(r, s.nextId, a.now);
      ForgetUndoesRecord(s.ledger, e);
      forall v: string, n: string, d: int { Appended(s.ledger, e, v, n, d); }
    }
  }

  // ── What the gate's words mean ──

  /** A UTC day is the 24 hours that begin at its midnight. */
  lemma UtcDayIs(ms: int)
    ensures var day := 24 * 60 * 60 * 1000; UtcDay(ms) * day <= ms < (UtcDay(ms) + 1) * day
  {
  }

  /** Only what counts on that venue, network and UTC day is in the total: a single entry counts with its
      amount or not at all, and totals add up. */
  lemma {:induction false} TotalsAddUp(a: seq<Entry>, b: seq<Entry>, v: string, n: string, d: int)
    ensures WithdrawnOnDay(a + b, v, n, d) == WithdrawnOnDay(a, v, n, d) + WithdrawnOnDay(b, v, n, d)
    ensures forall e :: WithdrawnOnDay([e], v, n, d)
                        == if e.venue == v && e.network == n && d * 86400000 <= e.at < d * 86400000 + 86400000
                           then e.amount else 0.0
  {
    forall e: Entry ensures WithdrawnOnDay([e], v, n, d)
                            == if e.venue == v && e.network == n && d * 86400000 <= e.at < d * 86400000 + 86400000
                               then e.amount else 0.0
    {
      assert [e][..0] == [] && WithdrawnOnDay([e][..0], v, n, d) == 0.0;
    }
    if b == [] {
      assert a + b == a;
    } else {
      assert (a + b)[..|a + b| - 1] == a + b[..|b| - 1];
      TotalsAddUp(a, b[..|b| - 1], v, n, d);
    }
  }

  /** A QFEX send was refused for good exactly when it threw a typed error that is not ORDER_PENDING and the
      venue answered below HTTP 500; a Hyperliquid send when it threw a definite order failure. */
  lemma RefusedIff(venue: string, a: Answer)
    ensures Refuses(venue, a) <==>
              match a.failure
              case None => false
              case Some(f) =>
                f.error.PerpError? &&
                if venue == "qfex" then f.error.code != ORDER_PENDING && f.httpStatus.Some? && f.httpStatus.value <= 499
                else f.error.sent == Some(false) || f.error.code in DEFINITE_ORDER_FAILURE_CODES
  {
  }
}
