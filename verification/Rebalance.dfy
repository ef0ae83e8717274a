/** src/rebalance.ts, computeRebalancePlan: targets, deltas and the greedy matching of surpluses to
    deficits. The matching is a nested loop over an array of deficits it writes into; its
    specification records which surplus fed which deficit, before the amounts are floored. */
module Rebalance {
  import opened Prelude

  datatype Snapshot = Snapshot(exchange: string, available: real)

  datatype Move = Move(from: string, to: string, amount: int)

  /** `amt` of surplus `i` given to deficit `j`. */
  datatype Alloc = Alloc(i: nat, j: nat, amt: real)

  datatype PlanOutcome = Moves(moves: seq<Move>) | NoBridgeRoute(exchange: string)

  type Entry = (string, real)

  // ── Targets and deltas ──

  function TotalAvailable(snapshots: seq<Snapshot>): real {
    if snapshots == [] then 0.0 else TotalAvailable(snapshots[..|snapshots| - 1]) + snapshots[|snapshots| - 1].available
  }

  function Target(snapshots: seq<Snapshot>, weights: Option<map<string, real>>, exchange: string): real
    requires snapshots != []
  {
    TotalAvailable(snapshots) *
    (if weights.Some? && exchange in weights.value then weights.value[exchange] else 1.0 / |snapshots| as real)
  }

  function Delta(available: real, target: real, reserve: real): real {
    Max(0.0, available - reserve) - Max(0.0, target - reserve)
  }

  /** The deltas map after the first `n` snapshots. */
  function Deltas(snapshots: seq<Snapshot>, weights: Option<map<string, real>>, reserve: real, n: nat): seq<Entry>
    requires n <= |snapshots|
  {
    if n == 0 then []
    else
      var s := snapshots[n - 1];
      Put(Deltas(snapshots, weights, reserve, n - 1), s.exchange,
          Delta(s.available, Target(snapshots, weights, s.exchange), reserve))
  }

  // ── Array.prototype.sort: stable, by value ──

  predicate Ahead(ascending: bool, a: Entry, b: Entry) {
    if ascending then a.1 <= b.1 else a.1 >= b.1
  }

  function Insert(ascending: bool, xs: seq<Entry>, x: Entry): (r: seq<Entry>)
    ensures |r| == |xs| + 1
  {
    if xs == [] then [x]
    else if Ahead(ascending, xs[|xs| - 1], x) then xs + [x]
    else Insert(ascending, xs[..|xs| - 1], x) + [xs[|xs| - 1]]
  }

  function Sort(ascending: bool, xs: seq<Entry>): (r: seq<Entry>)
    ensures |r| == |xs|
  {
    if xs == [] then [] else Insert(ascending, Sort(ascending, xs[..|xs| - 1]), xs[|xs| - 1])
  }

  function FilterAbove(xs: seq<Entry>, min: real): seq<Entry> {
    if xs == [] then []
    else FilterAbove(xs[..|xs| - 1], min) + (if xs[|xs| - 1].1 > min then [xs[|xs| - 1]] else [])
  }

  function FilterBelow(xs: seq<Entry>, max: real): seq<Entry> {
    if xs == [] then []
    else FilterBelow(xs[..|xs| - 1], max) + (if xs[|xs| - 1].1 < max then [xs[|xs| - 1]] else [])
  }

  function Surpluses(deltas: seq<Entry>, minMove: real): seq<Entry> {
    Sort(false, FilterAbove(deltas, minMove))
  }

  function Deficits(deltas: seq<Entry>, minMove: real): seq<Entry> {
    Sort(true, FilterBelow(deltas, -minMove))
  }

  // ── The matching ──

  datatype Matching = Matching(remaining: real, left: seq<real>, allocs: seq<Alloc>)

  /** The inner loop for surplus `i`, from column `j`; `left` holds the (negative) deficits. */
  function Row(minMove: real, i: nat, j: nat, m: Matching): Matching
    decreases |m.left| - j
  {
    if j >= |m.left| || m.remaining < minMove then m
    else if m.left[j] >= -minMove then Row(minMove, i, j + 1, m)
    else
      var amt := Min(m.remaining, Abs(m.left[j]));
      if amt < minMove then Row(minMove, i, j + 1, m)
      else Row(minMove, i, j + 1,
               Matching(m.remaining - amt, m.left[j := m.left[j] + amt], m.allocs + [Alloc(i, j, amt)]))
  }

  /** The outer loop from surplus `i`. */
  function Rows(minMove: real, surpluses: seq<real>, i: nat, left: seq<real>, allocs: seq<Alloc>): (seq<real>,
      seq<Alloc>)
    decreases |surpluses| - i
  {
    if i >= |surpluses| then (left, allocs)
    else
      var m := Row(minMove, i, 0, Matching(surpluses[i], left, allocs));
      Rows(minMove, surpluses, i + 1, m.left, m.allocs)
  }

  function Amounts(xs: seq<Entry>): (r: seq<real>)
    ensures |r| == |xs|
  {
    seq(|xs|, k requires 0 <= k < |xs| => xs[k].1)
  }

  function MoveOf(surpluses: seq<Entry>, deficits: seq<Entry>, a: Alloc): Move {
    if a.i < |surpluses| && a.j < |deficits| then Move(surpluses[a.i].0, deficits[a.j].0, a.amt.Floor)
    else Move("", "", 0)
  }

  function MovesOf(surpluses: seq<Entry>, deficits: seq<Entry>, allocs: seq<Alloc>): (r: seq<Move>)
    ensures |r| == |allocs|
  {
    seq(|allocs|, k requires 0 <= k < |allocs| => MoveOf(surpluses, deficits, allocs[k]))
  }

  /** assertBridgeRoute on both ends, in the order of the moves: the first exchange without a route. */
  function FirstBlocked(moves: seq<Move>, noRoute: set<string>): Option<string> {
    if moves == [] then None
    else if moves[0].from in noRoute then Some(moves[0].from)
    else if moves[0].to in noRoute then Some(moves[0].to)
    else FirstBlocked(moves[1..], noRoute)
  }

  function Allocs(snapshots: seq<Snapshot>, minMove: real, weights: Option<map<string, real>>,
      reserve: real): seq<Alloc> {
    var deltas := Deltas(snapshots, weights, reserve, |snapshots|);
    Rows(minMove, Amounts(Surpluses(deltas, minMove)), 0, Amounts(Deficits(deltas, minMove)), []).1
  }

  /** The moves of the plan, were every exchange reachable. */
  function PlannedMoves(snapshots: seq<Snapshot>, minMove: real, weights: Option<map<string, real>>,
      reserve: real): seq<Move> {
    var deltas := Deltas(snapshots, weights, reserve, |snapshots|);
    MovesOf(Surpluses(deltas, minMove), Deficits(deltas, minMove), Allocs(snapshots, minMove, weights, reserve))
  }

  function RebalancePlan(snapshots: seq<Snapshot>, minMove: real, weights: Option<map<string, real>>, reserve: real,
      noRoute: set<string>): PlanOutcome {
    Outcome(PlannedMoves(snapshots, minMove, weights, reserve), noRoute)
  }

  function Outcome(moves: seq<Move>, noRoute: set<string>): PlanOutcome {
    if FirstBlocked(moves, noRoute).Some? then NoBridgeRoute(FirstBlocked(moves, noRoute).value) else Moves(moves)
  }

  lemma {:induction false} FirstBlockedAppend(a: seq<Move>, b: seq<Move>, noRoute: set<string>)
    ensures FirstBlocked(a + b, noRoute) == if FirstBlocked(a, noRoute).Some? then FirstBlocked(a, noRoute)
            else FirstBlocked(b, noRoute)
  {
    if a == [] {
      assert a + b == b;
    } else {
      assert (a + b)[1..] == a[1..] + b;
      FirstBlockedAppend(a[1..], b, noRoute);
    }
  }

  /** Later turns only append allocations. */
  lemma {:induction false} RowExtends(minMove: real, i: nat, j: nat, m: Matching)
    ensures var r := Row(minMove, i, j, m);
            |r.left| == |m.left| && |m.allocs| <= |r.allocs| && r.allocs[..|m.allocs|] == m.allocs
    decreases |m.left| - j
  {
    if !(j >= |m.left| || m.remaining < minMove) {
      if m.left[j] >= -minMove || Min(m.remaining, Abs(m.left[j])) < minMove {
        RowExtends(minMove, i, j + 1, m);
      } else {
        var amt := Min(m.remaining, Abs(m.left[j]));
        var m1 := Matching(m.remaining - amt, m.left[j := m.left[j] + amt], m.allocs + [Alloc(i, j, amt)]);
        RowExtends(minMove, i, j + 1, m1);
        assert Row(minMove, i, j, m).allocs[..|m.allocs|]
               == Row(minMove, i, j + 1, m1).allocs[..|m1.allocs|][..|m.allocs|];
      }
    }
  }

  lemma {:induction false} RowsExtend(minMove: real, surpluses: seq<real>, i: nat, left: seq<real>, allocs: seq<Alloc>)
    ensures var r := Rows(minMove, surpluses, i, left, allocs); |allocs| <= |r.1| && r.1[..|allocs|] == allocs
    decreases |surpluses| - i
  {
    if i < |surpluses| {
      var m := Row(minMove, i, 0, Matching(surpluses[i], left, allocs));
      RowExtends(minMove, i, 0, Matching(surpluses[i], left, allocs));
      RowsExtend(minMove, surpluses, i + 1, m.left, m.allocs);
      var r := Rows(minMove, surpluses, i, left, allocs);
      assert r.1[..|allocs|] == r.1[..|m.allocs|][..|allocs|];
    }
  }

  /** A blocked prefix decides the outcome. */
  lemma BlockedPrefix(surpluses: seq<Entry>, deficits: seq<Entry>, allocs: seq<Alloc>, n: nat, noRoute: set<string>)
    requires n <= |allocs| && FirstBlocked(MovesOf(surpluses, deficits, allocs[..n]), noRoute).Some?
    ensures FirstBlocked(MovesOf(surpluses, deficits, allocs), noRoute)
            == FirstBlocked(MovesOf(surpluses, deficits, allocs[..n]), noRoute)
  {
    assert MovesOf(surpluses, deficits, allocs)
           == MovesOf(surpluses, deficits, allocs[..n]) + MovesOf(surpluses, deficits, allocs[n..]);
    FirstBlockedAppend(MovesOf(surpluses, deficits, allocs[..n]), MovesOf(surpluses, deficits, allocs[n..]), noRoute);
  }

  method ComputeRebalancePlan(snapshots: seq<Snapshot>, minMove: real, weights: Option<map<string, real>>,
      reserve: real, noRoute: set<string>)
    returns (r: PlanOutcome)
    ensures r == RebalancePlan(snapshots, minMove, weights, reserve, noRoute)
  {
    hide Delta, Target, Put, Sort, FilterAbove, FilterBelow, Rows;
    var deltas: seq<Entry> := [];
    var n := 0;
    while n < |snapshots|
      invariant 0 <= n <= |snapshots|
      invariant deltas == Deltas(snapshots, weights, reserve, n)
    {
      var s := snapshots[n];
      deltas := Put(deltas, s.exchange, Delta(s.available, Target(snapshots, weights, s.exchange), reserve));
      n := n + 1;
    }
    r := MatchSurpluses(Surpluses(deltas, minMove), Deficits(deltas, minMove), minMove, noRoute);
  }

  method MatchSurpluses(surpluses: seq<Entry>, deficits: seq<Entry>, minMove: real, noRoute: set<string>)
      returns (r: PlanOutcome)
    ensures r == Outcome(MovesOf(surpluses, deficits, Rows(minMove, Amounts(surpluses), 0, Amounts(deficits), []).1),
                         noRoute)
  {
    ghost var goal := Rows(minMove, Amounts(surpluses), 0, Amounts(deficits), []);
    var deficit := new real[|deficits|](k requires 0 <= k < |deficits| => deficits[k].1);
    assert deficit[..] == Amounts(deficits);
    var moves: seq<Move> := [];
    ghost var allocs: seq<Alloc> := [];
    var i := 0;
    while i < |surpluses|
      invariant 0 <= i <= |surpluses| && deficit.Length == |deficits|
      invariant Rows(minMove, Amounts(surpluses), i, deficit[..], allocs) == goal
      invariant moves == MovesOf(surpluses, deficits, allocs) && FirstBlocked(moves, noRoute).None?
    {
      ghost var row := Row(minMove, i, 0, Matching(surpluses[i].1, deficit[..], allocs));
      var blocked;
      blocked, moves, allocs := MatchRow(surpluses, deficits, deficit, minMove, noRoute, i, moves, allocs);
      if blocked.Some? {
        RowsExtend(minMove, Amounts(surpluses), i + 1, row.left, row.allocs);
        assert goal.1[..|allocs|] == goal.1[..|row.allocs|][..|allocs|] == allocs;
        BlockedPrefix(surpluses, deficits, goal.1, |allocs|, noRoute);
        return NoBridgeRoute(blocked.value);
      }
      i := i + 1;
    }
    r := Moves(moves);
  }

  /** The inner loop: writes into `deficit`, or stops at the first move without a route. */
  method MatchRow(surpluses: seq<Entry>, deficits: seq<Entry>, deficit: array<real>, minMove: real,
      noRoute: set<string>, i: nat, moves0: seq<Move>, ghost allocs0: seq<Alloc>)
    returns (blocked: Option<string>, moves: seq<Move>, ghost allocs: seq<Alloc>)
    requires i < |surpluses| && deficit.Length == |deficits|
    requires moves0 == MovesOf(surpluses, deficits, allocs0) && FirstBlocked(moves0, noRoute).None?
    modifies deficit
    ensures var row := Row(minMove, i, 0, Matching(surpluses[i].1, old(deficit[..]), allocs0));
            && |allocs| <= |row.allocs| && row.allocs[..|allocs|] == allocs
            && FirstBlocked(MovesOf(surpluses, deficits, allocs), noRoute) == blocked
            && (blocked.None? ==>
                deficit[..] == row.left && allocs == row.allocs && moves == MovesOf(surpluses, deficits, allocs))
  {
    blocked, moves, allocs := None, moves0, allocs0;
    var remaining := surpluses[i].1;
    ghost var row := Row(minMove, i, 0, Matching(remaining, deficit[..], allocs));
    var j := 0;
    while j < deficit.Length && remaining >= minMove
      invariant 0 <= j <= deficit.Length
      invariant Row(minMove, i, j, Matching(remaining, deficit[..], allocs)) == row
      invariant moves == MovesOf(surpluses, deficits, allocs) && FirstBlocked(moves, noRoute).None?
    {
      var deficitAmt := deficit[j];
      var moveAmt := Min(remaining, Abs(deficitAmt));
      if deficitAmt < -minMove && moveAmt >= minMove {
        ghost var left := deficit[..];
        var move := Move(surpluses[i].0, deficits[j].0, moveAmt.Floor);
        FirstBlockedAppend(moves, [move], noRoute);
        allocs := allocs + [Alloc(i, j, moveAmt)];
        assert moves + [move] == MovesOf(surpluses, deficits, allocs);
        deficit[j], remaining := deficitAmt + moveAmt, remaining - moveAmt;
        assert deficit[..] == left[j := deficitAmt + moveAmt];
        if move.from in noRoute || move.to in noRoute {
          RowExtends(minMove, i, j + 1, Matching(remaining, deficit[..], allocs));
          blocked := Some(if move.from in noRoute then move.from else move.to);
          return;
        }
        moves := moves + [move];
      }
      j := j + 1;
    }
  }
}
