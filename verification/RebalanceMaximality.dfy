/** Which exchanges a plan matches, read from the snapshots alone, and that it leaves nothing to match. */
module RebalanceMaximality {
  import opened Prelude
  import opened Rebalance
  import opened RebalanceProperties

  // ── The target ──

  lemma {:induction false} TotalIsSum(snapshots: seq<Snapshot>)
    ensures TotalAvailable(snapshots) == Sum(Availables(snapshots, []))
  {
    if snapshots != [] {
      var n := |snapshots| - 1;
      TotalIsSum(snapshots[..n]);
      assert Availables(snapshots, [])[..n] == Availables(snapshots[..n], []);
    }
  }

  /** An exchange's target is its weight's share of what all have available, or an equal share without a weight. */
  lemma TargetIsShare(snapshots: seq<Snapshot>, weights: Option<map<string, real>>, exchange: string)
    requires snapshots != []
    ensures var target, total := Target(snapshots, weights, exchange), Sum(Availables(snapshots, []));
            if weights.Some? && exchange in weights.value then target == weights.value[exchange] * total
            else target * |snapshots| as real == total
  {
    TotalIsSum(snapshots);
    hide TotalAvailable, Sum;
    Shares(TotalAvailable(snapshots), |snapshots| as real);
  }

  lemma Shares(total: real, n: real)
    requires n > 0.0
    ensures (total * (1.0 / n)) * n == total
  {
    assert (1.0 / n) * n == 1.0;
    assert (total * (1.0 / n)) * n == total * ((1.0 / n) * n);
  }

  // ── Surpluses and deficits ──

  lemma {:induction false} FilterAboveExactly(xs: seq<Entry>, min: real, e: Entry)
    ensures multiset(FilterAbove(xs, min))[e] == if e.1 > min then multiset(xs)[e] else 0
  {
    if xs != [] {
      FilterAboveExactly(xs[..|xs| - 1], min, e);
      assert xs == xs[..|xs| - 1] + [xs[|xs| - 1]];
    }
  }

  lemma {:induction false} FilterBelowExactly(xs: seq<Entry>, max: real, e: Entry)
    ensures multiset(FilterBelow(xs, max))[e] == if e.1 < max then multiset(xs)[e] else 0
  {
    if xs != [] {
      FilterBelowExactly(xs[..|xs| - 1], max, e);
      assert xs == xs[..|xs| - 1] + [xs[|xs| - 1]];
    }
  }

  /** Every entry above minMove is a surplus, as often as it stands among the deltas, and nothing else is;
      likewise the deficits below -minMove. */
  lemma {:induction false} ListsAreExact(deltas: seq<Entry>, minMove: real, e: Entry)
    ensures multiset(Surpluses(deltas, minMove))[e] == if e.1 > minMove then multiset(deltas)[e] else 0
    ensures multiset(Deficits(deltas, minMove))[e] == if e.1 < -minMove then multiset(deltas)[e] else 0
  {
    hide Sort, FilterAbove, FilterBelow;
    FilterAboveExactly(deltas, minMove, e);
    FilterBelowExactly(deltas, -minMove, e);
    SortPermutes(false, FilterAbove(deltas, minMove));
    SortPermutes(true, FilterBelow(deltas, -minMove));
  }

  /** What exchange `k` can give (positive) or lacks (negative), from available, target and reserve. */
  function Excess(snapshots: seq<Snapshot>, weights: Option<map<string, real>>, reserve: real, k: nat): real
    requires k < |snapshots|
  {
    var available, target := snapshots[k].available, Target(snapshots, weights, snapshots[k].exchange);
    (if available > reserve then available - reserve else 0.0) - (if target > reserve then target - reserve else 0.0)
  }

  ghost function Givers(snapshots: seq<Snapshot>, minMove: real, weights: Option<map<string, real>>, reserve: real,
      n: nat): set<nat>
    requires n <= |snapshots|
  {
    set k: nat | k < n && Excess(snapshots, weights, reserve, k) > minMove
  }

  ghost function Takers(snapshots: seq<Snapshot>, minMove: real, weights: Option<map<string, real>>, reserve: real,
      n: nat): set<nat>
    requires n <= |snapshots|
  {
    set k: nat | k < n && Excess(snapshots, weights, reserve, k) < -minMove
  }

  lemma DeltaIs(snapshots: seq<Snapshot>, weights: Option<map<string, real>>, reserve: real, n: nat, k: nat)
    requires k < n <= |snapshots| && DistinctExchanges(snapshots)
    ensures var d := Deltas(snapshots, weights, reserve, n);
            |d| == n && d[k] == (snapshots[k].exchange, Excess(snapshots, weights, reserve, k))
  {
    hide Target, Deltas;
    DeltasAreSnapshots(snapshots, weights, reserve, n);
  }

  lemma {:induction false} AsManyAsSnapshots(snapshots: seq<Snapshot>, minMove: real, weights: Option<map<string,
      real>>,
      reserve: real, n: nat)
    requires n <= |snapshots| && DistinctExchanges(snapshots)
    ensures var d := Deltas(snapshots, weights, reserve, n);
            && |FilterAbove(d, minMove)| == |Givers(snapshots, minMove, weights, reserve, n)|
            && |FilterBelow(d, -minMove)| == |Takers(snapshots, minMove, weights, reserve, n)|
  {
    hide Deltas, Excess, FilterAbove, FilterBelow, Givers, Takers;
    if n == 0 {
      NoDeltas(snapshots, minMove, weights, reserve);
    } else {
      AsManyAsSnapshots(snapshots, minMove, weights, reserve, n - 1);
      var d := Deltas(snapshots, weights, reserve, n);
      DeltaIs(snapshots, weights, reserve, n, n - 1);
      DeltasGrow(snapshots, weights, reserve, n);
      FilterLast(d, minMove);
      GiversGrow(snapshots, minMove, weights, reserve, n);
    }
  }

  lemma FilterLast(d: seq<Entry>, minMove: real)
    requires d != []
    ensures |FilterAbove(d, minMove)|
            == |FilterAbove(d[..|d| - 1], minMove)| + (if d[|d| - 1].1 > minMove then 1 else 0)
    ensures |FilterBelow(d, -minMove)|
            == |FilterBelow(d[..|d| - 1], -minMove)| + (if d[|d| - 1].1 < -minMove then 1 else 0)
  {
  }

  lemma GiversGrow(snapshots: seq<Snapshot>, minMove: real, weights: Option<map<string, real>>, reserve: real, n: nat)
    requires 0 < n <= |snapshots|
    ensures |Givers(snapshots, minMove, weights, reserve, n)|
            == |Givers(snapshots, minMove, weights, reserve, n - 1)|
               + (if Excess(snapshots, weights, reserve, n - 1) > minMove then 1 else 0)
    ensures |Takers(snapshots, minMove, weights, reserve, n)|
            == |Takers(snapshots, minMove, weights, reserve, n - 1)|
               + (if Excess(snapshots, weights, reserve, n - 1) < -minMove then 1 else 0)
  {
    hide Excess;
    var g, g' := Givers(snapshots, minMove, weights, reserve, n), Givers(snapshots, minMove, weights, reserve, n - 1);
    var t, t' := Takers(snapshots, minMove, weights, reserve, n), Takers(snapshots, minMove, weights, reserve, n - 1);
    assert g == if Excess(snapshots, weights, reserve, n - 1) > minMove then g' + {n - 1} else g';
    assert t == if Excess(snapshots, weights, reserve, n - 1) < -minMove then t' + {n - 1} else t';
  }

  lemma NoDeltas(snapshots: seq<Snapshot>, minMove: real, weights: Option<map<string, real>>, reserve: real)
    ensures Deltas(snapshots, weights, reserve, 0) == []
    ensures FilterAbove([], minMove) == FilterBelow([], -minMove) == []
    ensures Givers(snapshots, minMove, weights, reserve, 0) == Takers(snapshots, minMove, weights, reserve, 0) == {}
  {
  }

  lemma DeltasGrow(snapshots: seq<Snapshot>, weights: Option<map<string, real>>, reserve: real, n: nat)
    requires 0 < n <= |snapshots| && DistinctExchanges(snapshots)
    ensures |Deltas(snapshots, weights, reserve, n)| == n
    ensures Deltas(snapshots, weights, reserve, n)[..n - 1] == Deltas(snapshots, weights, reserve, n - 1)
  {
    hide Deltas, Delta, Target;
    DeltasAreSnapshots(snapshots, weights, reserve, n);
    DeltasAreSnapshots(snapshots, weights, reserve, n - 1);
  }

  /** A snapshot whose excess is above minMove is the surplus list's entry of its exchange. */
  lemma StandsInLists(snapshots: seq<Snapshot>, minMove: real, weights: Option<map<string, real>>, reserve: real,
      k: nat)
    requires k < |snapshots| && DistinctExchanges(snapshots)
    ensures var deltas := Deltas(snapshots, weights, reserve, |snapshots|);
            var e := (snapshots[k].exchange, Excess(snapshots, weights, reserve, k));
            && (e.1 > minMove ==> e in Surpluses(deltas, minMove))
            && (e.1 < -minMove ==> e in Deficits(deltas, minMove))
  {
    hide Deltas, Excess, Surpluses, Deficits;
    DeltaIs(snapshots, weights, reserve, |snapshots|, k);
    var deltas := Deltas(snapshots, weights, reserve, |snapshots|);
    ListsAreExact(deltas, minMove, deltas[k]);
    assert deltas[k] in multiset(deltas);
    if deltas[k].1 > minMove { assert deltas[k] in multiset(Surpluses(deltas, minMove)); }
    if deltas[k].1 < -minMove { assert deltas[k] in multiset(Deficits(deltas, minMove)); }
  }

  // ── What a plan leaves ──

  /** The exact amounts `amts` behind the moves, summed by sender or by receiver. */
  function SentFrom(moves: seq<Move>, amts: seq<real>, exchange: string): real
    requires |moves| == |amts|
  {
    if moves == [] then 0.0
    else
      var n := |moves| - 1;
      SentFrom(moves[..n], amts[..n], exchange) + if moves[n].from == exchange then amts[n] else 0.0
  }

  function ReceivedAt(moves: seq<Move>, amts: seq<real>, exchange: string): real
    requires |moves| == |amts|
  {
    if moves == [] then 0.0
    else
      var n := |moves| - 1;
      ReceivedAt(moves[..n], amts[..n], exchange) + if moves[n].to == exchange then amts[n] else 0.0
  }

  function AmtsOf(allocs: seq<Alloc>): (r: seq<real>)
    ensures |r| == |allocs|
  {
    seq(|allocs|, k requires 0 <= k < |allocs| => allocs[k].amt)
  }

  lemma {:induction false} SumsByName(give: seq<Entry>, want: seq<Entry>, allocs: seq<Alloc>, i: nat, j: nat)
    requires DistinctKeys(give) && DistinctKeys(want) && i < |give| && j < |want|
    requires forall k :: 0 <= k < |allocs| ==> allocs[k].i < |give| && allocs[k].j < |want|
    ensures SentFrom(MovesOf(give, want, allocs), AmtsOf(allocs), give[i].0) == SentBy(allocs, i)
    ensures ReceivedAt(MovesOf(give, want, allocs), AmtsOf(allocs), want[j].0) == GotBy(allocs, j)
  {
    if allocs != [] {
      var n := |allocs| - 1;
      SumsByName(give, want, allocs[..n], i, j);
      assert MovesOf(give, want, allocs)[..n] == MovesOf(give, want, allocs[..n]);
      assert AmtsOf(allocs)[..n] == AmtsOf(allocs[..n]);
    }
  }

  /** What is left unsent of f's excess, or unfilled of t's lack, after the plan's exact amounts. */
  ghost predicate NothingToMatch(snapshots: seq<Snapshot>, minMove: real, weights: Option<map<string, real>>,
      reserve: real, moves: seq<Move>, amts: seq<real>, f: nat, t: nat)
    requires f < |snapshots| && t < |snapshots| && |moves| == |amts|
  {
    || Excess(snapshots, weights, reserve, f) - SentFrom(moves, amts, snapshots[f].exchange) < minMove
    || -Excess(snapshots, weights, reserve, t) - ReceivedAt(moves, amts, snapshots[t].exchange) <= minMove
  }

  /** With a positive minMove the plan is maximal and small: for every exchange with more than minMove to
      give and every one lacking more than minMove, one of the two is left with at most minMove; each pair
      is matched at most once; and S givers and D takers give at most S + D - 1 moves. The amounts behind the
      floored moves are `amts`. */
  lemma {:induction false} PlanIsMaximal(snapshots: seq<Snapshot>, minMove: real, weights: Option<map<string, real>>,
      reserve: real)
    returns (amts: seq<real>)
    requires minMove > 0.0 && DistinctExchanges(snapshots)
    ensures var moves := PlannedMoves(snapshots, minMove, weights, reserve);
            var givers := Givers(snapshots, minMove, weights, reserve, |snapshots|);
            var takers := Takers(snapshots, minMove, weights, reserve, |snapshots|);
            && |amts| == |moves| && (forall k :: 0 <= k < |moves| ==> moves[k].amount == amts[k].Floor)
            && (forall f, t :: f in givers && t in takers ==>
                  NothingToMatch(snapshots, minMove, weights, reserve, moves, amts, f, t))
            && (forall a, b :: 0 <= a < b < |moves| ==> moves[a].from != moves[b].from || moves[a].to != moves[b].to)
            && (if givers == {} || takers == {} then moves == [] else |moves| <= |givers| + |takers| - 1)
  {
    hide Deltas, Sort, FilterAbove, FilterBelow, Rows, EntryOf, Excess, SentFrom, ReceivedAt, Row;
    var deltas := Deltas(snapshots, weights, reserve, |snapshots|);
    var give, want := Surpluses(deltas, minMove), Deficits(deltas, minMove);
    var allocs := Allocs(snapshots, minMove, weights, reserve);
    MatchedLists(snapshots, minMove, weights, reserve);
    MatchingIsMaximal(minMove, Amounts(give), Amounts(want));
    AllocsInRange(minMove, give, want);
    AsManyAsSnapshots(snapshots, minMove, weights, reserve, |snapshots|);
    amts := AmtsOf(allocs);
    var moves := PlannedMoves(snapshots, minMove, weights, reserve);
    forall f, t | f in Givers(snapshots, minMove, weights, reserve, |snapshots|)
                  && t in Takers(snapshots, minMove, weights, reserve, |snapshots|)
      ensures NothingToMatch(snapshots, minMove, weights, reserve, moves, amts, f, t)
    {
      StandsInLists(snapshots, minMove, weights, reserve, f);
      StandsInLists(snapshots, minMove, weights, reserve, t);
      var i :| 0 <= i < |give| && give[i] == (snapshots[f].exchange, Excess(snapshots, weights, reserve, f));
      var j :| 0 <= j < |want| && want[j] == (snapshots[t].exchange, Excess(snapshots, weights, reserve, t));
      SumsByName(give, want, allocs, i, j);
      assert Amounts(give)[i] == give[i].1 && Amounts(want)[j] == want[j].1;
    }
  }

  lemma AllocsInRange(minMove: real, give: seq<Entry>, want: seq<Entry>)
    requires minMove >= 0.0 && (forall i :: 0 <= i < |give| ==> give[i].1 >= 0.0)
    requires forall j :: 0 <= j < |want| ==> want[j].1 <= 0.0
    ensures forall k :: 0 <= k < |Rows(minMove, Amounts(give), 0, Amounts(want), []).1| ==>
              var a := Rows(minMove, Amounts(give), 0, Amounts(want), []).1[k];
              a.i < |give| && a.j < |want|
  {
    hide Rows;
    RowsMatch(minMove, Amounts(give), Amounts(want), 0, Amounts(want), []);
  }
}
