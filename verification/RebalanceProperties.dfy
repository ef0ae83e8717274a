/** What a rebalancing plan guarantees: no sender below its target or the reserve, no receiver above
    its target, nothing created or lost, every move progress; and nothing more left to match. */
module RebalanceProperties {
  import opened Prelude
  import opened Rebalance

  // ── Sorting and filtering keep the entries ──

  ghost predicate SubEntries(xs: seq<Entry>, of: seq<Entry>) {
    DistinctKeys(xs) && forall k :: 0 <= k < |xs| ==> xs[k] in of
  }

  lemma {:induction false} InsertMembers(asc: bool, xs: seq<Entry>, x: Entry)
    ensures multiset(Insert(asc, xs, x)) == multiset(xs) + multiset{x}
  {
    if xs != [] {
      var n := |xs| - 1;
      assert xs == xs[..n] + [xs[n]];
      if !Ahead(asc, xs[n], x) { InsertMembers(asc, xs[..n], x); }
    }
  }

  /** sort() permutes. */
  lemma {:induction false} SortPermutes(asc: bool, xs: seq<Entry>)
    ensures multiset(Sort(asc, xs)) == multiset(xs)
  {
    if xs != [] {
      var n := |xs| - 1;
      assert xs == xs[..n] + [xs[n]];
      SortPermutes(asc, xs[..n]);
      InsertMembers(asc, Sort(asc, xs[..n]), xs[n]);
    }
  }

  ghost predicate Sorted(asc: bool, xs: seq<Entry>) {
    forall i, j :: 0 <= i < j < |xs| ==> if asc then xs[i].1 <= xs[j].1 else xs[j].1 <= xs[i].1
  }

  lemma {:induction false} InsertSorted(asc: bool, xs: seq<Entry>, x: Entry)
    requires Sorted(asc, xs)
    ensures Sorted(asc, Insert(asc, xs, x))
  {
    if xs != [] && !Ahead(asc, xs[|xs| - 1], x) {
      var n := |xs| - 1;
      var r := Insert(asc, xs[..n], x);
      InsertSorted(asc, xs[..n], x);
      InsertMembers(asc, xs[..n], x);
      forall k | 0 <= k < |r| ensures Ahead(asc, r[k], xs[n]) {
        assert r[k] in multiset(r);
        if r[k] != x { assert r[k] in xs[..n]; }
      }
    }
  }

  /** Largest surplus first (asc = false), deepest deficit first (asc = true). */
  lemma {:induction false} SortSorts(asc: bool, xs: seq<Entry>)
    ensures Sorted(asc, Sort(asc, xs))
  {
    if xs != [] {
      SortSorts(asc, xs[..|xs| - 1]);
      InsertSorted(asc, Sort(asc, xs[..|xs| - 1]), xs[|xs| - 1]);
    }
  }

  /** The entries of one value, in order. */
  ghost function OfValue(xs: seq<Entry>, v: real): seq<Entry> {
    if xs == [] then []
    else OfValue(xs[..|xs| - 1], v) + (if xs[|xs| - 1].1 == v then [xs[|xs| - 1]] else [])
  }

  lemma {:induction false} InsertIsLast(asc: bool, xs: seq<Entry>, x: Entry, v: real)
    ensures OfValue(Insert(asc, xs, x), v) == OfValue(xs, v) + if x.1 == v then [x] else []
  {
    if xs == [] || Ahead(asc, xs[|xs| - 1], x) {
      assert (xs + [x])[..|xs|] == xs;
    } else {
      var n := |xs| - 1;
      InsertIsLast(asc, xs[..n], x, v);
      assert (Insert(asc, xs[..n], x) + [xs[n]])[..|xs|] == Insert(asc, xs[..n], x);
    }
  }

  /** sort() is stable: entries of one value keep their order. */
  lemma {:induction false} SortIsStable(asc: bool, xs: seq<Entry>, v: real)
    ensures OfValue(Sort(asc, xs), v) == OfValue(xs, v)
  {
    if xs != [] {
      var n := |xs| - 1;
      SortIsStable(asc, xs[..n], v);
      InsertIsLast(asc, Sort(asc, xs[..n]), xs[n], v);
    }
  }

  lemma {:induction false} InsertKeys(asc: bool, xs: seq<Entry>, x: Entry)
    requires DistinctKeys(xs) && forall k :: 0 <= k < |xs| ==> xs[k].0 != x.0
    ensures DistinctKeys(Insert(asc, xs, x))
    ensures forall k :: 0 <= k < |xs| + 1 ==> Insert(asc, xs, x)[k] in xs + [x]
  {
    if xs != [] && !Ahead(asc, xs[|xs| - 1], x) {
      var n := |xs| - 1;
      InsertKeys(asc, xs[..n], x);
      var r := Insert(asc, xs[..n], x);
      forall k | 0 <= k < |r| ensures r[k].0 != xs[n].0 && r[k] in xs + [x] {
        assert r[k] in xs[..n] + [x];
        if r[k] != x { assert r[k] in xs[..n]; var m :| 0 <= m < n && xs[m] == r[k]; }
      }
    }
  }

  lemma {:induction false} SortKeys(asc: bool, xs: seq<Entry>, of: seq<Entry>)
    requires SubEntries(xs, of)
    ensures SubEntries(Sort(asc, xs), of) && forall k :: 0 <= k < |xs| ==> Sort(asc, xs)[k] in xs
  {
    if xs != [] {
      var n := |xs| - 1;
      SortKeys(asc, xs[..n], of);
      var s := Sort(asc, xs[..n]);
      forall k | 0 <= k < |s| ensures s[k].0 != xs[n].0 {
        assert s[k] in xs[..n];
        var m :| 0 <= m < n && xs[m] == s[k];
      }
      InsertKeys(asc, s, xs[n]);
      var r := Sort(asc, xs);
      forall k | 0 <= k < |r| ensures r[k] in xs {
        assert r[k] in s + [xs[n]];
        if r[k] != xs[n] { assert r[k] in s; var m :| 0 <= m < |s| && s[m] == r[k]; assert s[m] in xs[..n]; }
      }
    }
  }

  lemma SubEntriesGrow(a: seq<Entry>, xs: seq<Entry>)
    requires xs != [] && DistinctKeys(xs) && SubEntries(a, xs[..|xs| - 1])
    ensures SubEntries(a, xs) && SubEntries(a + [xs[|xs| - 1]], xs)
  {
    var n := |xs| - 1;
    forall k | 0 <= k < |a| ensures a[k].0 != xs[n].0 && a[k] in xs {
      assert a[k] in xs[..n];
      var m :| 0 <= m < n && xs[m] == a[k];
    }
  }

  lemma {:induction false} FilterAboveKeys(xs: seq<Entry>, min: real)
    requires DistinctKeys(xs)
    ensures var a := FilterAbove(xs, min); SubEntries(a, xs) && forall k :: 0 <= k < |a| ==> a[k].1 > min
  {
    if xs != [] {
      var n := |xs| - 1;
      FilterAboveKeys(xs[..n], min);
      SubEntriesGrow(FilterAbove(xs[..n], min), xs);
    }
  }

  lemma {:induction false} FilterBelowKeys(xs: seq<Entry>, max: real)
    requires DistinctKeys(xs)
    ensures var a := FilterBelow(xs, max); SubEntries(a, xs) && forall k :: 0 <= k < |a| ==> a[k].1 < max
  {
    if xs != [] {
      var n := |xs| - 1;
      FilterBelowKeys(xs[..n], max);
      SubEntriesGrow(FilterBelow(xs[..n], max), xs);
    }
  }

  // ── The matching, before flooring ──

  function SentBy(allocs: seq<Alloc>, i: nat): real {
    if allocs == [] then 0.0
    else SentBy(allocs[..|allocs| - 1], i) + (if allocs[|allocs| - 1].i == i then allocs[|allocs| - 1].amt else 0.0)
  }

  function GotBy(allocs: seq<Alloc>, j: nat): real {
    if allocs == [] then 0.0
    else GotBy(allocs[..|allocs| - 1], j) + (if allocs[|allocs| - 1].j == j then allocs[|allocs| - 1].amt else 0.0)
  }

  lemma SumsAppend(allocs: seq<Alloc>, a: Alloc)
    ensures forall i :: SentBy(allocs + [a], i) == SentBy(allocs, i) + if a.i == i then a.amt else 0.0
    ensures forall j :: GotBy(allocs + [a], j) == GotBy(allocs, j) + if a.j == j then a.amt else 0.0
  {
    assert (allocs + [a])[..|allocs|] == allocs;
  }

  /** Every surplus has given at most itself, every deficit is filled by exactly what it got and not past zero. */
  ghost predicate Matched(minMove: real, s: seq<real>, d: seq<real>, left: seq<real>, allocs: seq<Alloc>) {
    && |left| == |d|
    && (forall j :: 0 <= j < |d| ==> left[j] == d[j] + GotBy(allocs, j) && left[j] <= 0.0)
    && (forall k :: 0 <= k < |allocs| ==> allocs[k].i < |s| && allocs[k].j < |d| && allocs[k].amt >= minMove)
    && (forall i :: 0 <= i < |s| ==> SentBy(allocs, i) <= s[i])
  }

  /** One allocation keeps the account. */
  lemma TakeKeepsMatched(minMove: real, s: seq<real>, d: seq<real>, i: nat, j: nat, m: Matching, amt: real)
    requires Matched(minMove, s, d, m.left, m.allocs) && i < |s| && j < |m.left|
    requires m.remaining == s[i] - SentBy(m.allocs, i) && minMove <= amt <= m.remaining && amt <= -m.left[j]
    ensures var allocs := m.allocs + [Alloc(i, j, amt)];
            && Matched(minMove, s, d, m.left[j := m.left[j] + amt], allocs)
               && SentBy(allocs, i) == SentBy(m.allocs, i) + amt
            && forall i' :: 0 <= i' < |s| && i' != i ==> SentBy(allocs, i') == SentBy(m.allocs, i')
  {
    SumsAppend(m.allocs, Alloc(i, j, amt));
  }

  lemma {:induction false} RowMatches(minMove: real, s: seq<real>, d: seq<real>, i: nat, j: nat, m: Matching)
    requires minMove >= 0.0 && i < |s| && Matched(minMove, s, d, m.left, m.allocs)
    requires m.remaining == s[i] - SentBy(m.allocs, i) && m.remaining >= 0.0
    ensures var r := Row(minMove, i, j, m);
            && Matched(minMove, s, d, r.left, r.allocs) && r.remaining == s[i] - SentBy(r.allocs, i)
               && r.remaining >= 0.0
            && forall i' :: 0 <= i' < |s| && i' != i ==> SentBy(r.allocs, i') == SentBy(m.allocs, i')
    decreases |m.left| - j
  {
    hide SentBy, Matched;
    if !(j >= |m.left| || m.remaining < minMove) {
      var amt := Min(m.remaining, Abs(m.left[j]));
      if m.left[j] >= -minMove || amt < minMove {
        RowMatches(minMove, s, d, i, j + 1, m);
      } else {
        TakeKeepsMatched(minMove, s, d, i, j, m, amt);
        RowMatches(minMove, s, d, i, j + 1,
                   Matching(m.remaining - amt, m.left[j := m.left[j] + amt], m.allocs + [Alloc(i, j, amt)]));
      }
    }
  }

  lemma {:induction false} RowsMatch(minMove: real, s: seq<real>, d: seq<real>, i: nat, left: seq<real>,
      allocs: seq<Alloc>)
    requires minMove >= 0.0 && Matched(minMove, s, d, left, allocs)
    requires forall k :: i <= k < |s| ==> s[k] >= 0.0 && SentBy(allocs, k) == 0.0
    ensures var r := Rows(minMove, s, i, left, allocs); Matched(minMove, s, d, r.0, r.1)
    decreases |s| - i
  {
    if i < |s| {
      RowMatches(minMove, s, d, i, 0, Matching(s[i], left, allocs));
      var m := Row(minMove, i, 0, Matching(s[i], left, allocs));
      RowsMatch(minMove, s, d, i + 1, m.left, m.allocs);
    }
  }

  // ── Maximality and the number of moves ──

  predicate Dead(minMove: real, left: real) {
    left >= -minMove
  }

  /** Pairs are used in increasing order; what is left of the last pair's column is dead, and the
      move count stays below the pair's place in the staircase. */
  ghost predicate Staircase(minMove: real, left: seq<real>, allocs: seq<Alloc>) {
    && (forall a, b :: 0 <= a < b < |allocs| ==>
          allocs[a].i < allocs[b].i || (allocs[a].i == allocs[b].i && allocs[a].j < allocs[b].j))
    && (allocs != [] ==>
          var last := allocs[|allocs| - 1];
          |allocs| <= last.i + last.j + 1 && forall j :: 0 <= j < last.j && j < |left| ==> Dead(minMove, left[j]))
  }

  ghost predicate AllDead(minMove: real, left: seq<real>, n: nat) {
    forall j :: 0 <= j < n && j < |left| ==> Dead(minMove, left[j])
  }

  /** Deficits are only ever filled up, and not past zero. */
  lemma {:induction false} RowRaises(minMove: real, i: nat, j: nat, m: Matching)
    requires minMove > 0.0 && forall k :: 0 <= k < |m.left| ==> m.left[k] <= 0.0
    ensures var r := Row(minMove, i, j, m);
            |r.left| == |m.left| && forall k :: 0 <= k < |m.left| ==> m.left[k] <= r.left[k] <= 0.0
    decreases |m.left| - j
  {
    if !(j >= |m.left| || m.remaining < minMove) {
      var amt := Min(m.remaining, Abs(m.left[j]));
      RowRaises(minMove, i, j + 1,
        if m.left[j] >= -minMove || amt < minMove then m
        else Matching(m.remaining - amt, m.left[j := m.left[j] + amt], m.allocs + [Alloc(i, j, amt)]));
    }
  }

  lemma StaircaseAppend(minMove: real, left: seq<real>, left': seq<real>, allocs: seq<Alloc>, a: Alloc)
    requires Staircase(minMove, left, allocs) && |left'| == |left|
    requires allocs != [] ==> var last := allocs[|allocs| - 1]; last.i < a.i || (last.i == a.i && last.j < a.j)
    requires allocs != [] ==> allocs[|allocs| - 1].j <= a.j
    requires AllDead(minMove, left', a.j)
    ensures Staircase(minMove, left', allocs + [a])
  {
  }

  /** Where the next pair of row `i` may be: past the last pair. */
  predicate Past(allocs: seq<Alloc>, i: nat, j: nat) {
    allocs != [] ==> var last := allocs[|allocs| - 1]; last.i < i || (last.i == i && last.j < j)
  }

  lemma {:induction false} RowStaircase(minMove: real, i: nat, j: nat, m: Matching)
    requires minMove > 0.0 && Staircase(minMove, m.left, m.allocs)
    requires forall k :: 0 <= k < |m.left| ==> m.left[k] <= 0.0
    requires Past(m.allocs, i, j) && (m.remaining >= minMove ==> AllDead(minMove, m.left, j))
    requires forall a :: 0 <= a < |m.allocs| ==> m.allocs[a].j < |m.left|
    ensures var r := Row(minMove, i, j, m);
            && Staircase(minMove, r.left, r.allocs) && Past(r.allocs, i + 1, 0)
            && (forall a :: 0 <= a < |r.allocs| ==> r.allocs[a].j < |r.left|)
            && (r.remaining < minMove || AllDead(minMove, r.left, |r.left|))
    decreases |m.left| - j
  {
    hide Staircase;
    if !(j >= |m.left| || m.remaining < minMove) {
      var amt := Min(m.remaining, Abs(m.left[j]));
      if m.left[j] >= -minMove || amt < minMove {
        RowStaircase(minMove, i, j + 1, m);
      } else {
        var m1 := Matching(m.remaining - amt, m.left[j := m.left[j] + amt], m.allocs + [Alloc(i, j, amt)]);
        LastColumnDead(minMove, m, j);
        StaircaseAppend(minMove, m.left, m1.left, m.allocs, Alloc(i, j, amt));
        RowStaircase(minMove, i, j + 1, m1);
      }
    }
  }

  /** A column still worth filling is not before the last pair's. */
  lemma LastColumnDead(minMove: real, m: Matching, j: nat)
    requires Staircase(minMove, m.left, m.allocs) && j < |m.left| && !Dead(minMove, m.left[j])
    ensures m.allocs != [] ==> m.allocs[|m.allocs| - 1].j <= j
  {
  }

  /** Surplus i has too little left to move, or no deficit is worth filling. */
  ghost predicate Settled(minMove: real, s: seq<real>, left: seq<real>, allocs: seq<Alloc>, n: nat) {
    forall i :: 0 <= i < n && i < |s| ==> s[i] - SentBy(allocs, i) < minMove || AllDead(minMove, left, |left|)
  }

  lemma {:induction false} RowsStaircase(minMove: real, s: seq<real>, d: seq<real>, i: nat, left: seq<real>,
      allocs: seq<Alloc>)
    requires minMove > 0.0 && i <= |s| && Matched(minMove, s, d, left, allocs) && Staircase(minMove, left, allocs)
    requires forall k :: i <= k < |s| ==> s[k] >= 0.0 && SentBy(allocs, k) == 0.0
    requires Past(allocs, i, 0)
    requires Settled(minMove, s, left, allocs, i)
    ensures var r := Rows(minMove, s, i, left, allocs);
            Matched(minMove, s, d, r.0, r.1) && Staircase(minMove, r.0, r.1) && Settled(minMove, s, r.0, r.1, |s|)
    decreases |s| - i
  {
    if i < |s| {
      var m0 := Matching(s[i], left, allocs);
      RowMatches(minMove, s, d, i, 0, m0);
      RowStaircase(minMove, i, 0, m0);
      RowRaises(minMove, i, 0, m0);
      var m := Row(minMove, i, 0, m0);
      RowsStaircase(minMove, s, d, i + 1, m.left, m.allocs);
    }
  }

  /** The greedy matching is maximal: afterwards no surplus still worth moving faces a deficit still
      worth filling; no pair is used twice; and S surpluses and D deficits take at most S + D - 1 moves. */
  lemma MatchingIsMaximal(minMove: real, s: seq<real>, d: seq<real>)
    requires minMove > 0.0 && (forall i :: 0 <= i < |s| ==> s[i] > minMove)
             && (forall j :: 0 <= j < |d| ==> d[j] < -minMove)
    ensures var (left, allocs) := Rows(minMove, s, 0, d, []);
            && |left| == |d|
            && (forall i, j :: 0 <= i < |s| && 0 <= j < |d| ==>
                s[i] - SentBy(allocs, i) < minMove || -(d[j] + GotBy(allocs, j)) <= minMove)
            && (forall a, b :: 0 <= a < b < |allocs| ==> allocs[a].i != allocs[b].i || allocs[a].j != allocs[b].j)
            && (if s == [] || d == [] then allocs == [] else |allocs| <= |s| + |d| - 1)
  {
    RowsStaircase(minMove, s, d, 0, d, []);
    var (left, allocs) := Rows(minMove, s, 0, d, []);
    forall i, j | 0 <= i < |s| && 0 <= j < |d|
      ensures s[i] - SentBy(allocs, i) < minMove || -(d[j] + GotBy(allocs, j)) <= minMove {
      assert left[j] == d[j] + GotBy(allocs, j);
    }
  }

  // ── The entries the matching works on ──

  ghost predicate DistinctExchanges(snapshots: seq<Snapshot>) {
    forall i, j :: 0 <= i < j < |snapshots| ==> snapshots[i].exchange != snapshots[j].exchange
  }

  lemma {:induction false} DeltasAreSnapshots(snapshots: seq<Snapshot>, weights: Option<map<string, real>>,
      reserve: real, n: nat)
    requires n <= |snapshots| && DistinctExchanges(snapshots)
    ensures var d := Deltas(snapshots, weights, reserve, n);
            |d| == n && forall k :: 0 <= k < n ==>
              d[k] == (snapshots[k].exchange,
                       Delta(snapshots[k].available, Target(snapshots, weights, snapshots[k].exchange), reserve))
    ensures DistinctKeys(Deltas(snapshots, weights, reserve, n))
  {
    hide Delta, Target, Put;
    if n > 0 {
      DeltasAreSnapshots(snapshots, weights, reserve, n - 1);
      var s, d := snapshots[n - 1], Deltas(snapshots, weights, reserve, n - 1);
      PutNew(d, s.exchange, Delta(s.available, Target(snapshots, weights, s.exchange), reserve));
    }
  }

  /** Snapshot `k` stands as a surplus (give) or a deficit (want) in the lists that are matched. */
  ghost predicate Lists(snapshots: seq<Snapshot>, minMove: real, weights: Option<map<string, real>>, reserve: real,
      give: seq<Entry>, want: seq<Entry>) {
    && DistinctKeys(give) && DistinctKeys(want)
    && (forall i :: 0 <= i < |give| ==> give[i].1 > minMove && EntryOf(snapshots, weights, reserve, give[i]))
    && (forall j :: 0 <= j < |want| ==> want[j].1 < -minMove && EntryOf(snapshots, weights, reserve, want[j]))
  }

  ghost predicate EntryOf(snapshots: seq<Snapshot>, weights: Option<map<string, real>>, reserve: real, e: Entry) {
    exists k ::
      0 <= k < |snapshots|
        && e == (snapshots[k].exchange,
                 Delta(snapshots[k].available, Target(snapshots, weights, snapshots[k].exchange), reserve))
  }

  lemma DeltaEntry(snapshots: seq<Snapshot>, weights: Option<map<string, real>>, reserve: real, e: Entry)
    requires DistinctExchanges(snapshots) && e in Deltas(snapshots, weights, reserve, |snapshots|)
    ensures EntryOf(snapshots, weights, reserve, e)
  {
    hide Delta, Target, Deltas;
    DeltasAreSnapshots(snapshots, weights, reserve, |snapshots|);
    var d := Deltas(snapshots, weights, reserve, |snapshots|);
    var k :| 0 <= k < |d| && d[k] == e;
  }

  lemma MatchedLists(snapshots: seq<Snapshot>, minMove: real, weights: Option<map<string, real>>, reserve: real)
    requires DistinctExchanges(snapshots)
    ensures var deltas := Deltas(snapshots, weights, reserve, |snapshots|);
            Lists(snapshots, minMove, weights, reserve, Surpluses(deltas, minMove), Deficits(deltas, minMove))
  {
    hide Delta, Target, Deltas, Sort, FilterAbove, FilterBelow, EntryOf;
    DeltasAreSnapshots(snapshots, weights, reserve, |snapshots|);
    var deltas := Deltas(snapshots, weights, reserve, |snapshots|);
    GiveKeys(deltas, minMove);
    WantKeys(deltas, minMove);
    forall e | e in deltas ensures EntryOf(snapshots, weights, reserve, e) {
      DeltaEntry(snapshots, weights, reserve, e);
    }
  }

  lemma GiveKeys(deltas: seq<Entry>, minMove: real)
    requires DistinctKeys(deltas)
    ensures var g := Surpluses(deltas, minMove); SubEntries(g, deltas) && forall i :: 0 <= i < |g| ==> g[i].1 > minMove
  {
    hide Sort, FilterAbove;
    FilterAboveKeys(deltas, minMove);
    SortKeys(false, FilterAbove(deltas, minMove), deltas);
  }

  lemma WantKeys(deltas: seq<Entry>, minMove: real)
    requires DistinctKeys(deltas)
    ensures var w := Deficits(deltas, minMove); SubEntries(w, deltas) && forall i :: 0 <= i < |w| ==> w[i].1 < -minMove
  {
    hide Sort, FilterBelow;
    FilterBelowKeys(deltas, -minMove);
    SortKeys(true, FilterBelow(deltas, -minMove), deltas);
  }

  // ── Executing the moves ──

  function Out(moves: seq<Move>, exchange: string): real {
    if moves == [] then 0.0
    else
      Out(moves[..|moves| - 1], exchange)
      + (if moves[|moves| - 1].from == exchange then moves[|moves| - 1].amount as real else 0.0)
  }

  function In(moves: seq<Move>, exchange: string): real {
    if moves == [] then 0.0
    else
      In(moves[..|moves| - 1], exchange)
      + (if moves[|moves| - 1].to == exchange then moves[|moves| - 1].amount as real else 0.0)
  }

  /** Available on an exchange after the moves. */
  function After(s: Snapshot, moves: seq<Move>): real {
    s.available - Out(moves, s.exchange) + In(moves, s.exchange)
  }

  /** Floored amounts sent by surplus i stay within what the matching took from it, and a name that
      is no surplus sends nothing. */
  lemma {:induction false} OutBound(give: seq<Entry>, want: seq<Entry>, allocs: seq<Alloc>, exchange: string)
    requires DistinctKeys(give) && forall k :: 0 <= k < |allocs| ==>
             allocs[k].i < |give| && allocs[k].j < |want| && allocs[k].amt >= 0.0
    ensures Out(MovesOf(give, want, allocs), exchange) >= 0.0
    ensures forall i :: 0 <= i < |give| && give[i].0 == exchange ==>
            Out(MovesOf(give, want, allocs), exchange) <= SentBy(allocs, i)
    ensures (forall i :: 0 <= i < |give| ==> give[i].0 != exchange) ==>
            Out(MovesOf(give, want, allocs), exchange) == 0.0
  {
    if allocs != [] {
      var n := |allocs| - 1;
      OutBound(give, want, allocs[..n], exchange);
      assert MovesOf(give, want, allocs)[..n] == MovesOf(give, want, allocs[..n]);
      assert 0.0 <= allocs[n].amt.Floor as real <= allocs[n].amt;
    }
  }

  lemma {:induction false} InBound(give: seq<Entry>, want: seq<Entry>, allocs: seq<Alloc>, exchange: string)
    requires DistinctKeys(want) && forall k :: 0 <= k < |allocs| ==>
             allocs[k].i < |give| && allocs[k].j < |want| && allocs[k].amt >= 0.0
    ensures In(MovesOf(give, want, allocs), exchange) >= 0.0
    ensures forall j :: 0 <= j < |want| && want[j].0 == exchange ==>
            In(MovesOf(give, want, allocs), exchange) <= GotBy(allocs, j)
    ensures (forall j :: 0 <= j < |want| ==> want[j].0 != exchange) ==> In(MovesOf(give, want, allocs), exchange) == 0.0
  {
    if allocs != [] {
      var n := |allocs| - 1;
      InBound(give, want, allocs[..n], exchange);
      assert MovesOf(give, want, allocs)[..n] == MovesOf(give, want, allocs[..n]);
      assert 0.0 <= allocs[n].amt.Floor as real <= allocs[n].amt;
    }
  }

  /** A prefix of the allocations took no more. */
  lemma {:induction false} PrefixSums(allocs: seq<Alloc>, n: nat, i: nat)
    requires n <= |allocs| && forall k :: 0 <= k < |allocs| ==> allocs[k].amt >= 0.0
    ensures SentBy(allocs[..n], i) <= SentBy(allocs, i) && GotBy(allocs[..n], i) <= GotBy(allocs, i)
    decreases |allocs|
  {
    if n < |allocs| {
      var m := |allocs| - 1;
      PrefixSums(allocs[..m], n, i);
      assert allocs[..m][..n] == allocs[..n];
    } else {
      assert allocs[..n] == allocs;
    }
  }

  /** The whole matching, as computeRebalancePlan runs it. */
  lemma {:induction false} PlanMatches(snapshots: seq<Snapshot>, minMove: real, weights: Option<map<string, real>>,
      reserve: real) returns (give: seq<Entry>, want: seq<Entry>, allocs: seq<Alloc>)
    requires minMove >= 0.0 && DistinctExchanges(snapshots)
    ensures Lists(snapshots, minMove, weights, reserve, give, want)
    ensures allocs == Allocs(snapshots, minMove, weights, reserve)
            && PlannedMoves(snapshots, minMove, weights, reserve) == MovesOf(give, want, allocs)
    ensures forall k :: 0 <= k < |allocs| ==> allocs[k].i < |give| && allocs[k].j < |want| && allocs[k].amt >= minMove
    ensures forall i :: 0 <= i < |give| ==> SentBy(allocs, i) <= give[i].1
    ensures forall j :: 0 <= j < |want| ==> GotBy(allocs, j) <= -want[j].1
  {
    hide Deltas, Sort, FilterAbove, FilterBelow, Rows;
    var deltas := Deltas(snapshots, weights, reserve, |snapshots|);
    give, want := Surpluses(deltas, minMove), Deficits(deltas, minMove);
    allocs := Allocs(snapshots, minMove, weights, reserve);
    MatchedLists(snapshots, minMove, weights, reserve);
    RowsMatch(minMove, Amounts(give), Amounts(want), 0, Amounts(want), []);
    var left := Rows(minMove, Amounts(give), 0, Amounts(want), []).0;
    forall j | 0 <= j < |want| ensures GotBy(allocs, j) <= -want[j].1 {
      assert left[j] == Amounts(want)[j] + GotBy(allocs, j);
    }
    forall i | 0 <= i < |give| ensures SentBy(allocs, i) <= give[i].1 {
      assert SentBy(allocs, i) <= Amounts(give)[i];
    }
  }

  /** Where exchange `s` may stand at any point of the execution: a sender between max(reserve,
      target) and where it was, a receiver between where it was and its target, or untouched. */
  ghost predicate Bounded(s: Snapshot, target: real, reserve: real, moves: seq<Move>) {
    var a := After(s, moves);
    || (Out(moves, s.exchange) == 0.0 && In(moves, s.exchange) == 0.0)
    || (In(moves, s.exchange) == 0.0 && Max(reserve, target) <= a <= s.available)
    || (Out(moves, s.exchange) == 0.0 && s.available <= a <= target)
  }

  lemma SenderRoom(available: real, target: real, reserve: real)
    ensures Delta(available, target, reserve) > 0.0 ==>
            Delta(available, target, reserve) == available - Max(reserve, target)
    ensures Delta(available, target, reserve) < 0.0 ==>
            -Delta(available, target, reserve) == target - Max(reserve, available)
  {
  }

  /** Rebalance safety: executing the moves in order with their floored amounts, at every point no
      sender is below max(reserve, its target) and no receiver above its target. */
  lemma RebalanceIsSafe(snapshots: seq<Snapshot>, minMove: real, weights: Option<map<string, real>>, reserve: real,
      n: nat, k: nat)
    requires minMove >= 0.0 && DistinctExchanges(snapshots) && k < |snapshots|
    requires n <= |PlannedMoves(snapshots, minMove, weights, reserve)|
    ensures Bounded(snapshots[k], Target(snapshots, weights, snapshots[k].exchange), reserve,
                    PlannedMoves(snapshots, minMove, weights, reserve)[..n])
  {
    hide PlannedMoves, Allocs, Delta, Target;
    var s, target := snapshots[k], Target(snapshots, weights, snapshots[k].exchange);
    var give, want, allocs := PlanMatches(snapshots, minMove, weights, reserve);
    var moves := PlannedMoves(snapshots, minMove, weights, reserve)[..n];
    assert moves == MovesOf(give, want, allocs[..n]);
    OutBound(give, want, allocs[..n], s.exchange);
    InBound(give, want, allocs[..n], s.exchange);
    SenderRoom(s.available, target, reserve);
    if i :| 0 <= i < |give| && give[i].0 == s.exchange {
      GivesItsDelta(snapshots, weights, reserve, give[i], k);
      PrefixSums(allocs, n, i);
      forall j | 0 <= j < |want| ensures want[j].0 != s.exchange {
        if want[j].0 == s.exchange { GivesItsDelta(snapshots, weights, reserve, want[j], k); }
      }
    } else if j :| 0 <= j < |want| && want[j].0 == s.exchange {
      GivesItsDelta(snapshots, weights, reserve, want[j], k);
      PrefixSums(allocs, n, j);
    }
  }

  lemma GivesItsDelta(snapshots: seq<Snapshot>, weights: Option<map<string, real>>, reserve: real, e: Entry, k: nat)
    requires DistinctExchanges(snapshots) && k < |snapshots| && EntryOf(snapshots, weights, reserve, e)
             && e.0 == snapshots[k].exchange
    ensures e.1 == Delta(snapshots[k].available, Target(snapshots, weights, snapshots[k].exchange), reserve)
  {
    hide Delta, Target;
  }

  // ── Conservation and progress ──

  function Sum(xs: seq<real>): real {
    if xs == [] then 0.0 else Sum(xs[..|xs| - 1]) + xs[|xs| - 1]
  }

  lemma {:induction false} SumUpdate(xs: seq<real>, i: nat, v: real)
    requires i < |xs|
    ensures Sum(xs[i := v]) == Sum(xs) - xs[i] + v
  {
    var n := |xs| - 1;
    if i == n {
      assert xs[i := v][..n] == xs[..n];
    } else {
      SumUpdate(xs[..n], i, v);
      assert xs[i := v][..n] == xs[..n][i := v];
    }
  }

  /** What every exchange has available after the moves, and how far each is from its target. */
  function Availables(snapshots: seq<Snapshot>, moves: seq<Move>): (r: seq<real>)
    ensures |r| == |snapshots|
  {
    seq(|snapshots|, k requires 0 <= k < |snapshots| => After(snapshots[k], moves))
  }

  function Gaps(snapshots: seq<Snapshot>, weights: Option<map<string, real>>, moves: seq<Move>): (r: seq<real>)
    ensures |r| == |snapshots|
  {
    seq(|snapshots|, k requires 0 <= k < |snapshots| =>
      Abs(After(snapshots[k], moves) - Target(snapshots, weights, snapshots[k].exchange)))
  }

  /** One planned move: between two different exchanges of the snapshots, of a non-negative amount. */
  lemma MoveEnds(snapshots: seq<Snapshot>, minMove: real, weights: Option<map<string, real>>, reserve: real, n: nat)
      returns (f: nat, t: nat)
    requires minMove >= 0.0 && DistinctExchanges(snapshots) && n < |PlannedMoves(snapshots, minMove, weights, reserve)|
    ensures f < |snapshots| && t < |snapshots| && f != t
    ensures var move := PlannedMoves(snapshots, minMove, weights, reserve)[n];
            move.from == snapshots[f].exchange && move.to == snapshots[t].exchange && move.amount >= 0
              && move.from != move.to
    ensures Delta(snapshots[f].available, Target(snapshots, weights, snapshots[f].exchange), reserve) > 0.0
    ensures Delta(snapshots[t].available, Target(snapshots, weights, snapshots[t].exchange), reserve) < 0.0
  {
    hide PlannedMoves, Allocs, Delta, Target;
    var give, want, allocs := PlanMatches(snapshots, minMove, weights, reserve);
    var a := allocs[n];
    assert MovesOf(give, want, allocs)[n] == MoveOf(give, want, a);
    assert EntryOf(snapshots, weights, reserve, give[a.i]) && EntryOf(snapshots, weights, reserve, want[a.j]);
    f :| 0 <= f < |snapshots|
      && give[a.i] == (snapshots[f].exchange,
                       Delta(snapshots[f].available, Target(snapshots, weights, snapshots[f].exchange), reserve));
    t :| 0 <= t < |snapshots|
      && want[a.j] == (snapshots[t].exchange,
                       Delta(snapshots[t].available, Target(snapshots, weights, snapshots[t].exchange), reserve));
  }

  lemma AfterAppend(s: Snapshot, moves: seq<Move>, move: Move)
    ensures After(s, moves + [move]) == After(s, moves)
              - (if move.from == s.exchange then move.amount as real else 0.0)
                + (if move.to == s.exchange then move.amount as real else 0.0)
  {
    assert (moves + [move])[..|moves|] == moves;
  }

  /** What one move changes, exchange by exchange. */
  lemma {:induction false} OneMove(snapshots: seq<Snapshot>, minMove: real, weights: Option<map<string, real>>,
      reserve: real, n: nat) returns (f: nat, t: nat, x: real)
    requires minMove >= 0.0 && DistinctExchanges(snapshots) && n < |PlannedMoves(snapshots, minMove, weights, reserve)|
    ensures f < |snapshots| && t < |snapshots| && f != t
            && x == PlannedMoves(snapshots, minMove, weights, reserve)[n].amount as real
    ensures var moves := PlannedMoves(snapshots, minMove, weights, reserve);
            && (forall k :: 0 <= k < |snapshots| ==>
                  After(snapshots[k], moves[..n + 1])
                    == After(snapshots[k], moves[..n]) - (if k == f then x else 0.0) + (if k == t then x else 0.0))
            && After(snapshots[f], moves[..n + 1]) >= Target(snapshots, weights, snapshots[f].exchange)
            && After(snapshots[t], moves[..n + 1]) <= Target(snapshots, weights, snapshots[t].exchange)
            && x >= 0.0
  {
    hide PlannedMoves, Delta, Target, Out, In, After;
    var moves := PlannedMoves(snapshots, minMove, weights, reserve);
    f, t := MoveEnds(snapshots, minMove, weights, reserve, n);
    x := moves[n].amount as real;
    assert moves[..n + 1] == moves[..n] + [moves[n]];
    forall k | 0 <= k < |snapshots|
      ensures After(snapshots[k], moves[..n + 1])
              == After(snapshots[k], moves[..n]) - (if k == f then x else 0.0) + (if k == t then x else 0.0)
    {
      AfterAppend(snapshots[k], moves[..n], moves[n]);
    }
    FromSide(snapshots, minMove, weights, reserve, n, f);
    ToSide(snapshots, minMove, weights, reserve, n, t);
  }

  lemma SumTwo(xs: seq<real>, i: nat, a: real, j: nat, b: real)
    requires i < |xs| && j < |xs| && i != j
    ensures Sum(xs[i := xs[i] + a][j := xs[j] + b]) == Sum(xs) + a + b
  {
    SumUpdate(xs, i, xs[i] + a);
    SumUpdate(xs[i := xs[i] + a], j, xs[j] + b);
  }

  /** Every move keeps the total available constant and lowers the total distance to the targets by
      exactly twice its amount. */
  lemma EachMoveIsProgress(snapshots: seq<Snapshot>, minMove: real, weights: Option<map<string, real>>, reserve: real,
      n: nat)
    requires minMove >= 0.0 && DistinctExchanges(snapshots) && n < |PlannedMoves(snapshots, minMove, weights, reserve)|
    ensures var moves := PlannedMoves(snapshots, minMove, weights, reserve);
            && Sum(Availables(snapshots, moves[..n + 1])) == Sum(Availables(snapshots, moves[..n]))
            && Sum(Gaps(snapshots, weights, moves[..n + 1]))
               == Sum(Gaps(snapshots, weights, moves[..n])) - 2.0 * moves[n].amount as real
  {
    hide PlannedMoves, Target, After, Sum;
    var moves := PlannedMoves(snapshots, minMove, weights, reserve);
    var f, t, x := OneMove(snapshots, minMove, weights, reserve, n);
    var a, b := Availables(snapshots, moves[..n]), Availables(snapshots, moves[..n + 1]);
    assert b == a[f := a[f] + -x][t := a[t] + x];
    SumTwo(a, f, -x, t, x);
    var g, h := Gaps(snapshots, weights, moves[..n]), Gaps(snapshots, weights, moves[..n + 1]);
    assert h == g[f := g[f] + -x][t := g[t] + -x];
    SumTwo(g, f, -x, t, -x);
  }

  lemma FromSide(snapshots: seq<Snapshot>, minMove: real, weights: Option<map<string, real>>, reserve: real, n: nat,
      f: nat)
    requires minMove >= 0.0 && DistinctExchanges(snapshots) && n < |PlannedMoves(snapshots, minMove, weights, reserve)|
             && f < |snapshots|
    requires PlannedMoves(snapshots, minMove, weights, reserve)[n].from == snapshots[f].exchange
    requires Delta(snapshots[f].available, Target(snapshots, weights, snapshots[f].exchange), reserve) > 0.0
    ensures var moves := PlannedMoves(snapshots, minMove, weights, reserve);
            var target := Target(snapshots, weights, snapshots[f].exchange);
            After(snapshots[f], moves[..n]) >= target && After(snapshots[f], moves[..n + 1]) >= target
  {
    hide PlannedMoves, Target;
    RebalanceIsSafe(snapshots, minMove, weights, reserve, n, f);
    RebalanceIsSafe(snapshots, minMove, weights, reserve, n + 1, f);
    SenderRoom(snapshots[f].available, Target(snapshots, weights, snapshots[f].exchange), reserve);
  }

  lemma ToSide(snapshots: seq<Snapshot>, minMove: real, weights: Option<map<string, real>>, reserve: real, n: nat,
      t: nat)
    requires minMove >= 0.0 && DistinctExchanges(snapshots) && n < |PlannedMoves(snapshots, minMove, weights, reserve)|
             && t < |snapshots|
    requires PlannedMoves(snapshots, minMove, weights, reserve)[n].to == snapshots[t].exchange
    requires Delta(snapshots[t].available, Target(snapshots, weights, snapshots[t].exchange), reserve) < 0.0
    ensures var moves := PlannedMoves(snapshots, minMove, weights, reserve);
            var target := Target(snapshots, weights, snapshots[t].exchange);
            After(snapshots[t], moves[..n]) <= target && After(snapshots[t], moves[..n + 1]) <= target
  {
    hide PlannedMoves, Target;
    RebalanceIsSafe(snapshots, minMove, weights, reserve, n, t);
    RebalanceIsSafe(snapshots, minMove, weights, reserve, n + 1, t);
    SenderRoom(snapshots[t].available, Target(snapshots, weights, snapshots[t].exchange), reserve);
  }

  function Moved(moves: seq<Move>): int {
    if moves == [] then 0 else Moved(moves[..|moves| - 1]) + moves[|moves| - 1].amount
  }

  /** The whole plan: the total available is what it was, and the total distance to the targets is
      lower by exactly twice the amount moved. */
  lemma {:induction false} PlanConservesAndImproves(snapshots: seq<Snapshot>, minMove: real,
      weights: Option<map<string, real>>, reserve: real, n: nat)
    requires minMove >= 0.0 && DistinctExchanges(snapshots) && n <= |PlannedMoves(snapshots, minMove, weights, reserve)|
    ensures var moves := PlannedMoves(snapshots, minMove, weights, reserve)[..n];
            && Sum(Availables(snapshots, moves)) == Sum(Availables(snapshots, []))
            && Sum(Gaps(snapshots, weights, moves)) == Sum(Gaps(snapshots, weights, [])) - 2.0 * Moved(moves) as real
  {
    hide PlannedMoves;
    if n > 0 {
      PlanConservesAndImproves(snapshots, minMove, weights, reserve, n - 1);
      EachMoveIsProgress(snapshots, minMove, weights, reserve, n - 1);
      var all := PlannedMoves(snapshots, minMove, weights, reserve);
      assert all[..n][..n - 1] == all[..n - 1];
    }
  }

  /** minMove >= 0 is what all of this needs, and exactly when no plan sends an exchange to itself:
      with a negative minMove a balanced exchange is both a surplus and a deficit. */
  lemma SelfMovesIffNegativeMinMove(minMove: real, reserve: real)
    ensures (exists snapshots: seq<Snapshot>, n: nat ::
             DistinctExchanges(snapshots) && SelfMove(snapshots, minMove, reserve, n)) <==> minMove < 0.0
  {
    if minMove < 0.0 {
      var snapshots := [Snapshot("x", 0.0)];
      BalancedSelfMove(minMove, reserve);
      assert DistinctExchanges(snapshots) && SelfMove(snapshots, minMove, reserve, 0);
    } else if snapshots: seq<Snapshot>, n: nat :|
      DistinctExchanges(snapshots) && SelfMove(snapshots, minMove, reserve, n) {
      var f, t := MoveEnds(snapshots, minMove, None, reserve, n);
    }
  }

  predicate SelfMove(snapshots: seq<Snapshot>, minMove: real, reserve: real, n: nat) {
    var moves := PlannedMoves(snapshots, minMove, None, reserve);
    n < |moves| && moves[n].from == moves[n].to
  }

  lemma BalancedSelfMove(minMove: real, reserve: real)
    requires minMove < 0.0
    ensures PlannedMoves([Snapshot("x", 0.0)], minMove, None, reserve) == [Move("x", "x", 0)]
  {
    var s := [Snapshot("x", 0.0)];
    assert s[..0] == [];
    assert TotalAvailable(s) == 0.0;
    assert Target(s, None, "x") == 0.0;
    var e: Entry := ("x", 0.0);
    assert Deltas(s, None, reserve, 0) == [];
    assert Deltas(s, None, reserve, 1) == [e];
    assert [e][..0] == [];
    assert FilterAbove([e], minMove) == [e] && FilterBelow([e], -minMove) == [e];
    assert Sort(false, [e]) == [e] && Sort(true, [e]) == [e];
    assert Amounts([e]) == [0.0];
    var m := Matching(0.0, [0.0], []);
    assert Row(minMove, 0, 1, Matching(0.0, [0.0][0 := 0.0], [Alloc(0, 0, 0.0)]))
           == Matching(0.0, [0.0], [Alloc(0, 0, 0.0)]);
    assert Row(minMove, 0, 0, m).allocs == [Alloc(0, 0, 0.0)];
    assert Rows(minMove, [0.0], 0, [0.0], []).1 == [Alloc(0, 0, 0.0)];
  }

  lemma {:induction false} FirstBlockedIs(moves: seq<Move>, noRoute: set<string>)
    ensures FirstBlocked(moves, noRoute).None?
            <==> forall k :: 0 <= k < |moves| ==> moves[k].from !in noRoute && moves[k].to !in noRoute
    ensures FirstBlocked(moves, noRoute).Some? ==> FirstBlocked(moves, noRoute).value in noRoute
  {
    if moves != [] {
      FirstBlockedIs(moves[1..], noRoute);
      assert moves == [moves[0]] + moves[1..];
    }
  }

  /** A plan is returned exactly when both ends of every planned move have a bridge route, and is
      then the whole plan; otherwise the refusal names an exchange without one. */
  lemma {:induction false} RoutedOrRefused(snapshots: seq<Snapshot>, minMove: real, weights: Option<map<string, real>>,
      reserve: real, noRoute: set<string>)
    ensures var r, moves := RebalancePlan(snapshots, minMove, weights, reserve, noRoute),
            PlannedMoves(snapshots, minMove, weights, reserve);
            if r.Moves? then r.moves == moves && forall k :: 0 <= k < |moves| ==>
              moves[k].from !in noRoute && moves[k].to !in noRoute
            else r.exchange in noRoute && exists k ::
              0 <= k < |moves| && (moves[k].from in noRoute || moves[k].to in noRoute)
  {
    hide PlannedMoves;
    FirstBlockedIs(PlannedMoves(snapshots, minMove, weights, reserve), noRoute);
  }
}
