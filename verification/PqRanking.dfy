/** Which neighbours of a node the on-disk search looks at. */
module PqRankings {
  // The unvisited ones in order of their estimates, without those far beyond the worst result when enough
  // of the others are left.

  import opened Ranking
  import opened BestFirst

  predicate IsUnvisited(b: Beam, n: nat, estimates: seq<real>) {
    n < |estimates| && n !in b.visited
  }

  /** The estimate of a node is beyond four times the distance of the worst result; at exactly four times, for every
      node but node 0. */
  predicate IsFar(n: nat, worst: real, estimates: seq<real>)
    requires n < |estimates|
  {
    estimates[n] > 4.0 * worst || (estimates[n] == 4.0 * worst && n > 0)
  }

  /** The positions in a list of the unvisited nodes that are not far. */
  function NearPositions(b: Beam, list: seq<nat>, worst: real, estimates: seq<real>): set<nat> {
    set i | 0 <= i < |list| && IsUnvisited(b, list[i], estimates) && !IsFar(list[i], worst, estimates)
  }

  /** With k results, and at least k unvisited nodes that are not far, the far ones are left out. */
  predicate LeavesOutFar(b: Beam, list: seq<nat>, estimates: seq<real>, k: nat) {
    b.best != [] && |b.best| >= k && |NearPositions(b, list, b.best[|b.best| - 1].dist, estimates)| >= k
  }

  /** How often a node is looked at: as often as the list names it, unless it was visited before, or it is far and
      those are left out. */
  function TimesLookedAt(b: Beam, list: seq<nat>, estimates: seq<real>, k: nat, n: nat): nat
    requires n < |estimates|
  {
    if n in b.visited || (LeavesOutFar(b, list, estimates, k) && IsFar(n, b.best[|b.best| - 1].dist, estimates)) then 0
    else multiset(list)[n]
  }

  // ---------------------------------------------------------------------------------------
  // The cut
  // ---------------------------------------------------------------------------------------

  predicate After(x: Scored, threshold: real) {
    Before(Scored(threshold, 0), x)
  }

  function CountNear(s: seq<Scored>, threshold: real): nat {
    if s == [] then 0 else CountNear(s[..|s| - 1], threshold) + if After(s[|s| - 1], threshold) then 0 else 1
  }

  /** In a sorted list the cut is between the entries that are near and those that are far. */
  lemma {:induction false} UpperBoundSplits(s: seq<Scored>, threshold: real)
    requires Ascending(s)
    ensures var at := UpperBound(s, threshold);
      && (forall i :: 0 <= i < at ==> !After(s[i], threshold))
      && (forall i :: at <= i < |s| ==> After(s[i], threshold))
  {
    if s != [] {
      if After(s[0], threshold) {
        forall i | 0 <= i < |s| ensures After(s[i], threshold) {
          assert i > 0 ==> AtMost(s[0], s[i]);
        }
      } else {
        UpperBoundSplits(s[1..], threshold);
        assert forall i :: 0 < i < |s| ==> s[i] == s[1..][i - 1];
      }
    }
  }

  lemma {:induction false} SplitCount(s: seq<Scored>, at: nat, threshold: real)
    requires at <= |s| && forall i :: 0 <= i < at ==> !After(s[i], threshold)
    requires forall i :: at <= i < |s| ==> After(s[i], threshold)
    ensures CountNear(s, threshold) == at
  {
    if s != [] { SplitCount(s[..|s| - 1], if at < |s| then at else |s| - 1, threshold); }
  }

  lemma SplitContents(s: seq<Scored>, at: nat, threshold: real, x: Scored)
    requires at <= |s| && forall i :: 0 <= i < at ==> !After(s[i], threshold)
    requires forall i :: at <= i < |s| ==> After(s[i], threshold)
    ensures multiset(s[..at])[x] == if After(x, threshold) then 0 else multiset(s)[x]
  {
    assert s == s[..at] + s[at..];
    assert multiset(s) == multiset(s[..at]) + multiset(s[at..]);
    if After(x, threshold) {
      assert x !in s[..at];
    } else {
      assert x !in s[at..];
    }
  }

  lemma {:induction false} CountNearFront(first: Scored, s: seq<Scored>, threshold: real)
    ensures CountNear([first] + s, threshold) == CountNear(s, threshold) + if After(first, threshold) then 0 else 1
  {
    if s == [] {
      assert [first] + s == [first] && [first][..0] == [];
      assert CountNear([first][..0], threshold) == 0;
    } else {
      var last := |s| - 1;
      assert ([first] + s)[..|[first] + s| - 1] == [first] + s[..last];
      CountNearFront(first, s[..last], threshold);
    }
  }

  lemma {:induction false} InsertCounts(s: seq<Scored>, x: Scored, threshold: real)
    ensures CountNear(Insert(s, x), threshold) == CountNear(s, threshold) + if After(x, threshold) then 0 else 1
  {
    if s == [] || Before(x, s[0]) {
      CountNearFront(x, s, threshold);
      assert [x] + s == Insert(s, x);
    } else {
      InsertCounts(s[1..], x, threshold);
      CountNearFront(s[0], s[1..], threshold);
      CountNearFront(s[0], Insert(s[1..], x), threshold);
      assert s == [s[0]] + s[1..];
    }
  }

  lemma {:induction false} SortCounts(s: seq<Scored>, threshold: real)
    ensures CountNear(Sort(s), threshold) == CountNear(s, threshold)
  {
    if s != [] {
      SortCounts(s[..|s| - 1], threshold);
      InsertCounts(Sort(s[..|s| - 1]), s[|s| - 1], threshold);
    }
  }

  // ---------------------------------------------------------------------------------------
  // The estimates
  // ---------------------------------------------------------------------------------------

  lemma {:induction false} EstimatedTimes(b: Beam, list: seq<nat>, estimates: seq<real>, n: nat)
    requires n < |estimates|
    ensures multiset(Estimated(b, list, estimates))[Entry(estimates, n)]
         == if IsUnvisited(b, n, estimates) then multiset(list)[n] else 0
  {
    if list != [] {
      var last := |list| - 1;
      assert list == list[..last] + [list[last]];
      EstimatedTimes(b, list[..last], estimates, n);
    }
  }

  lemma {:induction false} EstimatedNear(b: Beam, list: seq<nat>, estimates: seq<real>, worst: real)
    ensures CountNear(Estimated(b, list, estimates), worst * 4.0) == |NearPositions(b, list, worst, estimates)|
  {
    hide NearPositions;
    if list == [] {
      NoPositions(b, list, worst, estimates);
    } else {
      var last := |list| - 1;
      var n, rest := list[last], Estimated(b, list[..last], estimates);
      EstimatedNear(b, list[..last], estimates, worst);
      NearPositionsNext(b, list, worst, estimates);
      if IsUnvisited(b, n, estimates) {
        assert (rest + [Entry(estimates, n)])[..|rest|] == rest;
      }
    }
  }

  lemma NoPositions(b: Beam, list: seq<nat>, worst: real, estimates: seq<real>)
    requires list == []
    ensures NearPositions(b, list, worst, estimates) == {}
  {
  }

  lemma NearPositionsNext(b: Beam, list: seq<nat>, worst: real, estimates: seq<real>)
    requires list != []
    ensures var last := |list| - 1;
      |NearPositions(b, list, worst, estimates)| == |NearPositions(b, list[..last], worst, estimates)|
        + if IsUnvisited(b, list[last], estimates) && !IsFar(list[last], worst, estimates) then 1 else 0
  {
    hide IsFar;
    var last := |list| - 1;
    var near := IsUnvisited(b, list[last], estimates) && !IsFar(list[last], worst, estimates);
    assert NearPositions(b, list, worst, estimates)
        == NearPositions(b, list[..last], worst, estimates) + if near then {last} else {};
  }

  // ---------------------------------------------------------------------------------------
  // The candidates
  // ---------------------------------------------------------------------------------------

  /** What the cut leaves of a sorted list. */
  lemma CutExactly(s: seq<Scored>, best: seq<Scored>, k: nat, x: Scored)
    requires Ascending(s)
    ensures var cut := CutFar(s, best, k);
      && Ascending(cut) && (forall y :: y in cut ==> y in s)
      && multiset(cut)[x] ==
           if best != [] && |best| >= k && CountNear(s, best[|best| - 1].dist * 4.0) >= k
              && After(x, best[|best| - 1].dist * 4.0)
           then 0 else multiset(s)[x]
  {
    hide UpperBound;
    if best != [] {
      var threshold := best[|best| - 1].dist * 4.0;
      var at := UpperBound(s, threshold);
      UpperBoundSplits(s, threshold);
      SplitCount(s, at, threshold);
      SplitContents(s, at, threshold, x);
      assert at == |s| ==> s[..at] == s;
    }
  }

  /** The entries that the search goes through, before their ids are taken. */
  lemma RankedExactly(b: Beam, list: seq<nat>, estimates: seq<real>, k: nat, n: nat)
    requires n < |estimates|
    ensures var cut := CutFar(Sort(Estimated(b, list, estimates)), b.best, k);
      && Ascending(cut) && (forall x :: x in cut ==> x.id < |estimates| && x == Entry(estimates, x.id))
      && multiset(cut)[Entry(estimates, n)] == TimesLookedAt(b, list, estimates, k, n)
  {
    hide Sort;
    hide Estimated;
    hide CutFar;
    hide CountNear;
    hide NearPositions;
    var est := Estimated(b, list, estimates);
    SortContents(est);
    EstimatedFrom(b, list, estimates);
    EstimatedTimes(b, list, estimates, n);
    CutExactly(Sort(est), b.best, k, Entry(estimates, n));
    if b.best != [] {
      var worst := b.best[|b.best| - 1].dist;
      SortCounts(est, worst * 4.0);
      EstimatedNear(b, list, estimates, worst);
    }
  }

  lemma {:induction false} IdsTimes(s: seq<Scored>, estimates: seq<real>, n: nat)
    requires n < |estimates| && forall x :: x in s ==> x.id < |estimates| && x == Entry(estimates, x.id)
    ensures multiset(Ids(s))[n] == multiset(s)[Entry(estimates, n)]
  {
    if s != [] {
      var last := |s| - 1;
      IdsTimes(s[..last], estimates, n);
      assert s == s[..last] + [s[last]];
      assert Ids(s) == Ids(s[..last]) + [s[last].id];
      assert s[last] in s;
    }
  }

  /** The neighbours of a node that are looked at, and how often, in order of estimate and id. */
  lemma CandidatesExactly(b: Beam, adj: seq<seq<nat>>, estimates: seq<real>, k: nat, u: nat)
    ensures var ids: seq<nat>, list: seq<nat> := Candidates(PqRanked(adj, estimates, k), b, u), Adjacent(adj, u);
      && (forall i :: 0 <= i < |ids| ==> ids[i] < |estimates|)
      && (forall i, j :: 0 <= i < j < |ids| ==> AtMost(Entry(estimates, ids[i]), Entry(estimates, ids[j])))
      && forall n: nat :: n < |estimates| ==> multiset(ids)[n] == TimesLookedAt(b, list, estimates, k, n)
  {
    hide CutFar;
    hide Sort;
    hide Estimated;
    hide LeavesOutFar;
    var list := Adjacent(adj, u);
    var cut := CutFar(Sort(Estimated(b, list, estimates)), b.best, k);
    var ids := Ids(cut);
    assert Candidates(PqRanked(adj, estimates, k), b, u) == ids;
    forall i | 0 <= i < |ids| ensures ids[i] < |estimates| && Entry(estimates, ids[i]) == cut[i] {
      EntriesInRange(b, list, estimates, k, i);
    }
    if ids != [] { EntriesInRange(b, list, estimates, k, 0); }
    forall n: nat | n < |estimates| ensures multiset(ids)[n] == TimesLookedAt(b, list, estimates, k, n) {
      RankedExactly(b, list, estimates, k, n);
      IdsTimes(cut, estimates, n);
    }
  }

  lemma EntriesInRange(b: Beam, list: seq<nat>, estimates: seq<real>, k: nat, i: nat)
    requires i < |CutFar(Sort(Estimated(b, list, estimates)), b.best, k)|
    ensures var cut := CutFar(Sort(Estimated(b, list, estimates)), b.best, k);
      Ascending(cut) && cut[i].id < |estimates| && cut[i] == Entry(estimates, cut[i].id)
  {
    var sorted := Sort(Estimated(b, list, estimates));
    SortContents(Estimated(b, list, estimates));
    EstimatedFrom(b, list, estimates);
    assert sorted[i] in sorted;
  }
}
