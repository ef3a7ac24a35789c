/** The best-first searches, step by step. */
module SearchTraces {
  // Every search is a sequence of states: which node each step expands, which of its neighbours are visited and in
  // which order, which of those are taken into the results and the queue, and when the search stops.

  import opened Ranking
  import opened BestFirst
  import opened Batches
  import opened PqRankings

  // ---------------------------------------------------------------------------------------
  // What the steps are
  // ---------------------------------------------------------------------------------------

  /** Queue and results are in order of distance and id, and there is room for the results. */
  ghost predicate IsSorted(b: Beam, ef: nat) {
    Ascending(b.frontier) && Ascending(b.best) && |b.best| <= ef
  }

  /** The results have room left, or some result is farther. */
  ghost predicate IsWanted(b: Beam, dist: real, ef: nat) {
    |b.best| < ef || exists y :: y in b.best && dist < y.dist
  }

  ghost predicate IsLastOf(y: Scored, all: multiset<Scored>) {
    y in all && forall z :: z in all ==> AtMost(z, y)
  }

  /** A list takes one more entry, and loses its last one when it had ef. */
  ghost predicate Takes(before: seq<Scored>, after: seq<Scored>, x: Scored, ef: nat) {
    var all := multiset(before) + multiset{x};
    if |before| < ef then multiset(after) == all
    else exists y :: IsLastOf(y, all) && multiset(after) == all - multiset{y}
  }

  /** A node is visited: when it is wanted it is queued and becomes a result, else nothing but the mark is left. */
  ghost predicate Visits(b: Beam, c: Beam, n: nat, dists: seq<real>, ef: nat)
    requires n < |dists|
  {
    && IsSorted(c, ef) && c.visited == b.visited + {n}
    && if IsWanted(b, dists[n], ef) then
         && multiset(c.frontier) == multiset(b.frontier) + multiset{Scored(dists[n], n)}
         && Takes(b.best, c.best, Scored(dists[n], n), ef)
       else c.frontier == b.frontier && c.best == b.best
  }

  /** Going through a list: position i is visited when its node is in range and was unvisited before the batch of
      position i, where batches have the given width. */
  ghost predicate GoesThrough(steps: seq<Beam>, list: seq<nat>, width: nat, dists: seq<real>, ef: nat)
    requires width >= 1
  {
    && |steps| == |list| + 1
    && forall i :: 0 <= i < |list| ==> StepsOn(steps, list, i, i - i % width, dists, ef)
  }

  ghost predicate StepsOn(steps: seq<Beam>, list: seq<nat>, i: int, batch: int, dists: seq<real>, ef: nat)
    requires |steps| == |list| + 1 && 0 <= i < |list|
  {
    && 0 <= batch <= i
    && if list[i] < |dists| && list[i] !in steps[batch].visited
       then Visits(steps[i], steps[i + 1], list[i], dists, ef) else steps[i + 1] == steps[i]
  }

  /** The list that is gone through for an expanded node: all its neighbours in the order they are in, or those that
      are left by their estimates, in order of estimate and id. */
  ghost predicate LooksAt(e: Expansion, b: Beam, u: nat, ids: seq<nat>) {
    match e
    case AllNeighbours(adj) => ids == if u < |adj| then adj[u] else []
    case PqRanked(adj, estimates, k) =>
      && (forall i :: 0 <= i < |ids| ==> ids[i] < |estimates|)
      && (forall i, j :: 0 <= i < j < |ids| ==> AtMost(Entry(estimates, ids[i]), Entry(estimates, ids[j])))
      && forall n: nat :: n < |estimates| ==>
           multiset(ids)[n] == TimesLookedAt(b, if u < |adj| then adj[u] else [], estimates, k, n)
  }

  /** One turn: the first queued node leaves the queue, and what is looked at for it is gone through. */
  ghost predicate TurnsVia(b: Beam, c: Beam, e: Expansion, ids: seq<nat>, steps: seq<Beam>, width: nat,
                           dists: seq<real>, ef: nat)
    requires width >= 1
  {
    && b.frontier != [] && steps != []
    && steps[0] == b.(frontier := b.frontier[1..]) && LooksAt(e, steps[0], b.frontier[0].id, ids)
    && GoesThrough(steps, ids, width, dists, ef) && steps[|steps| - 1] == c
  }

  ghost predicate Turns(b: Beam, c: Beam, e: Expansion, width: nat, dists: seq<real>, ef: nat)
    requires width >= 1
  {
    exists ids, steps :: TurnsVia(b, c, e, ids, steps, width, dists, ef)
  }

  /** Nothing is queued, or the results are full and all closer than the first queued node. */
  ghost predicate Stops(b: Beam, ef: nat) {
    b.frontier == [] || (|b.best| >= ef && forall y :: y in b.best ==> y.dist < b.frontier[0].dist)
  }

  /** The states of a search: turn by turn until it stops, and not longer. */
  ghost predicate IsSearch(states: seq<Beam>, e: Expansion, width: nat, dists: seq<real>, ef: nat)
    requires width >= 1
  {
    && states != []
    && (forall i :: 0 <= i < |states| ==> IsSorted(states[i], ef))
    && (forall i :: 0 <= i < |states| - 1 ==>
          !Stops(states[i], ef) && Turns(states[i], states[i + 1], e, width, dists, ef))
    && Stops(states[|states| - 1], ef)
  }

  // ---------------------------------------------------------------------------------------
  // One visit
  // ---------------------------------------------------------------------------------------

  lemma LastIsWorst(best: seq<Scored>)
    requires Ascending(best) && best != []
    ensures forall y :: y in best ==> y.dist <= best[|best| - 1].dist
  {
    forall y | y in best ensures y.dist <= best[|best| - 1].dist {
      var i :| 0 <= i < |best| && best[i] == y;
      assert i < |best| - 1 ==> AtMost(best[i], best[|best| - 1]);
    }
  }

  lemma TrimTakes(best: seq<Scored>, x: Scored, ef: nat)
    requires Ascending(best) && |best| <= ef
    ensures Ascending(Trim(Insert(best, x), ef)) && |Trim(Insert(best, x), ef)| <= ef
    ensures Takes(best, Trim(Insert(best, x), ef), x, ef)
  {
    hide Insert;
    hide Ascending;
    hide IsLastOf;
    InsertAscending(best, x);
    InsertContents(best, x);
    if |best| == ef { WithoutLast(Insert(best, x), multiset(best) + multiset{x}); }
  }

  /** A sorted list without its last entry. */
  lemma WithoutLast(s: seq<Scored>, all: multiset<Scored>)
    requires s != [] && Ascending(s) && multiset(s) == all
    ensures var last := |s| - 1;
      Ascending(s[..last]) && IsLastOf(s[last], all) && multiset(s[..last]) == all - multiset{s[last]}
  {
    var last := |s| - 1;
    assert s == s[..last] + [s[last]];
    forall z | z in all ensures AtMost(z, s[last]) {
      assert z in multiset(s);
      var i :| 0 <= i < |s| && s[i] == z;
    }
  }

  lemma VisitVisits(b: Beam, n: nat, dists: seq<real>, ef: nat)
    requires ef >= 1 && n < |dists| && IsSorted(b, ef)
    ensures Visits(b, Visit(b, Entry(dists, n), ef), n, dists, ef)
  {
    hide Takes;
    hide Insert;
    hide Trim;
    hide Ascending;
    var x := Entry(dists, n);
    if b.best != [] { LastIsWorst(b.best); }
    TrimTakes(b.best, x, ef);
    InsertAscending(b.frontier, x);
    InsertContents(b.frontier, x);
    if |b.best| == ef { assert b.best[ef - 1] in b.best; }
  }

  // ---------------------------------------------------------------------------------------
  // One list
  // ---------------------------------------------------------------------------------------

  /** Going through one batch, whose nodes were all tested before its first visit. */
  lemma {:induction false} BatchGoesThrough(b: Beam, window: seq<nat>, dists: seq<real>, ef: nat)
    returns (steps: seq<Beam>)
    requires ef >= 1 && IsSorted(b, ef)
    ensures |steps| == |window| + 1 && steps[0] == b && steps[|window|] == BatchVisit(b, window, dists, ef)
    ensures IsSorted(steps[|window|], ef)
    ensures forall i :: 0 <= i < |window| ==> StepsOn(steps, window, i, 0, dists, ef)
  {
    hide Visits;
    hide Visit;
    hide BatchVisit;
    hide IsSorted;
    steps := [b];
    if window == [] {
      NoBatch(b, window, dists, ef);
    } else {
      var last, n := |window| - 1, window[|window| - 1];
      var rest := BatchGoesThrough(b, window[..last], dists, ef);
      var next := BatchVisit(b, window, dists, ef);
      BatchVisitNext(b, window, dists, ef);
      steps := rest + [next];
      if IsFresh(b, n, dists) {
        VisitVisits(rest[last], n, dists, ef);
        VisitIsSorted(rest[last], n, dists, ef);
      }
      forall i | 0 <= i < |window| ensures StepsOn(steps, window, i, 0, dists, ef) {
        if i < last { assert StepsOn(rest, window[..last], i, 0, dists, ef); }
      }
    }
  }

  lemma NoBatch(b: Beam, window: seq<nat>, dists: seq<real>, ef: nat)
    requires ef >= 1 && window == []
    ensures BatchVisit(b, window, dists, ef) == b
  {
  }

  lemma VisitIsSorted(b: Beam, n: nat, dists: seq<real>, ef: nat)
    requires ef >= 1 && n < |dists| && IsSorted(b, ef)
    ensures IsSorted(Visit(b, Entry(dists, n), ef), ef)
  {
    VisitVisits(b, n, dists, ef);
  }

  lemma BatchVisitNext(b: Beam, window: seq<nat>, dists: seq<real>, ef: nat)
    requires ef >= 1 && window != []
    ensures var last := |window| - 1;
      BatchVisit(b, window, dists, ef)
        == if IsFresh(b, window[last], dists)
           then Visit(BatchVisit(b, window[..last], dists, ef), Entry(dists, window[last]), ef)
           else BatchVisit(b, window[..last], dists, ef)
  {
    var last := |window| - 1;
    var ones := FreshOnes(b, window[..last], dists);
    assert (ones + [window[last]])[..|ones|] == ones;
  }

  lemma ModuloNext(i: nat, width: nat)
    requires width >= 1
    ensures i < width ==> i % width == 0 + i
    ensures i >= width ==> (i - width) - (i - width) % width + width == i - i % width
  {
    if i >= width {
      var q := (i - width) / width;
      assert i - width == q * width + (i - width) % width;
      assert i == (q + 1) * width + (i - width) % width;
      QuotientIs(i, q + 1, (i - width) % width, width);
    } else {
      QuotientIs(i, 0, i, width);
    }
  }

  lemma QuotientIs(a: int, q: int, r: int, m: int)
    requires m > 0 && a == q * m + r && 0 <= r < m
    ensures a % m == r
  {
    var d := a / m - q;
    assert a == (q + d) * m + a % m;
    assert a % m == r - d * m;
    assert d >= 1 ==> d * m >= m;
    assert d <= -1 ==> d * m <= -m;
  }

  lemma {:induction false} ScanGoesThrough(b: Beam, list: seq<nat>, width: nat, dists: seq<real>, ef: nat)
    returns (steps: seq<Beam>)
    requires ef >= 1 && width >= 1 && IsSorted(b, ef)
    ensures GoesThrough(steps, list, width, dists, ef) && steps[0] == b
    ensures steps[|list|] == BatchScan(b, list, width, dists, ef) && IsSorted(steps[|list|], ef)
    decreases |list|
  {
    hide StepsOn;
    hide IsSorted;
    hide BatchVisit;
    if |list| <= width {
      steps := BatchGoesThrough(b, list, dists, ef);
      forall i | 0 <= i < |list| ensures StepsOn(steps, list, i, i - i % width, dists, ef) {
        ModuloNext(i, width);
      }
    } else {
      var first := BatchGoesThrough(b, list[..width], dists, ef);
      var rest := ScanGoesThrough(first[width], list[width..], width, dists, ef);
      steps := first[..width] + rest;
      forall i | 0 <= i < |list| ensures StepsOn(steps, list, i, i - i % width, dists, ef) {
        ModuloNext(i, width);
        if i < width {
          FirstSteps(first, rest, steps, list, i, width, dists, ef);
        } else {
          LaterSteps(first, rest, steps, list, i, i - i % width, width, dists, ef);
        }
      }
    }
  }

  lemma FirstSteps(first: seq<Beam>, rest: seq<Beam>, steps: seq<Beam>, list: seq<nat>, i: nat, width: nat,
                   dists: seq<real>, ef: nat)
    requires i < width < |list| && |first| == width + 1 && |rest| == |list| - width + 1 && first[width] == rest[0]
    requires steps == first[..width] + rest && StepsOn(first, list[..width], i, 0, dists, ef)
    ensures StepsOn(steps, list, i, 0, dists, ef)
  {
    hide Visits;
    assert steps[i + 1] == first[i + 1];
  }

  lemma LaterSteps(first: seq<Beam>, rest: seq<Beam>, steps: seq<Beam>, list: seq<nat>, i: nat, batch: int, width: nat,
                   dists: seq<real>, ef: nat)
    requires width <= i < |list| && |first| == width + 1 && |rest| == |list| - width + 1 && width <= batch
    requires steps == first[..width] + rest && StepsOn(rest, list[width..], i - width, batch - width, dists, ef)
    ensures StepsOn(steps, list, i, batch, dists, ef)
  {
    hide Visits;
  }

  // ---------------------------------------------------------------------------------------
  // Whole searches
  // ---------------------------------------------------------------------------------------

  lemma CandidatesLookedAt(e: Expansion, b: Beam, u: nat)
    ensures LooksAt(e, b, u, Candidates(e, b, u))
  {
    if e.PqRanked? { CandidatesExactly(b, e.adj, e.estimates, e.k, u); }
  }

  lemma SettledStops(b: Beam, ef: nat)
    requires ef >= 1 && IsSorted(b, ef)
    ensures Stops(b, ef) <==> b.frontier == [] || Settled(b, ef)
  {
    if b.best != [] {
      LastIsWorst(b.best);
      assert b.best[|b.best| - 1] in b.best;
    }
  }

  lemma ExpandTurns(b: Beam, e: Expansion, width: nat, dists: seq<real>, ef: nat)
    requires ef >= 1 && width >= 1 && IsSorted(b, ef) && b.frontier != []
    ensures IsSorted(BatchExpand(b, e, width, dists, ef), ef)
    ensures Turns(b, BatchExpand(b, e, width, dists, ef), e, width, dists, ef)
  {
    hide Candidates;
    hide GoesThrough;
    hide LooksAt;
    var popped, u := b.(frontier := b.frontier[1..]), b.frontier[0].id;
    CandidatesLookedAt(e, popped, u);
    var steps := ScanGoesThrough(popped, Candidates(e, popped, u), width, dists, ef);
    LastOfSteps(steps, Candidates(e, popped, u), width, dists, ef);
    assert TurnsVia(b, BatchExpand(b, e, width, dists, ef), e, Candidates(e, popped, u), steps, width, dists, ef);
  }

  lemma LastOfSteps(steps: seq<Beam>, list: seq<nat>, width: nat, dists: seq<real>, ef: nat)
    requires width >= 1 && GoesThrough(steps, list, width, dists, ef)
    ensures |steps| == |list| + 1
  {
  }

  /** From any sorted state on, the batched loop is a search. */
  lemma {:induction false} BatchRunIsSearch(b: Beam, e: Expansion, width: nat, dists: seq<real>, ef: nat)
    returns (states: seq<Beam>)
    requires ef >= 1 && width >= 1 && IsSorted(b, ef)
    ensures IsSearch(states, e, width, dists, ef)
    ensures states[0] == b && states[|states| - 1] == BatchRun(b, e, width, dists, ef)
    decreases |Unvisited(b, dists)|, |b.frontier|
  {
    hide IsSorted;
    hide Stops;
    hide Settled;
    hide Turns;
    hide BatchExpand;
    SettledStops(b, ef);
    states := [b];
    if b.frontier != [] && !Settled(b, ef) {
      BatchExpandWork(b, e, width, dists, ef);
      ExpandTurns(b, e, width, dists, ef);
      var rest := BatchRunIsSearch(BatchExpand(b, e, width, dists, ef), e, width, dists, ef);
      states := [b] + rest;
      assert forall i :: 0 < i < |states| ==> states[i] == rest[i - 1];
      forall i | 0 <= i < |states| - 1
        ensures !Stops(states[i], ef) && Turns(states[i], states[i + 1], e, width, dists, ef)
      {
        if i > 0 { assert Turns(rest[i - 1], rest[i], e, width, dists, ef); }
      }
    }
  }

  /** Batches of one are no batches. */
  lemma {:induction false} RunIsBatchRun(b: Beam, e: Expansion, dists: seq<real>, ef: nat)
    requires ef >= 1
    ensures BatchRun(b, e, 1, dists, ef) == Run(b, e, dists, ef)
    decreases Work(b, dists)
  {
    if b.frontier == [] || Settled(b, ef) {
    } else {
      var popped, u := b.(frontier := b.frontier[1..]), b.frontier[0].id;
      DistinctBatches(Candidates(e, popped, u), popped.visited, 1, |dists|);
      BatchScanIsScan(popped, Candidates(e, popped, u), 1, dists, ef);
      ExpandWork(b, e, dists, ef);
      RunIsBatchRun(Expand(b, e, dists, ef), e, dists, ef);
    }
  }

  /** The first k ids of some results. */
  ghost predicate IsAnswer(ids: seq<nat>, best: seq<Scored>, k: nat) {
    |ids| == (if k < |best| then k else |best|) && forall i :: 0 <= i < |ids| ==> ids[i] == best[i].id
  }

  /** The batched search is a search from its entry alone that returns the first k results. */
  lemma BatchSearchIsTrace(entry: nat, e: Expansion, width: nat, dists: seq<real>, ef: nat, k: nat)
    returns (states: seq<Beam>)
    requires ef >= 1 && width >= 1 && entry < |dists|
    ensures IsSearch(states, e, width, dists, ef)
    ensures states[0] == Beam([Scored(dists[entry], entry)], [Scored(dists[entry], entry)], {entry})
    ensures IsAnswer(BatchSearch(entry, e, width, dists, ef, k), states[|states| - 1].best, k)
  {
    states := BatchRunIsSearch(Start(entry, dists), e, width, dists, ef);
  }

  /** So is the search that tests every node at its turn: it is the one with batches of one. */
  lemma SearchIsTrace(entry: nat, e: Expansion, dists: seq<real>, ef: nat, k: nat) returns (states: seq<Beam>)
    requires ef >= 1 && entry < |dists|
    ensures IsSearch(states, e, 1, dists, ef)
    ensures states[0] == Beam([Scored(dists[entry], entry)], [Scored(dists[entry], entry)], {entry})
    ensures IsAnswer(Search(entry, e, dists, ef, k), states[|states| - 1].best, k)
  {
    RunIsBatchRun(Start(entry, dists), e, dists, ef);
    states := BatchSearchIsTrace(entry, e, 1, dists, ef, k);
  }
}
