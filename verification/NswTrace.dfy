/** The construction of the benchmark graph, step by step. */
module NswTraces {
  // Every build is a sequence of graphs: what each search of it starts from and finds, which of the found nodes are
  // chosen, and which lists a step changes and how.

  import opened Sequences
  import opened Vectors
  import opened Ranking
  import opened Greedy
  import opened BestFirst
  import opened FlatGraphs
  import opened SearchTraces
  import opened Selections
  import opened NswBuilders

  // ---------------------------------------------------------------------------------------
  // One search
  // ---------------------------------------------------------------------------------------

  /** An unvisited node is queued and becomes a result, however far it is. */
  ghost predicate Pushes(b: Beam, c: Beam, n: nat, dists: seq<real>, ef: nat)
    requires n < |dists|
  {
    && IsSorted(c, ef) && c.visited == b.visited + {n}
    && multiset(c.frontier) == multiset(b.frontier) + multiset{Scored(dists[n], n)}
    && Takes(b.best, c.best, Scored(dists[n], n), ef)
  }

  /** A search starts from its entry and then the node's neighbours, in the order of its list. */
  ghost predicate IsSeeding(steps: seq<Beam>, entry: nat, current: seq<nat>, dists: seq<real>, ef: nat) {
    && entry < |dists| && |steps| == |current| + 1
    && steps[0] == Beam([Scored(dists[entry], entry)], [Scored(dists[entry], entry)], {entry})
    && forall i :: 0 <= i < |current| ==> SeedsOn(steps[i], steps[i + 1], current[i], dists, ef)
  }

  ghost predicate SeedsOn(b: Beam, c: Beam, n: nat, dists: seq<real>, ef: nat) {
    if n < |dists| && n !in b.visited then Pushes(b, c, n, dists, ef) else c == b
  }

  /** The results of a search started so, in order, without the node itself. */
  ghost predicate IsFoundVia(steps: seq<Beam>, states: seq<Beam>, found: seq<Scored>, lists: seq<seq<nat>>, entry: nat,
                             current: seq<nat>, node: nat, dists: seq<real>, ef: nat) {
    && IsSeeding(steps, entry, current, dists, ef)
    && IsSearch(states, AllNeighbours(lists), 1, dists, ef) && states[0] == steps[|current|]
    && StrictlyAscending(found)
    && forall x :: x in found <==> x in states[|states| - 1].best && x.id != node
  }

  ghost predicate IsFound(found: seq<Scored>, lists: seq<seq<nat>>, entry: nat, current: seq<nat>, node: nat,
                          dists: seq<real>, ef: nat) {
    exists steps, states :: IsFoundVia(steps, states, found, lists, entry, current, node, dists, ef)
  }

  lemma PushPushes(b: Beam, n: nat, dists: seq<real>, ef: nat)
    requires n < |dists| && IsSorted(b, ef)
    ensures Pushes(b, Push(b, Entry(dists, n), ef), n, dists, ef)
  {
    hide Takes;
    TrimTakes(b.best, Entry(dists, n), ef);
    InsertAscending(b.frontier, Entry(dists, n));
    InsertContents(b.frontier, Entry(dists, n));
  }

  lemma {:induction false} SeedIsSeeding(entry: nat, current: seq<nat>, dists: seq<real>, ef: nat)
    returns (steps: seq<Beam>)
    requires ef >= 1 && entry < |dists|
    ensures IsSeeding(steps, entry, current, dists, ef)
    ensures steps[|current|] == Seed(Start(entry, dists), current, dists, ef) && IsSorted(steps[|current|], ef)
  {
    hide Pushes;
    hide Push;
    if current == [] {
      steps := [Start(entry, dists)];
    } else {
      var last, n := |current| - 1, current[|current| - 1];
      var before := SeedIsSeeding(entry, current[..last], dists, ef);
      steps := before + [Seed(Start(entry, dists), current, dists, ef)];
      if IsFresh(before[last], n, dists) { PushPushes(before[last], n, dists, ef); }
      if IsFresh(before[last], n, dists) { PushesSorted(before[last], n, dists, ef); }
      forall i | 0 <= i < |current| ensures SeedsOn(steps[i], steps[i + 1], current[i], dists, ef) {
        if i < last { assert SeedsOn(before[i], before[i + 1], current[..last][i], dists, ef); }
      }
    }
  }

  lemma PushesSorted(b: Beam, n: nat, dists: seq<real>, ef: nat)
    requires n < |dists| && IsSorted(b, ef)
    ensures IsSorted(Push(b, Entry(dists, n), ef), ef)
  {
    PushPushes(b, n, dists, ef);
  }

  lemma FoundIsFound(lists: seq<seq<nat>>, entry: nat, current: seq<nat>, node: nat, dists: seq<real>, ef: nat)
    requires ef >= 1 && entry < |dists|
    ensures IsFound(Found(lists, entry, current, node, dists, ef), lists, entry, current, node, dists, ef)
  {
    hide IsSeeding;
    hide IsSearch;
    var e, start := AllNeighbours(lists), Seed(Start(entry, dists), current, dists, ef);
    var steps := SeedIsSeeding(entry, current, dists, ef);
    SeedingLength(steps, entry, current, dists, ef);
    RunIsBatchRun(start, e, dists, ef);
    var states := BatchRunIsSearch(start, e, 1, dists, ef);
    SearchNotEmpty(states, e, dists, ef);
    StartSound(entry, dists, ef);
    SeedSound(Start(entry, dists), current, dists, ef);
    RunSound(start, e, dists, ef);
    OthersOf(Run(start, e, dists, ef).best, node);
    OthersAscend(Run(start, e, dists, ef).best, node);
    assert IsFoundVia(steps, states, Found(lists, entry, current, node, dists, ef), lists, entry, current, node, dists,
                      ef);
  }

  lemma SeedingLength(steps: seq<Beam>, entry: nat, current: seq<nat>, dists: seq<real>, ef: nat)
    requires IsSeeding(steps, entry, current, dists, ef)
    ensures |steps| == |current| + 1
  {
  }

  lemma SearchNotEmpty(states: seq<Beam>, e: Expansion, dists: seq<real>, ef: nat)
    requires IsSearch(states, e, 1, dists, ef)
    ensures states != []
  {
  }

  // ---------------------------------------------------------------------------------------
  // One step
  // ---------------------------------------------------------------------------------------

  /** A search for a node and what linking makes of the lists: its own becomes the selection from what is found, each
      selected node's gets the node at its end if it has fewer than twice the maximum degree, and no other changes. */
  ghost predicate LinksVia(found: seq<Scored>, chosen: seq<nat>, before: seq<seq<nat>>, after: seq<seq<nat>>,
                           entry: nat, current: seq<nat>, node: nat, data: seq<Vector>, dim: nat, ef: nat, cap: nat)
    requires Uniform(data, dim) && node < |data|
  {
    && IsFound(found, before, entry, current, node, DistancesFrom(node, data, dim), ef)
    && AreCandidates(found, data) && IsSelection(chosen, found, cap, data, dim)
    && |after| == |before|
    && forall i :: 0 <= i < |before| ==>
         after[i] == if i == node then chosen
                     else if i in chosen && |before[i]| < 2 * cap then before[i] + [node] else before[i]
  }

  ghost predicate IsLink(before: seq<seq<nat>>, after: seq<seq<nat>>, entry: nat, current: seq<nat>, node: nat,
                         data: seq<Vector>, dim: nat, ef: nat, cap: nat)
    requires Uniform(data, dim) && node < |data|
  {
    exists found, chosen :: LinksVia(found, chosen, before, after, entry, current, node, data, dim, ef, cap)
  }

  lemma LinkedIsLink(lists: seq<seq<nat>>, entry: nat, current: seq<nat>, node: nat, data: seq<Vector>, dim: nat,
                     ef: nat, cap: nat)
    requires Uniform(data, dim) && |lists| == |data| && node < |data| && ef >= 1 && entry < |data|
    ensures IsLink(lists, Linked(lists, entry, current, node, data, dim, ef, cap), entry, current, node, data, dim,
                   ef, cap)
  {
    hide Found;
    hide IsFound;
    hide IsSelection;
    hide Select;
    var found := Found(lists, entry, current, node, DistancesFrom(node, data, dim), ef);
    var chosen := Chosen(lists, entry, current, node, data, dim, ef, cap);
    FoundIsFound(lists, entry, current, node, DistancesFrom(node, data, dim), ef);
    FoundAreCandidates(lists, entry, current, node, data, dim, ef);
    SelectExactly(found, cap, data, dim);
    SelectCounts(found, cap, data, dim);
    ChosenAreOthers(found, chosen, node);
    forall i | 0 <= i < |lists|
      ensures Linked(lists, entry, current, node, data, dim, ef, cap)[i]
           == if i == node then chosen
              else if i in chosen && |lists[i]| < 2 * cap then lists[i] + [node] else lists[i]
    {
      AddBackAt(lists[node := Cut(chosen, 2 * cap)], chosen, node, 2 * cap, i);
    }
    assert LinksVia(found, chosen, lists, Linked(lists, entry, current, node, data, dim, ef, cap), entry, current, node,
                    data, dim, ef, cap);
  }

  lemma ChosenAreOthers(found: seq<Scored>, chosen: seq<nat>, node: nat)
    requires (forall x :: x in found ==> x.id != node) && forall n :: n in chosen ==> n in Ids(found)
    ensures node !in chosen
  {
    forall n | n in chosen ensures n != node {
      var j :| 0 <= j < |found| && Ids(found)[j] == n;
      assert found[j] in found;
    }
  }

  // ---------------------------------------------------------------------------------------
  // The phases
  // ---------------------------------------------------------------------------------------

  /** Phase 1: from empty lists, the nodes are linked in order, each by a search from node 0 on the graph so far; node 0
      itself is not. */
  ghost predicate IsInsertion(graphs: seq<seq<seq<nat>>>, n: nat, data: seq<Vector>, dim: nat, ef: nat, cap: nat)
    requires Uniform(data, dim) && n <= |data|
  {
    && |graphs| == n + 1
    && |graphs[0]| == |data| && (forall i :: 0 <= i < |data| ==> graphs[0][i] == [])
    && forall i :: 0 <= i < n ==> InsertsOn(graphs[i], graphs[i + 1], i, data, dim, ef, cap)
  }

  ghost predicate InsertsOn(before: seq<seq<nat>>, after: seq<seq<nat>>, node: nat, data: seq<Vector>, dim: nat,
                            ef: nat, cap: nat)
    requires Uniform(data, dim) && node < |data|
  {
    if node == 0 then after == before else IsLink(before, after, 0, [], node, data, dim, ef, cap)
  }

  /** Phase 2: the nodes are linked again in some order, by searches from the medoid and their own neighbours. */
  ghost predicate IsPass(graphs: seq<seq<seq<nat>>>, order: seq<nat>, medoid: nat, data: seq<Vector>, dim: nat, ef: nat,
                         cap: nat)
    requires Uniform(data, dim) && Within(order, |data|)
  {
    && |graphs| == |order| + 1
    && forall i :: 0 <= i < |order| ==> LinksAgain(graphs[i], graphs[i + 1], medoid, order[i], data, dim, ef, cap)
  }

  ghost predicate LinksAgain(before: seq<seq<nat>>, after: seq<seq<nat>>, medoid: nat, node: nat, data: seq<Vector>,
                             dim: nat, ef: nat, cap: nat)
    requires Uniform(data, dim) && node < |data|
  {
    |before| == |data| && IsLink(before, after, medoid, before[node], node, data, dim, ef, cap)
  }

  /** The neighbours of a node other than itself, each as often as the list names it, by distance and id. */
  ghost predicate AreNeighbours(sorted: seq<Scored>, list: seq<nat>, node: nat, data: seq<Vector>, dim: nat)
    requires Uniform(data, dim) && node < |data|
  {
    && Ascending(sorted) && AreCandidates(sorted, data)
    && (forall x :: x in sorted ==> x == Scored(L2(data[node], data[x.id], dim), x.id))
    && forall n: nat :: n < |data| ==>
         multiset(sorted)[Scored(L2(data[node], data[n], dim), n)] == if n == node then 0 else multiset(list)[n]
  }

  /** Phase 3: a list over the maximum degree becomes a selection from its nodes by distance; no other changes. */
  ghost predicate IsPruning(before: seq<seq<nat>>, after: seq<seq<nat>>, data: seq<Vector>, dim: nat, cap: nat)
    requires Uniform(data, dim)
  {
    && |after| == |before| == |data|
    && forall i :: 0 <= i < |before| ==> PrunesTo(before[i], after[i], i, data, dim, cap)
  }

  ghost predicate PrunesTo(before: seq<nat>, after: seq<nat>, node: nat, data: seq<Vector>, dim: nat, cap: nat)
    requires Uniform(data, dim) && node < |data|
  {
    if |before| <= cap then after == before
    else exists sorted :: PrunesVia(sorted, before, after, node, data, dim, cap)
  }

  ghost predicate PrunesVia(sorted: seq<Scored>, before: seq<nat>, after: seq<nat>, node: nat, data: seq<Vector>,
                            dim: nat, cap: nat)
    requires Uniform(data, dim) && node < |data|
  {
    AreNeighbours(sorted, before, node, data, dim) && IsSelection(after, sorted, cap, data, dim)
  }

  /** A whole build: the three phases one after the other. The pass searches with the width of the construction, which
      beyond 100000 vectors shrinks with their number, down to 100. */
  ghost predicate IsBuild(inserts: seq<seq<seq<nat>>>, pass: seq<seq<seq<nat>>>, built: seq<seq<nat>>, order: seq<nat>,
                          medoid: nat, data: seq<Vector>, dim: nat, ef: nat, cap: nat)
    requires Uniform(data, dim) && Within(order, |data|)
  {
    var size := |data|;
    var shrunk := if size > 100000 then ef * 100000 / size else ef;
    && IsInsertion(inserts, |data|, data, dim, ef, cap)
    && IsPass(pass, order, medoid, data, dim, if size > 100000 && shrunk < 100 then 100 else shrunk, cap)
    && pass[0] == inserts[|data|] && IsPruning(pass[|order|], built, data, dim, cap)
  }

  // ---------------------------------------------------------------------------------------
  // A build is such a sequence
  // ---------------------------------------------------------------------------------------

  lemma {:induction false} InsertsAreInsertion(n: nat, data: seq<Vector>, dim: nat, ef: nat, cap: nat)
    returns (graphs: seq<seq<seq<nat>>>)
    requires Uniform(data, dim) && ef >= 1 && n <= |data|
    ensures IsInsertion(graphs, n, data, dim, ef, cap) && |graphs| == n + 1
    ensures graphs[n] == AfterInserts(n, data, dim, ef, cap)
  {
    hide IsLink;
    hide Linked;
    if n == 0 {
      graphs := [AfterInserts(0, data, dim, ef, cap)];
    } else {
      var before := InsertsAreInsertion(n - 1, data, dim, ef, cap);
      NextInsert(n - 1, data, dim, ef, cap);
      if n > 1 { LinkedIsLink(before[n - 1], 0, [], n - 1, data, dim, ef, cap); }
      graphs := before + [AfterInserts(n, data, dim, ef, cap)];
      hide AfterInserts;
      forall i | 0 <= i < n ensures InsertsOn(graphs[i], graphs[i + 1], i, data, dim, ef, cap) {
        if i < n - 1 { assert InsertsOn(before[i], before[i + 1], i, data, dim, ef, cap); }
      }
    }
  }

  lemma {:induction false} PassIsPass(lists: seq<seq<nat>>, order: seq<nat>, medoid: nat, data: seq<Vector>, dim: nat,
                                      ef: nat, cap: nat) returns (graphs: seq<seq<seq<nat>>>)
    requires Uniform(data, dim) && |lists| == |data| && ef >= 1 && medoid < |data| && Within(order, |data|)
    ensures IsPass(graphs, order, medoid, data, dim, ef, cap)
    ensures |graphs| == |order| + 1 && graphs[0] == lists
    ensures graphs[|order|] == AfterPass(lists, order, medoid, data, dim, ef, cap)
  {
    hide IsLink;
    hide Linked;
    if order == [] {
      graphs := [lists];
    } else {
      var last, node := |order| - 1, order[|order| - 1];
      var before := PassIsPass(lists, order[..last], medoid, data, dim, ef, cap);
      LinkedIsLink(before[last], medoid, before[last][node], node, data, dim, ef, cap);
      graphs := before + [AfterPass(lists, order, medoid, data, dim, ef, cap)];
      assert graphs[last] == before[last];
      forall i | 0 <= i < |order|
        ensures LinksAgain(graphs[i], graphs[i + 1], medoid, order[i], data, dim, ef, cap)
      {
        if i < last { assert LinksAgain(before[i], before[i + 1], medoid, order[..last][i], data, dim, ef, cap); }
      }
    }
  }

  lemma {:induction false} NeighboursTimes(list: seq<nat>, node: nat, data: seq<Vector>, dim: nat, n: nat)
    requires Uniform(data, dim) && node < |data| && Within(list, |data|) && n < |data|
    ensures multiset(Neighbours(list, node, data, dim))[Scored(L2(data[node], data[n], dim), n)]
         == if n == node then 0 else multiset(list)[n]
  {
    hide L2;
    if list != [] {
      NeighboursTimes(list[..|list| - 1], node, data, dim, n);
      assert list == list[..|list| - 1] + [list[|list| - 1]];
    }
  }

  lemma {:induction false} NeighboursMeasured(list: seq<nat>, node: nat, data: seq<Vector>, dim: nat)
    requires Uniform(data, dim) && node < |data| && Within(list, |data|)
    ensures forall x :: x in Neighbours(list, node, data, dim) ==>
      x.id < |data| && x == Scored(L2(data[node], data[x.id], dim), x.id)
  {
    if list != [] { NeighboursMeasured(list[..|list| - 1], node, data, dim); }
  }

  lemma PrunedIsPruning(list: seq<nat>, node: nat, data: seq<Vector>, dim: nat, cap: nat)
    requires Uniform(data, dim) && node < |data| && Within(list, |data|)
    ensures PrunesTo(list, Shortened(list, node, data, dim, cap), node, data, dim, cap)
  {
    hide Neighbours;
    hide Select;
    hide IsSelection;
    if |list| > cap {
      var all := Neighbours(list, node, data, dim);
      var sorted := Sort(all);
      SortContents(all);
      SortKeepsCandidates(all, data);
      NeighboursMeasured(list, node, data, dim);
      forall n: nat | n < |data|
        ensures multiset(sorted)[Scored(L2(data[node], data[n], dim), n)] == if n == node then 0 else multiset(list)[n]
      {
        NeighboursTimes(list, node, data, dim, n);
      }
      SelectExactly(sorted, cap, data, dim);
      assert PrunesVia(sorted, list, Shortened(list, node, data, dim, cap), node, data, dim, cap);
    }
  }

  /** Every build is three such phases. */
  lemma BuiltIsBuild(order: seq<nat>, medoid: nat, data: seq<Vector>, dim: nat, ef: nat, cap: nat)
    returns (inserts: seq<seq<seq<nat>>>, pass: seq<seq<seq<nat>>>)
    requires Uniform(data, dim) && ef >= 1 && medoid < |data| && Within(order, |data|)
    ensures IsBuild(inserts, pass, Built(order, medoid, data, dim, ef, cap), order, medoid, data, dim, ef, cap)
  {
    hide IsInsertion;
    hide IsPass;
    hide PrunesTo;
    hide AfterInserts;
    hide AfterPass;
    hide Shortened;
    var width := PassWidth(ef, |data|);
    InsertsAreClean(|data|, data, dim, ef, cap);
    inserts := InsertsAreInsertion(|data|, data, dim, ef, cap);
    PassStaysClean(inserts[|data|], order, medoid, data, dim, width, cap);
    pass := PassIsPass(inserts[|data|], order, medoid, data, dim, width, cap);
    var passed := pass[|order|];
    forall i | 0 <= i < |passed|
      ensures PrunesTo(passed[i], Built(order, medoid, data, dim, ef, cap)[i], i, data, dim, cap)
    {
      assert CleanList(passed[i], i, |passed|);
      PrunedIsPruning(passed[i], i, data, dim, cap);
    }
  }
}
