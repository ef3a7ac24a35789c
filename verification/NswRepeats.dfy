/** Repeats in built graphs. */
module NswRepeats {
  // Back edges are not looked up before they are added, so a list may name a neighbour twice: when,
  // and for which builders the beam width of a search of the built graph then matters.

  import opened Sequences
  import opened Vectors
  import opened Ranking
  import opened BestFirst
  import opened Batches
  import opened FlatGraphs
  import opened NswBuilders
  import opened Selections

  // ---------------------------------------------------------------------------------------
  // Step by step
  // ---------------------------------------------------------------------------------------

  /** Linking a node leaves a list with a repeated neighbour exactly when it had one, or when its
      owner is chosen, still has room, and names the node already: back edges are not looked up
      first. The node's own list is replaced by one without repeats. */
  lemma LinkedRepeatsExactly(lists: seq<seq<nat>>, entry: nat, current: seq<nat>, node: nat, data: seq<Vector>,
                             dim: nat, ef: nat, cap: nat, i: nat)
    requires Uniform(data, dim) && |lists| == |data| && node < |data| && ef >= 1 && entry < |data| && i < |lists|
    ensures var chosen := Chosen(lists, entry, current, node, data, dim, ef, cap);
      (i == node || (NoRepeats(lists[i]) && !(i in chosen && |lists[i]| < 2 * cap && node in lists[i])))
      <==> NoRepeats(Linked(lists, entry, current, node, data, dim, ef, cap)[i])
  {
    var chosen := Chosen(lists, entry, current, node, data, dim, ef, cap);
    assert forall j :: 0 <= j < |chosen| ==> chosen[j] in chosen;
    AddBackAt(lists[node := Cut(chosen, 2 * cap)], chosen, node, 2 * cap, i);
    if i == node {
      FoundAreCandidates(lists, entry, current, node, data, dim, ef);
      var _ := LinkedAt(lists, entry, current, node, data, dim, ef, cap, i);
    } else {
      NoRepeatsAppend(lists[i], node);
    }
  }

  /** Pruning removes the repeats of the lists that are too long, and of no others. */
  lemma PruningRepeatsExactly(lists: seq<seq<nat>>, data: seq<Vector>, dim: nat, cap: nat, i: nat)
    requires Uniform(data, dim) && |lists| == |data| && Clean(lists) && i < |lists|
    ensures NoRepeats(AfterPruning(lists, data, dim, cap)[i]) <==> |lists[i]| > cap || NoRepeats(lists[i])
  {
    var pruned := AfterPruning(lists, data, dim, cap);
    assert CleanList(lists[i], i, |lists|);
    if |lists[i]| > cap { PrunedCounts(lists[i], i, data, dim, cap); }
  }

  lemma {:induction false} SeedVisits(b: Beam, nodes: seq<nat>, dists: seq<real>, ef: nat)
    ensures forall n :: n in nodes && n < |dists| ==> n in Seed(b, nodes, dists, ef).visited
  {
    if nodes != [] {
      SeedVisits(b, nodes[..|nodes| - 1], dists, ef);
      assert nodes == nodes[..|nodes| - 1] + [nodes[|nodes| - 1]];
    }
  }

  /** A node the search starts from is found, when the beam has room for the whole graph. */
  lemma SeededIsFound(lists: seq<seq<nat>>, entry: nat, current: seq<nat>, node: nat, m: nat, dists: seq<real>, ef: nat)
    requires 1 <= |dists| <= ef && entry < |dists| && m < |dists| && m != node && (m == entry || m in current)
    ensures Found(lists, entry, current, node, dists, ef) != []
  {
    var e, start, region := AllNeighbours(lists), Seed(Start(entry, dists), current, dists, ef), AllNodes(|dists|);
    StartSound(entry, dists, ef);
    SeedSound(Start(entry, dists), current, dists, ef);
    SeedVisits(Start(entry, dists), current, dists, ef);
    RunSound(start, e, dists, ef);
    RunStaysInside(start, e, dists, ef, region);
    var end := Run(start, e, dists, ef);
    SubsetSize(end.visited, region);
    AllKept(end, dists, ef);
    OthersOf(end.best, node);
    assert Entry(dists, m) in Others(end.best, node);
  }

  /** The other of two nodes. */
  function Other(node: nat): (m: nat)
    requires node < 2
    ensures m < 2 && m != node
  {
    1 - node
  }

  /** With two vectors, linking a node lists the other one, once, and adds the node to the other's list. */
  lemma TwoLinked(lists: seq<seq<nat>>, entry: nat, current: seq<nat>, node: nat, data: seq<Vector>, dim: nat,
                  ef: nat, cap: nat)
    requires Uniform(data, dim) && |lists| == |data| == 2 && node < 2 && ef >= 2 && entry < 2 && cap >= 2
    requires (entry == Other(node) || Other(node) in current) && |lists[Other(node)]| < 2 * cap
    ensures Linked(lists, entry, current, node, data, dim, ef, cap)
         == lists[node := [Other(node)]][Other(node) := lists[Other(node)] + [node]]
  {
    hide Linked;
    hide Found;
    var m := Other(node);
    SeededIsFound(lists, entry, current, node, m, DistancesFrom(node, data, dim), ef);
    var chosen := LinkedAt(lists, entry, current, node, data, dim, ef, cap, node);
    OnlyOther(chosen, node);
    var same := LinkedAt(lists, entry, current, node, data, dim, ef, cap, m);
    OnlyOther(same, node);
  }

  lemma OnlyOther(chosen: seq<nat>, node: nat)
    requires node < 2 && chosen != [] && NoRepeats(chosen) && forall n :: n in chosen ==> n < 2 && n != node
    ensures chosen == [Other(node)]
  {
    assert forall i :: 0 <= i < |chosen| ==> chosen[i] in chosen;
    NoRepeatsCount(chosen);
    SubsetSize(SetOf(chosen), {Other(node)});
    assert chosen[0] == Other(node);
  }

  lemma TwoInserted(data: seq<Vector>, dim: nat, ef: nat, cap: nat)
    requires Uniform(data, dim) && |data| == 2 && ef >= 2 && cap >= 2
    ensures AfterInserts(2, data, dim, ef, cap) == [[1], [0]]
  {
    hide Linked;
    var none := NoLists(2);
    assert none[0] == [] && none[1] == [];
    assert none[1 := [0]][0 := [1]] == [[1], [0]];
    TwoLinked(none, 0, [], 1, data, dim, ef, cap);
    assert none[0] + [1] == [1];
    assert Linked(none, 0, [], 1, data, dim, ef, cap) == [[1], [0]];
    NextInsert(0, data, dim, ef, cap);
    NextInsert(1, data, dim, ef, cap);
    assert AfterInserts(0, data, dim, ef, cap) == none;
  }

  /** One optimisation on two nodes. */
  lemma TwoOptimized(lists: seq<seq<nat>>, medoid: nat, node: nat, data: seq<Vector>, dim: nat, ef: nat, cap: nat)
    requires Uniform(data, dim) && |lists| == |data| == 2 && node < 2 && ef >= 2 && medoid < 2 && cap >= 2
    requires Other(node) in lists[node] && |lists[Other(node)]| < 2 * cap
    ensures var next := Optimized(lists, medoid, node, data, dim, ef, cap);
      next[node] == [Other(node)] && next[Other(node)] == lists[Other(node)] + [node]
  {
    hide Linked;
    TwoLinked(lists, medoid, lists[node], node, data, dim, ef, cap);
  }

  lemma TwoPassed(order: seq<nat>, medoid: nat, data: seq<Vector>, dim: nat, ef: nat, cap: nat)
    requires Uniform(data, dim) && |data| == 2 && ef >= 2 && cap >= 2 && medoid < 2
    requires |order| == 2 && order[0] < 2 && order[1] == Other(order[0])
    ensures Within(order, |data|)
    ensures var passed := AfterPass([[1], [0]], order, medoid, data, dim, ef, cap);
      passed[order[0]] == [order[1], order[1]] && passed[order[1]] == [order[0]]
  {
    hide Optimized;
    var a, b, lists: seq<seq<nat>> := order[0], order[1], [[1], [0]];
    assert order[..1] == [a] && [a][..0] == [];
    var once := Optimized(lists, medoid, a, data, dim, ef, cap);
    assert AfterPass(lists, [], medoid, data, dim, ef, cap) == lists;
    assert AfterPass(lists, [a], medoid, data, dim, ef, cap) == once;
    assert lists[a] == [b] && lists[b] == [a];
    TwoOptimized(lists, medoid, a, data, dim, ef, cap);
    TwoOptimized(once, medoid, b, data, dim, ef, cap);
  }

  /** Whatever two vectors it is given, the construction leaves a node that names the other twice: the one
      the optimisation pass takes first. */
  lemma BuiltRepeats(order: seq<nat>, medoid: nat, data: seq<Vector>, dim: nat, ef: nat, cap: nat)
    requires Uniform(data, dim) && |data| == 2 && ef >= 2 && cap >= 2 && medoid < 2
    requires |order| == 2 && order[0] < 2 && order[1] == Other(order[0])
    ensures Within(order, |data|)
    ensures Built(order, medoid, data, dim, ef, cap)[order[0]] == [order[1], order[1]]
    ensures Built(order, medoid, data, dim, ef, cap)[order[1]] == [order[0]]
  {
    hide AfterInserts;
    hide AfterPass;
    hide Pruned;
    TwoInserted(data, dim, ef, cap);
    TwoPassed(order, medoid, data, dim, ef, cap);
    InsertsAreClean(2, data, dim, ef, cap);
    PassStaysClean([[1], [0]], order, medoid, data, dim, ef, cap);
    var passed := AfterPass([[1], [0]], order, medoid, data, dim, ef, cap);
    var built := AfterPruning(passed, data, dim, cap);
    assert built[order[0]] == passed[order[0]] && built[order[1]] == passed[order[1]];
  }

  /** So a search of a built graph can miss a vector: of two, a query closer to node 1 gets it twice when
      it visits in batches, and both vectors when it does not. */
  lemma BuiltSearchCounterexample(data: seq<Vector>, dim: nat, ef: nat, cap: nat, estimates: seq<real>,
                                  dists: seq<real>, width: nat, efSearch: nat)
    requires Uniform(data, dim) && |data| == |estimates| == |dists| == 2 && ef >= 2 && cap >= 2
    requires width >= 2 && efSearch >= 2 && dists[1] < dists[0]
    ensures Within([0, 1], |data|)
    ensures var e := PqRanked(Built([0, 1], 0, data, dim, ef, cap), estimates, 2);
      && BatchSearch(0, e, width, dists, efSearch, 2) == [1, 1]
      && Search(0, e, dists, efSearch, 2) == [1, 0]
  {
    hide Built;
    BuiltRepeats([0, 1], 0, data, dim, ef, cap);
    assert Built([0, 1], 0, data, dim, ef, cap) == [[1, 1], [0]];
    RepeatedNeighbourCounterexample(estimates, dists, width, efSearch);
  }

  // ---------------------------------------------------------------------------------------
  // A beam of one
  // ---------------------------------------------------------------------------------------

  lemma {:induction false} ScanWhenFilled(b: Beam, nodes: seq<nat>, dists: seq<real>, ef: nat)
    requires Filled(b, ef) && NotNegative(dists)
    ensures Scan(b, nodes, dists, ef).best == b.best
  {
    if nodes != [] { ScanWhenFilled(b, nodes[..|nodes| - 1], dists, ef); }
  }

  /** Results all at distance zero stay. */
  lemma {:induction false} RunWhenFilled(b: Beam, e: Expansion, dists: seq<real>, ef: nat)
    requires Filled(b, ef) && NotNegative(dists)
    ensures Run(b, e, dists, ef).best == b.best
    decreases Work(b, dists)
  {
    if b.frontier == [] || Settled(b, ef) {
    } else {
      var popped := b.(frontier := b.frontier[1..]);
      ScanWhenFilled(popped, Candidates(e, popped, b.frontier[0].id), dists, ef);
      ExpandWork(b, e, dists, ef);
      RunWhenFilled(Expand(b, e, dists, ef), e, dists, ef);
    }
  }

  /** Seeding a beam of one keeps the first, by distance and id, of what it held and what it is given. */
  lemma {:induction false} SeedKeepsFirst(b: Beam, nodes: seq<nat>, dists: seq<real>, m: nat)
    requires |b.best| == 1 && m < |dists| && AtMost(Entry(dists, m), b.best[0])
    requires forall n :: n in nodes && n < |dists| ==> AtMost(Entry(dists, m), Entry(dists, n))
    ensures |Seed(b, nodes, dists, 1).best| == 1 && AtMost(Entry(dists, m), Seed(b, nodes, dists, 1).best[0])
    ensures b.best[0] == Entry(dists, m) || (m in nodes && m !in b.visited)
        ==> Seed(b, nodes, dists, 1).best == [Entry(dists, m)]
  {
    if nodes != [] {
      var rest, n := nodes[..|nodes| - 1], nodes[|nodes| - 1];
      assert nodes == rest + [n];
      SeedKeepsFirst(b, rest, dists, m);
      SeedFrom(b, rest, dists);
      var c := Seed(b, rest, dists, 1);
      assert c.best == [c.best[0]] && c.best[1..] == [];
      if IsFresh(c, n, dists) {
        assert Insert([], Entry(dists, n)) == [Entry(dists, n)];
      }
    }
  }

  /** Seeding visits nodes of the list only. */
  lemma {:induction false} SeedFrom(b: Beam, nodes: seq<nat>, dists: seq<real>)
    ensures forall n :: n in Seed(b, nodes, dists, 1).visited ==> n in b.visited || n in nodes
  {
    if nodes != [] {
      SeedFrom(b, nodes[..|nodes| - 1], dists);
      assert nodes == nodes[..|nodes| - 1] + [nodes[|nodes| - 1]];
    }
  }

  /** With a beam of one, a node at distance zero that comes before all others is all a search finds. */
  lemma FirstIsFound(lists: seq<seq<nat>>, entry: nat, current: seq<nat>, node: nat, m: nat, dists: seq<real>)
    requires entry < |dists| && m < |dists| && NotNegative(dists) && dists[m] == 0.0
    requires m == entry || m in current
    requires AtMost(Entry(dists, m), Entry(dists, entry))
    requires forall n :: n in current && n < |dists| ==> AtMost(Entry(dists, m), Entry(dists, n))
    ensures Found(lists, entry, current, node, dists, 1) == if m == node then [] else [Entry(dists, m)]
  {
    var start := Seed(Start(entry, dists), current, dists, 1);
    SeedKeepsFirst(Start(entry, dists), current, dists, m);
    assert start.best == [Entry(dists, m)];
    RunWhenFilled(start, AllNeighbours(lists), dists, 1);
    OthersOfOne(Entry(dists, m), node);
  }

  lemma OthersOfOne(x: Scored, node: nat)
    ensures Others([x], node) == if x.id == node then [] else [x]
  {
    assert [x][..0] == [];
    assert Others([x][..0], node) == [];
  }

  /** What linking does when the search finds one node, or none. */
  lemma LinksOne(lists: seq<seq<nat>>, entry: nat, current: seq<nat>, node: nat, m: nat, data: seq<Vector>, dim: nat,
                 cap: nat, i: nat)
    requires Uniform(data, dim) && |lists| == |data| && node < |data| && entry < |data| && cap >= 1 && i < |lists|
    requires m < |data|
    requires Found(lists, entry, current, node, DistancesFrom(node, data, dim), 1)
          == if m == node then [] else [Entry(DistancesFrom(node, data, dim), m)]
    ensures var linked := Linked(lists, entry, current, node, data, dim, 1, cap);
      && (i == node ==> linked[i] == if m == node then [] else [m])
      && (i != node ==> linked[i] == lists[i] + if i == m && |lists[i]| < 2 * cap then [node] else [])
  {
    hide Found;
    hide Linked;
    var chosen := LinkedAt(lists, entry, current, node, data, dim, 1, cap, i);
    assert forall n :: n in chosen ==> n == m && m != node;
    NoRepeatsCount(chosen);
    SubsetSize(SetOf(chosen), if m == node then {} else {m});
    assert m != node ==> chosen[0] == m;
  }

  // ---------------------------------------------------------------------------------------
  // Four vectors that repeat a neighbour with a beam of one
  // ---------------------------------------------------------------------------------------

  /** Two equal vectors, and a third that is nearer to the mean. */
  function FourVectors(): seq<Vector> {
    [[0.0], [0.0], [1.0], [2.0]]
  }

  lemma FourDistances(node: nat)
    requires node < 4
    ensures Uniform(FourVectors(), 1)
    ensures DistancesFrom(node, FourVectors(), 1)
         == if node < 2 then [0.0, 0.0, 1.0, 4.0] else if node == 2 then [1.0, 1.0, 0.0, 1.0] else [4.0, 4.0, 1.0, 0.0]
  {
    var data := FourVectors();
    forall i | 0 <= i < 4 ensures L2(data[node], data[i], 1) == Square(data[node][0] - data[i][0]) {
      assert L2(data[node], data[i], 0) == 0.0;
    }
  }

  lemma FourMedoid()
    ensures Uniform(FourVectors(), 1) && IsMean([0.75], FourVectors(), 1) && IsFirstNearest(2, [0.75], FourVectors(), 1)
  {
    var data := FourVectors();
    assert CoordinateSum(data, 1, 0, 4) == CoordinateSum(data, 1, 0, 2) + 1.0 + 2.0;
    assert CoordinateSum(data, 1, 0, 2) == CoordinateSum(data, 1, 0, 0) + 0.0 + 0.0;
    forall i | 0 <= i < 4 ensures L2([0.75], data[i], 1) == Square(0.75 - data[i][0]) {
      assert L2([0.75], data[i], 0) == 0.0;
    }
  }

  /** What insertion gives the first two nodes: each other. */
  lemma {:induction false} FirstTwoLinked(n: nat, data: seq<Vector>, dim: nat, ef: nat, cap: nat)
    requires Uniform(data, dim) && ef >= 1 && cap >= 1 && 2 <= n <= |data|
    ensures 0 in AfterInserts(n, data, dim, ef, cap)[1] && 1 in AfterInserts(n, data, dim, ef, cap)[0]
  {
    hide Linked;
    hide Found;
    var m := n - 1;
    NextInsert(m, data, dim, ef, cap);
    var lists := AfterInserts(m, data, dim, ef, cap);
    var zero := LinkedAt(lists, 0, [], m, data, dim, ef, cap, 0);
    var one := LinkedAt(lists, 0, [], m, data, dim, ef, cap, 1);
    if n == 2 {
      InsertsAreRooted(1, data, dim, ef, cap);
      FoundAreOlder(lists, 1, data, dim, ef);
      assert zero[0] in zero && one[0] in one;
      assert Within(lists[0], 1) && NoRepeats(lists[0]);
      EmptyRoot(data, dim, ef, cap);
    } else {
      FirstTwoLinked(n - 1, data, dim, ef, cap);
    }
  }

  lemma EmptyRoot(data: seq<Vector>, dim: nat, ef: nat, cap: nat)
    requires Uniform(data, dim) && ef >= 1 && cap >= 1 && 1 <= |data|
    ensures AfterInserts(1, data, dim, ef, cap)[0] == []
  {
    NextInsert(0, data, dim, ef, cap);
  }

  /** The optimisation of the four nodes, the first two in turn first. Each of them finds the other, as the two
      are at distance zero; node 1 named node 0 before node 0 is optimised. */
  lemma TwinsOptimized(lists: seq<seq<nat>>, cap: nat)
    requires |lists| == 4 && Clean(lists) && 0 in lists[1] && 1 in lists[0] && cap >= 1
    ensures Uniform(FourVectors(), 1)
    ensures var once := Optimized(lists, 2, 1, FourVectors(), 1, 1, cap);
      Clean(once) && Optimized(once, 2, 0, FourVectors(), 1, 1, cap)[1] == [0, 0]
  {
    hide Found;
    hide Linked;
    var data := FourVectors();
    FourDistances(1);
    FourDistances(0);
    var dists := [0.0, 0.0, 1.0, 4.0];
    assert CleanList(lists[1], 1, 4);
    CurrentAfter(lists[1], 1, 0, dists);
    FirstIsFound(lists, 2, lists[1], 1, 0, dists);
    var once := Optimized(lists, 2, 1, data, 1, 1, cap);
    LinkedStaysClean(lists, 2, lists[1], 1, data, 1, 1, cap);
    LinksOne(lists, 2, lists[1], 1, 0, data, 1, cap, 1);
    LinksOne(lists, 2, lists[1], 1, 0, data, 1, cap, 0);
    assert once[1] == [0] && 1 in once[0];
    assert CleanList(once[0], 0, 4);
    CurrentAfter(once[0], 0, 1, dists);
    FirstIsFound(once, 2, once[0], 0, 1, dists);
    LinksOne(once, 2, once[0], 0, 1, data, 1, cap, 1);
    assert [0] + [0] == [0, 0];
  }

  /** Among the neighbours of one of the twins, the other comes first. */
  lemma CurrentAfter(current: seq<nat>, node: nat, m: nat, dists: seq<real>)
    requires CleanList(current, node, 4) && node < 2 && m == 1 - node && dists == [0.0, 0.0, 1.0, 4.0]
    ensures forall n :: n in current && n < |dists| ==> AtMost(Entry(dists, m), Entry(dists, n))
  {
    forall n | n in current ensures AtMost(Entry(dists, m), Entry(dists, n)) {
      var i :| 0 <= i < |current| && current[i] == n;
      assert n < 4 && n != node;
    }
  }

  /** With a beam of one, what a search finds is no farther than its entry. */
  lemma FoundNoFarther(lists: seq<seq<nat>>, entry: nat, current: seq<nat>, node: nat, dists: seq<real>)
    requires entry < |dists|
    ensures forall x :: x in Found(lists, entry, current, node, dists, 1) ==>
      x.id < |dists| && x == Entry(dists, x.id) && x.dist <= dists[entry]
  {
    var e, start := AllNeighbours(lists), Seed(Start(entry, dists), current, dists, 1);
    StartSound(entry, dists, 1);
    SeedSound(Start(entry, dists), current, dists, 1);
    RunSound(start, e, dists, 1);
    RunStaysInside(start, e, dists, 1, AllNodes(|dists|));
    var end := Run(start, e, dists, 1);
    OthersOf(end.best, node);
    assert NoBetter(end, entry, dists, 1);
    assert |end.best| == 1;
  }

  /** The optimisation of the other two nodes leaves the list of node 1 alone. */
  lemma OthersOptimized(lists: seq<seq<nat>>, node: nat, cap: nat)
    requires |lists| == 4 && Clean(lists) && 2 <= node < 4 && cap >= 1
    ensures Uniform(FourVectors(), 1)
    ensures var next := Optimized(lists, 2, node, FourVectors(), 1, 1, cap);
      Clean(next) && next[1] == lists[1]
  {
    hide Found;
    hide Linked;
    var data := FourVectors();
    FourDistances(node);
    LinkedStaysClean(lists, 2, lists[node], node, data, 1, 1, cap);
    if node == 2 {
      FirstIsFound(lists, 2, lists[2], 2, 2, DistancesFrom(2, data, 1));
      LinksOne(lists, 2, lists[2], 2, 2, data, 1, cap, 1);
    } else {
      var dists := DistancesFrom(3, data, 1);
      FoundNoFarther(lists, 2, lists[3], 3, dists);
      var chosen := LinkedAt(lists, 2, lists[3], 3, data, 1, 1, cap, 1);
      var found := Found(lists, 2, lists[3], 3, dists, 1);
      forall i | 0 <= i < |found| ensures Ids(found)[i] != 1 {
        assert found[i] in found;
      }
      assert 1 !in Ids(found);
    }
  }

  lemma PassNext(lists: seq<seq<nat>>, order: seq<nat>, node: nat, cap: nat)
    requires |lists| == 4 && Within(order, 4) && node < 4 && Uniform(FourVectors(), 1)
    ensures Within(order + [node], 4)
    ensures AfterPass(lists, order + [node], 2, FourVectors(), 1, 1, cap)
         == Optimized(AfterPass(lists, order, 2, FourVectors(), 1, 1, cap), 2, node, FourVectors(), 1, 1, cap)
  {
    hide Optimized;
    assert (order + [node])[..|order|] == order;
  }

  lemma FourPassed(lists: seq<seq<nat>>, cap: nat)
    requires |lists| == 4 && Clean(lists) && 0 in lists[1] && 1 in lists[0] && cap >= 1
    ensures Uniform(FourVectors(), 1)
    ensures AfterPass(lists, [1, 0, 2, 3], 2, FourVectors(), 1, 1, cap)[1] == [0, 0]
  {
    hide Optimized;
    hide Clean;
    TwinsOptimized(lists, cap);
    PassNext(lists, [], 1, cap);
    PassNext(lists, [1], 0, cap);
    PassNext(lists, [1, 0], 2, cap);
    PassNext(lists, [1, 0, 2], 3, cap);
    assert [] + [1] == [1] && [1] + [0] == [1, 0] && [1, 0] + [2] == [1, 0, 2] && [1, 0, 2] + [3] == [1, 0, 2, 3];
    var twins := AfterPass(lists, [1, 0], 2, FourVectors(), 1, 1, cap);
    PassStaysClean(lists, [1, 0], 2, FourVectors(), 1, 1, cap);
    OthersOptimized(twins, 2, cap);
    OthersOptimized(AfterPass(lists, [1, 0, 2], 2, FourVectors(), 1, 1, cap), 3, cap);
  }

  /** A build with a beam of one that repeats a neighbour. */
  lemma BuiltRepeatsWithBeamOfOne(cap: nat)
    requires cap >= 2
    ensures Uniform(FourVectors(), 1) && Within([1, 0, 2, 3], 4)
    ensures Built([1, 0, 2, 3], 2, FourVectors(), 1, 1, cap)[1] == [0, 0]
  {
    hide AfterInserts;
    hide AfterPass;
    hide Pruned;
    var data, order := FourVectors(), [1, 0, 2, 3];
    FourMedoid();
    var inserted := AfterInserts(4, data, 1, 1, cap);
    InsertsAreClean(4, data, 1, 1, cap);
    FirstTwoLinked(4, data, 1, 1, cap);
    FourPassed(inserted, cap);
    PassStaysClean(inserted, order, 2, data, 1, 1, cap);
    var built := AfterPruning(AfterPass(inserted, order, 2, data, 1, 1, cap), data, 1, cap);
    assert built[1] == [0, 0];
  }

  // ---------------------------------------------------------------------------------------
  // Whole builds
  // ---------------------------------------------------------------------------------------

  /** What a build starts from: vectors of one dimension, their mean, the first vector nearest to it, and
      a shuffle of the nodes. */
  ghost predicate IsBuildInput(data: seq<Vector>, dim: nat, centroid: Vector, medoid: nat, order: seq<nat>) {
    && Uniform(data, dim) && data != [] && IsMean(centroid, data, dim) && IsFirstNearest(medoid, centroid, data, dim)
    && IsShuffle(order, |data|)
  }

  /** No graph such a builder builds names a node twice in a list. */
  ghost predicate BuildsWithoutRepeats(ef: nat, cap: nat)
    requires ef >= 1
  {
    forall data: seq<Vector>, dim: nat, centroid: Vector, medoid: nat, order: seq<nat> ::
      IsBuildInput(data, dim, centroid, medoid, order) ==> ListsDistinct(Built(order, medoid, data, dim, ef, cap))
  }

  /** Of no graph such a builder builds does the beam width of a search matter. */
  ghost predicate BuildsForAnyBeam(ef: nat, cap: nat)
    requires ef >= 1
  {
    forall data: seq<Vector>, dim: nat, centroid: Vector, medoid: nat, order: seq<nat>, width: nat ::
      IsBuildInput(data, dim, centroid, medoid, order) && width >= 1 ==>
        SameAnswers(Built(order, medoid, data, dim, ef, cap), width)
  }

  lemma TwoMedoid()
    ensures IsBuildInput([[0.0], [1.0]], 1, [0.5], 0, [0, 1])
  {
    var data := [[0.0], [1.0]];
    assert CoordinateSum(data, 1, 0, 0) == 0.0;
    assert CoordinateSum(data, 1, 0, 1) == 0.0;
    forall i | 0 <= i < 2 ensures L2([0.5], data[i], 1) == Square(0.5 - data[i][0]) {
      assert L2([0.5], data[i], 0) == 0.0;
    }
  }

  /** With room for two neighbours some build repeats one. */
  lemma SomeBuildRepeats(ef: nat, cap: nat)
    returns (data: seq<Vector>, dim: nat, centroid: Vector, medoid: nat, order: seq<nat>)
    requires ef >= 1 && cap >= 2
    ensures IsBuildInput(data, dim, centroid, medoid, order)
    ensures !ListsDistinct(Built(order, medoid, data, dim, ef, cap))
  {
    hide Built;
    if ef == 1 {
      data, dim, centroid, medoid, order := FourVectors(), 1, [0.75], 2, [1, 0, 2, 3];
      FourMedoid();
      BuiltRepeatsWithBeamOfOne(cap);
      var lists := Built(order, medoid, data, dim, ef, cap);
      assert lists[1][0] == lists[1][1] == 0 && !NoneTwice(lists[1], {1}, 4);
    } else {
      data, dim, centroid, medoid, order := [[0.0], [1.0]], 1, [0.5], 0, [0, 1];
      TwoMedoid();
      BuiltRepeats(order, medoid, data, dim, ef, cap);
      var lists := Built(order, medoid, data, dim, ef, cap);
      assert lists[0][0] == lists[0][1] == 1 && !NoneTwice(lists[0], {0}, 2);
    }
  }

  lemma ShortListsDistinct(lists: seq<seq<nat>>)
    requires forall i :: 0 <= i < |lists| ==> |lists[i]| <= 1
    ensures ListsDistinct(lists)
  {
  }

  /** For which builders built graphs never repeat a neighbour: exactly those of maximum degree 1. */
  lemma RepeatFreeExactly(ef: nat, cap: nat)
    requires ef >= 1 && cap >= 1
    ensures BuildsWithoutRepeats(ef, cap) <==> cap == 1
  {
    hide Built;
    if cap == 1 {
      forall data: seq<Vector>, dim: nat, centroid: Vector, medoid: nat, order: seq<nat>
        | IsBuildInput(data, dim, centroid, medoid, order)
        ensures ListsDistinct(Built(order, medoid, data, dim, ef, cap))
      {
        BuiltFits(order, medoid, data, dim, ef, cap);
        ShortListsDistinct(Built(order, medoid, data, dim, ef, cap));
      }
    } else {
      var data, dim, centroid, medoid, order := SomeBuildRepeats(ef, cap);
    }
  }

  /** For which builders the beam width of a search never matters: the same. */
  lemma BeamWidthNeverMattersExactly(ef: nat, cap: nat)
    requires ef >= 1 && cap >= 1
    ensures BuildsForAnyBeam(ef, cap) <==> cap == 1
  {
    hide Built;
    hide ListsDistinct;
    hide SameAnswers;
    if cap == 1 {
      RepeatFreeExactly(ef, cap);
      forall data: seq<Vector>, dim: nat, centroid: Vector, medoid: nat, order: seq<nat>, width: nat
        | IsBuildInput(data, dim, centroid, medoid, order) && width >= 1
        ensures SameAnswers(Built(order, medoid, data, dim, ef, cap), width)
      {
        BatchingExactly(Built(order, medoid, data, dim, ef, cap), width);
      }
    } else {
      var data, dim, centroid, medoid, order := SomeBuildRepeats(ef, cap);
      BatchingExactly(Built(order, medoid, data, dim, ef, cap), 2);
      assert !SameAnswers(Built(order, medoid, data, dim, ef, cap), 2);
    }
  }
}
