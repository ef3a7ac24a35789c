/** Construction of the benchmark graph in three phases. */
module NswBuilders {
  import opened Sequences
  import opened Vectors
  import opened Ranking
  import opened BestFirst
  import opened VisitedBitmaps
  import opened FlatGraphs
  import opened GraphSearch
  import opened Selections

  /** A list without the entries of one node. */
  function Others(s: seq<Scored>, node: nat): seq<Scored> {
    if s == [] then []
    else
      var last := s[|s| - 1];
      Others(s[..|s| - 1], node) + if last.id != node then [last] else []
  }

  lemma {:induction false} OthersOf(s: seq<Scored>, node: nat)
    ensures forall x :: x in Others(s, node) <==> x in s && x.id != node
  {
    if s != [] {
      OthersOf(s[..|s| - 1], node);
      assert s == s[..|s| - 1] + [s[|s| - 1]];
    }
  }

  lemma {:induction false} OthersAscend(s: seq<Scored>, node: nat)
    requires StrictlyAscending(s)
    ensures StrictlyAscending(Others(s, node))
  {
    if s != [] {
      var rest, last := s[..|s| - 1], s[|s| - 1];
      OthersAscend(rest, node);
      OthersOf(rest, node);
      var others := Others(rest, node);
      forall i | 0 <= i < |others| ensures Before(others[i], last) {
        assert others[i] in rest;
      }
    }
  }

  /** The candidates a search for a node's neighbours ends with, from a beam that starts at the
      entry point and the node's current neighbours. */
  function Found(lists: seq<seq<nat>>, entry: nat, current: seq<nat>, node: nat, dists: seq<real>, ef: nat): seq<Scored>
    requires ef >= 1 && entry < |dists|
  {
    Others(Run(Seed(Start(entry, dists), current, dists, ef), AllNeighbours(lists), dists, ef).best, node)
  }

  function DistancesFrom(node: nat, data: seq<Vector>, dim: nat): (d: seq<real>)
    requires Uniform(data, dim) && node < |data|
    ensures |d| == |data| && Covers(data, data[node])
    ensures forall i :: 0 <= i < |d| ==> d[i] == L2(data[node], data[i], dim)
  {
    Distances(data[node], data)
  }

  /** Each chosen neighbour gets the node as its last neighbour, if it has room. */
  function AddBack(lists: seq<seq<nat>>, chosen: seq<nat>, node: nat, room: nat): (r: seq<seq<nat>>)
    requires forall i :: 0 <= i < |chosen| ==> chosen[i] < |lists|
    ensures |r| == |lists|
  {
    if chosen == [] then lists
    else
      var before, n := AddBack(lists, chosen[..|chosen| - 1], node, room), chosen[|chosen| - 1];
      before[n := before[n] + if |before[n]| < room then [node] else []]
  }

  function Connect(lists: seq<seq<nat>>, node: nat, chosen: seq<nat>, room: nat): (r: seq<seq<nat>>)
    requires node < |lists| && forall i :: 0 <= i < |chosen| ==> chosen[i] < |lists|
    ensures |r| == |lists|
  {
    AddBack(lists[node := Cut(chosen, room)], chosen, node, room)
  }

  lemma FoundAreCandidates(lists: seq<seq<nat>>, entry: nat, current: seq<nat>, node: nat, data: seq<Vector>,
                           dim: nat, ef: nat)
    requires Uniform(data, dim) && node < |data| && ef >= 1 && entry < |data|
    ensures var found := Found(lists, entry, current, node, DistancesFrom(node, data, dim), ef);
      && AreCandidates(found, data) && StrictlyAscending(found)
      && forall x :: x in found ==> x.id != node
  {
    var dists := DistancesFrom(node, data, dim);
    var start := Seed(Start(entry, dists), current, dists, ef);
    StartSound(entry, dists, ef);
    SeedSound(Start(entry, dists), current, dists, ef);
    RunSound(start, AllNeighbours(lists), dists, ef);
    var best, found := Run(start, AllNeighbours(lists), dists, ef).best, Found(lists, entry, current, node, dists, ef);
    OthersOf(best, node);
    OthersAscend(best, node);
    forall i | 0 <= i < |found| ensures found[i].id < |data| && found[i].dist >= 0.0 {
      assert found[i] in best;
    }
  }

  /** The neighbours one search and selection gives a node. */
  function Chosen(lists: seq<seq<nat>>, entry: nat, current: seq<nat>, node: nat, data: seq<Vector>, dim: nat,
                  ef: nat, cap: nat): (chosen: seq<nat>)
    requires Uniform(data, dim) && node < |data| && ef >= 1 && entry < |data|
    ensures |chosen| <= cap && NoRepeats(chosen) && forall i :: 0 <= i < |chosen| ==> chosen[i] < |data|
  {
    FoundAreCandidates(lists, entry, current, node, data, dim, ef);
    var found := Found(lists, entry, current, node, DistancesFrom(node, data, dim), ef);
    SelectCounts(found, cap, data, dim);
    assert forall i :: 0 <= i < |Select(found, cap, data, dim)| ==>
      Select(found, cap, data, dim)[i] in Select(found, cap, data, dim);
    Select(found, cap, data, dim)
  }

  /** What linking a node does to the lists. */
  function Linked(lists: seq<seq<nat>>, entry: nat, current: seq<nat>, node: nat, data: seq<Vector>, dim: nat,
                  ef: nat, cap: nat): (r: seq<seq<nat>>)
    requires Uniform(data, dim) && |lists| == |data| && node < |data| && ef >= 1 && entry < |data|
    ensures |r| == |lists|
  {
    Connect(lists, node, Chosen(lists, entry, current, node, data, dim, ef, cap), 2 * cap)
  }

  function Inserted(lists: seq<seq<nat>>, entry: nat, node: nat, data: seq<Vector>, dim: nat, ef: nat,
                    cap: nat): (r: seq<seq<nat>>)
    requires Uniform(data, dim) && |lists| == |data| && node < |data| && ef >= 1 && entry < |data|
    ensures |r| == |lists|
  {
    if node == 0 then lists else Linked(lists, entry, [], node, data, dim, ef, cap)
  }

  function Optimized(lists: seq<seq<nat>>, entry: nat, node: nat, data: seq<Vector>, dim: nat, ef: nat,
                     cap: nat): (r: seq<seq<nat>>)
    requires Uniform(data, dim) && |lists| == |data| && node < |data| && ef >= 1 && entry < |data|
    ensures |r| == |lists|
  {
    Linked(lists, entry, lists[node], node, data, dim, ef, cap)
  }

  /** A node's neighbours other than itself, with their distances, in the order of the list. */
  function Neighbours(list: seq<nat>, node: nat, data: seq<Vector>, dim: nat): (r: seq<Scored>)
    requires Uniform(data, dim) && node < |data| && Within(list, |data|)
    ensures AreCandidates(r, data)
  {
    if list == [] then []
    else
      var n := list[|list| - 1];
      Neighbours(list[..|list| - 1], node, data, dim)
      + if n == node then [] else [Scored(L2(data[node], data[n], dim), n)]
  }

  lemma SortKeepsCandidates(s: seq<Scored>, data: seq<Vector>)
    requires AreCandidates(s, data)
    ensures AreCandidates(Sort(s), data)
    ensures SetOf(Ids(Sort(s))) == SetOf(Ids(s))
  {
    SortContents(s);
    var t := Sort(s);
    forall i | 0 <= i < |t| ensures t[i].id < |data| && t[i].dist >= 0.0 && t[i].id in SetOf(Ids(s)) {
      assert t[i] in t;
      var j :| 0 <= j < |s| && s[j] == t[i];
      assert Ids(s)[j] == t[i].id;
    }
    forall n | n in Ids(s) ensures n in Ids(t) {
      var j :| 0 <= j < |s| && Ids(s)[j] == n;
      assert s[j] in t;
      var i :| 0 <= i < |t| && t[i] == s[j];
      assert Ids(t)[i] == n;
    }
  }

  function Pruned(list: seq<nat>, node: nat, data: seq<Vector>, dim: nat, cap: nat): (r: seq<nat>)
    requires Uniform(data, dim) && node < |data| && Within(list, |data|)
    ensures |r| <= cap
  {
    var candidates := Neighbours(list, node, data, dim);
    SortKeepsCandidates(candidates, data);
    Select(Sort(candidates), cap, data, dim)
  }

  lemma {:induction false} NeighboursOf(list: seq<nat>, node: nat, data: seq<Vector>, dim: nat)
    requires Uniform(data, dim) && node < |data| && Within(list, |data|)
    ensures SetOf(Ids(Neighbours(list, node, data, dim))) == SetOf(list) - {node}
  {
    if list != [] {
      var rest, n := list[..|list| - 1], list[|list| - 1];
      NeighboursOf(rest, node, data, dim);
      assert list == rest + [n];
      assert SetOf(list) == SetOf(rest) + {n};
      var before, all := Neighbours(rest, node, data, dim), Neighbours(list, node, data, dim);
      if n != node {
        assert Ids(all) == Ids(before) + [n];
        assert SetOf(Ids(all)) == SetOf(Ids(before)) + {n};
      } else {
        assert all == before;
      }
    }
  }

  /** A pruned list has no repeats, holds only neighbours other than the node itself, and as many
      of them as the maximum degree allows. */
  lemma PrunedCounts(list: seq<nat>, node: nat, data: seq<Vector>, dim: nat, cap: nat)
    requires Uniform(data, dim) && node < |data| && Within(list, |data|)
    ensures var pruned, others := Pruned(list, node, data, dim, cap), SetOf(list) - {node};
      && NoRepeats(pruned) && (forall n :: n in pruned ==> n in others)
      && |pruned| == if cap < |others| then cap else |others|
  {
    var candidates := Neighbours(list, node, data, dim);
    SortKeepsCandidates(candidates, data);
    NeighboursOf(list, node, data, dim);
    SelectCounts(Sort(candidates), cap, data, dim);
  }

  // ---------------------------------------------------------------------------------------
  // Invariants of construction
  // ---------------------------------------------------------------------------------------

  /** Every list stays inside the graph and off its own node. */
  predicate Clean(lists: seq<seq<nat>>) {
    forall i :: 0 <= i < |lists| ==> CleanList(lists[i], i, |lists|)
  }

  predicate CleanList(list: seq<nat>, node: nat, size: nat) {
    forall j :: 0 <= j < |list| ==> list[j] < size && list[j] != node
  }

  /** What the back edges do to one list. */
  lemma {:induction false} AddBackAt(lists: seq<seq<nat>>, chosen: seq<nat>, node: nat, room: nat, i: nat)
    requires forall j :: 0 <= j < |chosen| ==> chosen[j] < |lists|
    requires i < |lists| && NoRepeats(chosen)
    ensures AddBack(lists, chosen, node, room)[i]
         == if i in chosen && |lists[i]| < room then lists[i] + [node] else lists[i]
  {
    if chosen != [] {
      AddBackAt(lists, chosen[..|chosen| - 1], node, room, i);
      assert chosen == chosen[..|chosen| - 1] + [chosen[|chosen| - 1]];
    }
  }

  lemma LinkedAt(lists: seq<seq<nat>>, entry: nat, current: seq<nat>, node: nat, data: seq<Vector>, dim: nat,
                 ef: nat, cap: nat, i: nat)
    returns (chosen: seq<nat>)
    requires Uniform(data, dim) && |lists| == |data| && node < |data| && ef >= 1 && entry < |data| && i < |lists|
    ensures |chosen| <= cap && NoRepeats(chosen)
    ensures forall n :: n in chosen ==> n < |lists| && n != node
    ensures var found := Found(lists, entry, current, node, DistancesFrom(node, data, dim), ef);
      && (forall n :: n in chosen ==> n in Ids(found))
      && (found != [] && cap >= 1 ==> chosen != [] && chosen[0] == found[0].id)
    ensures Linked(lists, entry, current, node, data, dim, ef, cap)[i]
         == if i == node then chosen
            else if i in chosen && |lists[i]| < 2 * cap then lists[i] + [node] else lists[i]
  {
    var found := Found(lists, entry, current, node, DistancesFrom(node, data, dim), ef);
    FoundAreCandidates(lists, entry, current, node, data, dim, ef);
    chosen := Chosen(lists, entry, current, node, data, dim, ef, cap);
    SelectCounts(found, cap, data, dim);
    forall n | n in chosen ensures n < |lists| && n != node {
      var j :| 0 <= j < |found| && Ids(found)[j] == n;
      assert found[j] in found;
    }
    if found != [] && cap >= 1 { ClosestFirst(found, cap, data, dim); }
    assert forall j :: 0 <= j < |chosen| ==> chosen[j] in chosen;
    AddBackAt(lists[node := Cut(chosen, 2 * cap)], chosen, node, 2 * cap, i);
  }

  lemma LinkedStaysClean(lists: seq<seq<nat>>, entry: nat, current: seq<nat>, node: nat, data: seq<Vector>, dim: nat,
                         ef: nat, cap: nat)
    requires Uniform(data, dim) && |lists| == |data| && node < |data| && ef >= 1 && entry < |data| && Clean(lists)
    ensures Clean(Linked(lists, entry, current, node, data, dim, ef, cap))
  {
    var linked := Linked(lists, entry, current, node, data, dim, ef, cap);
    forall i | 0 <= i < |linked| ensures CleanList(linked[i], i, |linked|) {
      var chosen := LinkedAt(lists, entry, current, node, data, dim, ef, cap, i);
      assert CleanList(lists[i], i, |lists|);
      assert forall j :: 0 <= j < |chosen| ==> chosen[j] in chosen;
    }
  }

  /** After the first nodes are in: lists hold only nodes that are in, without repeats, and the
      first neighbour of every node but 0 is an older one. */
  predicate Rooted(lists: seq<seq<nat>>, inserted: nat) {
    forall i :: 0 <= i < |lists| ==>
      && Within(lists[i], inserted) && NoRepeats(lists[i])
      && (i >= inserted ==> lists[i] == [])
      && (1 <= i < inserted ==> lists[i] != [] && lists[i][0] < i)
  }

  /** A search started at node 0 only ever sees nodes that are in. */
  lemma FoundAreOlder(lists: seq<seq<nat>>, node: nat, data: seq<Vector>, dim: nat, ef: nat)
    requires Uniform(data, dim) && |lists| == |data| && 1 <= node < |data| && ef >= 1 && Rooted(lists, node)
    ensures var found := Found(lists, 0, [], node, DistancesFrom(node, data, dim), ef);
      found != [] && forall n :: n in Ids(found) ==> n < node
  {
    var dists, region := DistancesFrom(node, data, dim), AllNodes(node);
    var start := Start(0, dists);
    assert Seed(start, [], dists, ef) == start;
    StartSound(0, dists, ef);
    forall u, v | u in region && v in Adjacent(lists, u) && v < |dists| ensures v in region {
      assert Within(lists[u], node);
    }
    RunSound(start, AllNeighbours(lists), dists, ef);
    RunStaysInside(start, AllNeighbours(lists), dists, ef, region);
    var end := Run(start, AllNeighbours(lists), dists, ef);
    assert 0 in end.visited;
    OthersOf(end.best, node);
    forall x | x in end.best ensures x.id < node { assert x.id in end.visited; }
    var found := Others(end.best, node);
    forall n | n in Ids(found) ensures n < node {
      var j :| 0 <= j < |found| && Ids(found)[j] == n;
      assert found[j] in end.best;
    }
  }

  lemma InsertedStaysRooted(lists: seq<seq<nat>>, node: nat, data: seq<Vector>, dim: nat, ef: nat, cap: nat)
    requires Uniform(data, dim) && |lists| == |data| && node < |data| && ef >= 1 && cap >= 1 && Rooted(lists, node)
    ensures Rooted(Inserted(lists, 0, node, data, dim, ef, cap), node + 1)
  {
    hide Linked;
    hide Found;
    if node > 0 {
      FoundAreOlder(lists, node, data, dim, ef);
      var linked := Linked(lists, 0, [], node, data, dim, ef, cap);
      forall i | 0 <= i < |linked|
        ensures Within(linked[i], node + 1) && NoRepeats(linked[i])
        ensures i >= node + 1 ==> linked[i] == []
        ensures 1 <= i < node + 1 ==> linked[i] != [] && linked[i][0] < i
      {
        var chosen := LinkedAt(lists, 0, [], node, data, dim, ef, cap, i);
        assert forall j :: 0 <= j < |chosen| ==> chosen[j] in chosen;
      }
    } else {
      forall i | 0 <= i < |lists| ensures lists[i] == [] {
        assert Within(lists[i], 0);
        assert forall j :: 0 <= j < |lists[i]| ==> lists[i][j] < 0;
      }
    }
  }

  // ---------------------------------------------------------------------------------------
  // The phases
  // ---------------------------------------------------------------------------------------

  function NoLists(size: nat): (lists: seq<seq<nat>>)
    ensures |lists| == size && forall i :: 0 <= i < size ==> lists[i] == []
  {
    seq(size, _ => [])
  }

  function AfterInserts(n: nat, data: seq<Vector>, dim: nat, ef: nat, cap: nat): (lists: seq<seq<nat>>)
    requires Uniform(data, dim) && ef >= 1 && n <= |data|
    ensures |lists| == |data|
  {
    if n == 0 then NoLists(|data|)
    else Inserted(AfterInserts(n - 1, data, dim, ef, cap), 0, n - 1, data, dim, ef, cap)
  }

  function AfterPass(lists: seq<seq<nat>>, order: seq<nat>, entry: nat, data: seq<Vector>, dim: nat, ef: nat,
                     cap: nat): (r: seq<seq<nat>>)
    requires Uniform(data, dim) && |lists| == |data| && ef >= 1 && entry < |data| && Within(order, |data|)
    ensures |r| == |lists|
  {
    if order == [] then lists
    else Optimized(AfterPass(lists, order[..|order| - 1], entry, data, dim, ef, cap), entry,
                   order[|order| - 1], data, dim, ef, cap)
  }

  /** A list that is too long is pruned. */
  function Shortened(list: seq<nat>, node: nat, data: seq<Vector>, dim: nat, cap: nat): (r: seq<nat>)
    requires Uniform(data, dim) && node < |data| && Within(list, |data|)
    ensures |r| <= cap
  {
    if |list| > cap then Pruned(list, node, data, dim, cap) else list
  }

  function AfterPruning(lists: seq<seq<nat>>, data: seq<Vector>, dim: nat, cap: nat): (r: seq<seq<nat>>)
    requires Uniform(data, dim) && |lists| == |data| && Clean(lists)
    ensures |r| == |lists|
    ensures forall i :: 0 <= i < |r| ==>
      CleanList(lists[i], i, |lists|) && r[i] == Shortened(lists[i], i, data, dim, cap)
  {
    assert forall i :: 0 <= i < |lists| ==> CleanList(lists[i], i, |lists|);
    seq(|lists|, i requires 0 <= i < |lists| => Shortened(lists[i], i, data, dim, cap))
  }

  lemma InsertedStaysClean(lists: seq<seq<nat>>, node: nat, data: seq<Vector>, dim: nat, ef: nat, cap: nat)
    requires Uniform(data, dim) && |lists| == |data| && node < |data| && ef >= 1 && Clean(lists)
    ensures Clean(Inserted(lists, 0, node, data, dim, ef, cap))
  {
    if node > 0 { LinkedStaysClean(lists, 0, [], node, data, dim, ef, cap); }
  }

  /** The first phase keeps every node rooted. */
  lemma {:induction false} InsertsAreRooted(n: nat, data: seq<Vector>, dim: nat, ef: nat, cap: nat)
    requires Uniform(data, dim) && ef >= 1 && cap >= 1 && n <= |data|
    ensures Rooted(AfterInserts(n, data, dim, ef, cap), n)
  {
    hide Inserted;
    if n > 0 {
      InsertsAreRooted(n - 1, data, dim, ef, cap);
      NextInsert(n - 1, data, dim, ef, cap);
      InsertedStaysRooted(AfterInserts(n - 1, data, dim, ef, cap), n - 1, data, dim, ef, cap);
    }
  }

  lemma {:induction false} InsertsAreClean(n: nat, data: seq<Vector>, dim: nat, ef: nat, cap: nat)
    requires Uniform(data, dim) && ef >= 1 && n <= |data|
    ensures Clean(AfterInserts(n, data, dim, ef, cap))
  {
    hide Inserted;
    if n > 0 {
      InsertsAreClean(n - 1, data, dim, ef, cap);
      InsertedStaysClean(AfterInserts(n - 1, data, dim, ef, cap), n - 1, data, dim, ef, cap);
    }
  }

  lemma NextInsert(n: nat, data: seq<Vector>, dim: nat, ef: nat, cap: nat)
    requires Uniform(data, dim) && ef >= 1 && n < |data|
    ensures AfterInserts(n + 1, data, dim, ef, cap)
         == Inserted(AfterInserts(n, data, dim, ef, cap), 0, n, data, dim, ef, cap)
  {
  }

  ghost predicate Descends(path: seq<nat>, lists: seq<seq<nat>>) {
    forall i :: 0 <= i < |path| - 1 ==> path[i] < |lists| && path[i + 1] in lists[path[i]] && path[i + 1] < path[i]
  }

  /** In a rooted graph every inserted node has a path of ever older nodes to node 0. */
  lemma {:induction false} PathToRoot(lists: seq<seq<nat>>, inserted: nat, node: nat) returns (path: seq<nat>)
    requires Rooted(lists, inserted) && node < inserted <= |lists|
    ensures path != [] && path[0] == node && path[|path| - 1] == 0 && Descends(path, lists)
    decreases node
  {
    path := [node];
    if node > 0 {
      var next := lists[node][0];
      var rest := PathToRoot(lists, inserted, next);
      path := path + rest;
      assert path[1..] == rest;
      forall i | 0 <= i < |path| - 1
        ensures path[i] < |lists| && path[i + 1] in lists[path[i]] && path[i + 1] < path[i]
      {
        if i > 0 { assert path[i] == rest[i - 1] && path[i + 1] == rest[i]; }
      }
    }
  }

  /** After the first phase, every node has a strictly descending path to node 0. */
  lemma InsertsReachRoot(data: seq<Vector>, dim: nat, ef: nat, cap: nat, node: nat) returns (path: seq<nat>)
    requires Uniform(data, dim) && ef >= 1 && cap >= 1 && node < |data|
    ensures path != [] && path[0] == node && path[|path| - 1] == 0
    ensures Descends(path, AfterInserts(|data|, data, dim, ef, cap))
  {
    InsertsAreRooted(|data|, data, dim, ef, cap);
    path := PathToRoot(AfterInserts(|data|, data, dim, ef, cap), |data|, node);
  }

  lemma {:induction false} PassStaysClean(lists: seq<seq<nat>>, order: seq<nat>, entry: nat, data: seq<Vector>,
                                          dim: nat, ef: nat, cap: nat)
    requires Uniform(data, dim) && |lists| == |data| && ef >= 1 && entry < |data| && Within(order, |data|)
    requires Clean(lists)
    ensures Clean(AfterPass(lists, order, entry, data, dim, ef, cap))
  {
    if order != [] {
      var before := order[..|order| - 1];
      PassStaysClean(lists, before, entry, data, dim, ef, cap);
      var pass := AfterPass(lists, before, entry, data, dim, ef, cap);
      LinkedStaysClean(pass, entry, pass[order[|order| - 1]], order[|order| - 1], data, dim, ef, cap);
    }
  }

  /** Pruning leaves lists that are in the graph, off their own node and short enough, so that
      compaction changes none of them. */
  lemma PruningFits(lists: seq<seq<nat>>, data: seq<Vector>, dim: nat, cap: nat)
    requires Uniform(data, dim) && |lists| == |data| && Clean(lists)
    ensures var pruned := AfterPruning(lists, data, dim, cap);
      && Clean(pruned) && (forall i :: 0 <= i < |pruned| ==> |pruned[i]| <= cap)
      && CutLists(pruned, cap) == pruned
  {
    hide Pruned;
    var pruned := AfterPruning(lists, data, dim, cap);
    forall i | 0 <= i < |pruned| ensures CleanList(pruned[i], i, |pruned|) && Cut(pruned[i], cap) == pruned[i] {
      assert CleanList(lists[i], i, |lists|);
      if |lists[i]| > cap {
        PrunedCounts(lists[i], i, data, dim, cap);
        assert forall j :: 0 <= j < |pruned[i]| ==> pruned[i][j] in pruned[i];
        forall j | 0 <= j < |pruned[i]| ensures pruned[i][j] < |lists| && pruned[i][j] != i {
          assert pruned[i][j] in SetOf(lists[i]);
        }
      }
      assert |pruned[i]| <= cap;
    }
  }

  /** The search width of the optimisation pass. */
  function PassWidth(ef: nat, size: nat): (width: nat)
    requires ef >= 1
    ensures width >= 1
  {
    if size > 100000 then (if 100 < ef * 100000 / size then ef * 100000 / size else 100) else ef
  }

  ghost function Built(order: seq<nat>, medoid: nat, data: seq<Vector>, dim: nat, ef: nat, cap: nat): (r: seq<seq<nat>>)
    requires Uniform(data, dim) && ef >= 1 && medoid < |data| && Within(order, |data|)
    ensures |r| == |data|
  {
    InsertsAreClean(|data|, data, dim, ef, cap);
    var inserted := AfterInserts(|data|, data, dim, ef, cap);
    PassStaysClean(inserted, order, medoid, data, dim, PassWidth(ef, |data|), cap);
    AfterPruning(AfterPass(inserted, order, medoid, data, dim, PassWidth(ef, |data|), cap), data, dim, cap)
  }

  /** After the whole construction every list is in range, off its own node and within the maximum
      degree, whatever the order of the pass. */
  lemma BuiltFits(order: seq<nat>, medoid: nat, data: seq<Vector>, dim: nat, ef: nat, cap: nat)
    requires Uniform(data, dim) && ef >= 1 && medoid < |data| && Within(order, |data|)
    ensures var lists := Built(order, medoid, data, dim, ef, cap);
      Clean(lists) && (forall i :: 0 <= i < |lists| ==> |lists[i]| <= cap) && CutLists(lists, cap) == lists
  {
    InsertsAreClean(|data|, data, dim, ef, cap);
    var inserted := AfterInserts(|data|, data, dim, ef, cap);
    PassStaysClean(inserted, order, medoid, data, dim, PassWidth(ef, |data|), cap);
    PruningFits(AfterPass(inserted, order, medoid, data, dim, PassWidth(ef, |data|), cap), data, dim, cap);
  }

  // ---------------------------------------------------------------------------------------
  // The medoid
  // ---------------------------------------------------------------------------------------

  /** Of all vectors one of the nearest to the centroid, and the first of those. */
  predicate IsFirstNearest(medoid: nat, centroid: Vector, data: seq<Vector>, dim: nat)
    requires Uniform(data, dim) && |centroid| == dim
  {
    && medoid < |data|
    && (forall i :: 0 <= i < |data| ==> L2(centroid, data[medoid], dim) <= L2(centroid, data[i], dim))
    && (forall i :: 0 <= i < medoid ==> L2(centroid, data[medoid], dim) < L2(centroid, data[i], dim))
  }

  method FindMedoid(data: seq<Vector>, dim: nat) returns (medoid: nat, centroid: Vector)
    requires Uniform(data, dim) && data != []
    ensures IsMean(centroid, data, dim) && IsFirstNearest(medoid, centroid, data, dim)
  {
    centroid := Centroid(data, dim);
    medoid := 0;
    var minDist := L2(centroid, data[0], dim);
    for i := 1 to |data|
      invariant medoid < i && minDist == L2(centroid, data[medoid], dim)
      invariant forall j :: 0 <= j < i ==> minDist <= L2(centroid, data[j], dim)
      invariant forall j :: 0 <= j < medoid ==> minDist < L2(centroid, data[j], dim)
    {
      var d := L2(centroid, data[i], dim);
      if d < minDist {
        minDist := d;
        medoid := i;
      }
    }
  }

  // ---------------------------------------------------------------------------------------
  // The builder
  // ---------------------------------------------------------------------------------------

  /** Empties the result heap without one node, and sorts what came out. */
  method DrainOthers(heap: seq<Scored>, node: nat) returns (sorted: seq<Scored>)
    requires StrictlyAscending(heap)
    ensures sorted == Others(heap, node)
  {
    var results, drained := heap, [];
    while results != []
      invariant multiset(drained) + multiset(Others(results, node)) == multiset(Others(heap, node))
      decreases |results|
    {
      var last := |results| - 1;
      if results[last].id != node {
        drained := drained + [results[last]];
      }
      results := results[..last];
    }
    SortContents(drained);
    OthersAscend(heap, node);
    AscendingUnique(Sort(drained), Others(heap, node));
    sorted := Sort(drained);
  }

  class NSWBuilder {
    const maxDegree: nat
    const efConstruction: nat
    const data: seq<Vector>
    const dim: nat
    const visited: VisitedBitmap

    ghost predicate Valid()
      reads visited
    {
      && Uniform(data, dim) && 1 <= maxDegree <= 127 && efConstruction >= 1
      && visited.Valid() && visited.size == |data| <= INVALID_NODE_ID
    }

    /** The graph is large enough for the data, and still has room for back edges. */
    ghost predicate Building(graph: FlatGraphIndex)
      reads graph
    {
      && graph.Valid() && graph.numNodes == |data| && graph.maxDegree == maxDegree
      && graph.storageDegree == 2 * maxDegree && graph.entryPoint < |data|
    }

    constructor (data: seq<Vector>, dim: nat, maxDegree: nat, efConstruction: nat)
      requires Uniform(data, dim) && 1 <= maxDegree <= 127 && efConstruction >= 1 && |data| <= INVALID_NODE_ID
      ensures Valid() && fresh(visited) && fresh(visited.bitmap)
      ensures this.data == data && this.dim == dim && this.maxDegree == maxDegree
      ensures this.efConstruction == efConstruction
    {
      this.data, this.dim, this.maxDegree, this.efConstruction := data, dim, maxDegree, efConstruction;
      visited := new VisitedBitmap(|data|);
    }

    method SeedOne(node: nat, n: nat, ef: nat, candidates0: seq<Scored>, results0: seq<Scored>)
      returns (candidates: seq<Scored>, results: seq<Scored>)
      requires Valid() && node < |data|
      modifies visited.bitmap
      ensures Valid()
      ensures var before, dists := old(BeamOf(candidates0, results0, visited)), DistancesFrom(node, data, dim);
        BeamOf(candidates, results, visited)
        == if IsFresh(before, n, dists) then Push(before, Entry(dists, n), ef) else before
    {
      candidates, results := candidates0, results0;
      var seen := visited.Test(n);
      if n != INVALID_NODE_ID && !seen {
        visited.Set(n);
        var nd := L2(data[node], data[n], dim);
        candidates := Insert(candidates, Scored(nd, n));
        results := PopToSize(Insert(results, Scored(nd, n)), ef);
      }
    }

    /** Pushes a node's current neighbours, unvisited ones only, without comparing them. */
    method SeedFrom(graph: FlatGraphIndex, node: nat, ef: nat, candidates0: seq<Scored>, results0: seq<Scored>)
      returns (candidates: seq<Scored>, results: seq<Scored>)
      requires Valid() && Building(graph) && node < |data|
      modifies visited.bitmap
      ensures Valid()
      ensures BeamOf(candidates, results, visited)
           == Seed(old(BeamOf(candidates0, results0, visited)), graph.Adj()[node], DistancesFrom(node, data, dim), ef)
    {
      candidates, results := candidates0, results0;
      ghost var start := BeamOf(candidates, results, visited);
      ghost var list, dists := graph.Adj()[node], DistancesFrom(node, data, dim);
      var count := graph.GetNumNeighbors(node);
      for i := 0 to count
        invariant Valid() && BeamOf(candidates, results, visited) == Seed(start, list[..i], dists, ef)
      {
        assert list[..i + 1][..i] == list[..i];
        var n := graph.GetNeighbor(node, i);
        candidates, results := SeedOne(node, n, ef, candidates, results);
      }
      assert list[..|list|] == list;
    }

    /** Searches from the entry point, and from the current neighbours when asked to. */
    method Collect(graph: FlatGraphIndex, node: nat, ef: nat, seeded: bool) returns (sorted: seq<Scored>)
      requires Valid() && Building(graph) && node < |data| && ef >= 1
      modifies visited.bitmap
      ensures Valid()
      ensures sorted == Found(graph.Adj(), graph.entryPoint, if seeded then graph.Adj()[node] else [], node,
                              DistancesFrom(node, data, dim), ef)
    {
      visited.Clear();
      ghost var dists := DistancesFrom(node, data, dim);
      var ep := graph.entryPoint;
      var first := Scored(L2(data[node], data[ep], dim), ep);
      visited.Set(ep);
      var candidates, results := [first], [first];
      assert BeamOf(candidates, results, visited) == Start(ep, dists);
      StartSound(ep, dists, ef);
      ghost var current := if seeded then graph.Adj()[node] else [];
      if seeded {
        candidates, results := SeedFrom(graph, node, ef, candidates, results);
      }
      ghost var start := Seed(Start(ep, dists), current, dists, ef);
      assert BeamOf(candidates, results, visited) == start;
      SeedSound(Start(ep, dists), current, dists, ef);
      RunSound(start, AllNeighbours(graph.Adj()), dists, ef);
      results := SearchLoop(data[node], data, graph, ef, candidates, results, visited);
      sorted := DrainOthers(results, node);
    }

    /** Adds the node to each chosen neighbour's list. The storage holds twice the maximum degree, so
        no list ever grows past the size that would have it pruned here. */
    method AddBackEdges(graph: FlatGraphIndex, node: nat, selected: seq<nat>)
      requires Valid() && Building(graph) && Within(selected, |data|)
      modifies graph`neighbors, graph`numNeighbors
      ensures Building(graph)
      ensures graph.Adj() == AddBack(old(graph.Adj()), selected, node, 2 * maxDegree)
    {
      for i := 0 to |selected|
        invariant Building(graph)
        invariant graph.Adj() == AddBack(old(graph.Adj()), selected[..i], node, 2 * maxDegree)
      {
        assert selected[..i + 1][..i] == selected[..i];
        graph.AddNeighbor(selected[i], node);
        var count := graph.GetNumNeighbors(selected[i]);
        if count > maxDegree * 2 {
          assert false;
        }
      }
      assert selected[..|selected|] == selected;
    }

    method Choose(graph: FlatGraphIndex, node: nat, ef: nat, seeded: bool) returns (selected: seq<nat>)
      requires Valid() && Building(graph) && node < |data| && ef >= 1
      modifies visited.bitmap
      ensures Valid()
      ensures selected == Chosen(graph.Adj(), graph.entryPoint, if seeded then graph.Adj()[node] else [],
                                 node, data, dim, ef, maxDegree)
    {
      FoundAreCandidates(graph.Adj(), graph.entryPoint, if seeded then graph.Adj()[node] else [], node, data, dim, ef);
      var sorted := Collect(graph, node, ef, seeded);
      selected := SelectNeighbors(sorted, maxDegree, data, dim);
    }

    method Link(graph: FlatGraphIndex, node: nat, ef: nat, seeded: bool)
      requires Valid() && Building(graph) && node < |data| && ef >= 1
      modifies visited.bitmap, graph`neighbors, graph`numNeighbors
      ensures Valid() && Building(graph)
      ensures graph.Adj() == Linked(old(graph.Adj()), graph.entryPoint, if seeded then old(graph.Adj())[node] else [],
                                    node, data, dim, ef, maxDegree)
    {
      var selected := Choose(graph, node, ef, seeded);
      graph.SetNeighbors(node, selected);
      AddBackEdges(graph, node, selected);
    }

    method InsertNode(q: nat, graph: FlatGraphIndex)
      requires Valid() && Building(graph) && q < |data|
      modifies visited.bitmap, graph`neighbors, graph`numNeighbors
      ensures Valid() && Building(graph)
      ensures graph.Adj() == Inserted(old(graph.Adj()), graph.entryPoint, q, data, dim, efConstruction, maxDegree)
    {
      if q == 0 { return; }
      Link(graph, q, efConstruction, false);
    }

    method OptimizeNeighbors(node: nat, graph: FlatGraphIndex, ef: nat)
      requires Valid() && Building(graph) && node < |data| && ef >= 1
      modifies visited.bitmap, graph`neighbors, graph`numNeighbors
      ensures Valid() && Building(graph)
      ensures graph.Adj() == Optimized(old(graph.Adj()), graph.entryPoint, node, data, dim, ef, maxDegree)
    {
      Link(graph, node, ef, true);
    }

    method Measure(graph: FlatGraphIndex, node: nat) returns (candidates: seq<Scored>)
      requires Valid() && Building(graph) && node < |data| && Within(graph.Adj()[node], |data|)
      ensures candidates == Neighbours(graph.Adj()[node], node, data, dim)
    {
      ghost var list := graph.Adj()[node];
      var num := graph.GetNumNeighbors(node);
      candidates := [];
      for i := 0 to num
        invariant candidates == Neighbours(list[..i], node, data, dim)
      {
        assert list[..i + 1][..i] == list[..i];
        var n := graph.GetNeighbor(node, i);
        if n != node {
          candidates := candidates + [Scored(L2(data[node], data[n], dim), n)];
        }
      }
      assert list[..|list|] == list;
    }

    method PruneNode(node: nat, graph: FlatGraphIndex)
      requires Valid() && Building(graph) && node < |data| && Within(graph.Adj()[node], |data|)
      modifies graph`neighbors, graph`numNeighbors
      ensures Building(graph)
      ensures graph.Adj() == old(graph.Adj())[node := Pruned(old(graph.Adj())[node], node, data, dim, maxDegree)]
    {
      var candidates := Measure(graph, node);
      SortKeepsCandidates(candidates, data);
      var selected := SelectNeighbors(Sort(candidates), maxDegree, data, dim);
      assert Cut(selected, 2 * maxDegree) == selected;
      graph.SetNeighbors(node, selected);
    }

    method InsertNext(i: nat, graph: FlatGraphIndex)
      requires Valid() && Building(graph) && i < |data| && graph.entryPoint == 0
      requires graph.Adj() == AfterInserts(i, data, dim, efConstruction, maxDegree)
      modifies visited.bitmap, graph`neighbors, graph`numNeighbors
      ensures Valid() && Building(graph)
      ensures graph.Adj() == AfterInserts(i + 1, data, dim, efConstruction, maxDegree)
    {
      NextInsert(i, data, dim, efConstruction, maxDegree);
      InsertNode(i, graph);
    }

    method InsertAll(graph: FlatGraphIndex)
      requires Valid() && Building(graph) && graph.entryPoint == 0 && graph.Adj() == NoLists(|data|)
      modifies visited.bitmap, graph`neighbors, graph`numNeighbors
      ensures Valid() && Building(graph)
      ensures graph.Adj() == AfterInserts(|data|, data, dim, efConstruction, maxDegree)
    {
      hide Inserted;
      for i := 0 to |data|
        invariant Valid() && Building(graph)
        invariant graph.Adj() == AfterInserts(i, data, dim, efConstruction, maxDegree)
      {
        InsertNext(i, graph);
      }
    }

    method OptimizeAll(graph: FlatGraphIndex, order: seq<nat>, ef: nat)
      requires Valid() && Building(graph) && Within(order, |data|) && ef >= 1
      modifies visited.bitmap, graph`neighbors, graph`numNeighbors
      ensures Valid() && Building(graph)
      ensures graph.Adj() == AfterPass(old(graph.Adj()), order, graph.entryPoint, data, dim, ef, maxDegree)
    {
      ghost var lists := graph.Adj();
      for i := 0 to |order|
        invariant Valid() && Building(graph)
        invariant graph.Adj() == AfterPass(lists, order[..i], graph.entryPoint, data, dim, ef, maxDegree)
      {
        assert order[..i + 1][..i] == order[..i];
        OptimizeNeighbors(order[i], graph, ef);
      }
      assert order[..|order|] == order;
    }

    method PruneAll(graph: FlatGraphIndex)
      requires Valid() && Building(graph) && Clean(graph.Adj())
      modifies graph`neighbors, graph`numNeighbors
      ensures Building(graph)
      ensures graph.Adj() == AfterPruning(old(graph.Adj()), data, dim, maxDegree)
    {
      hide Pruned;
      hide ListsOf;
      ghost var lists := graph.Adj();
      ghost var pruned := AfterPruning(lists, data, dim, maxDegree);
      for i := 0 to |data|
        invariant Building(graph)
        invariant forall j :: 0 <= j < i ==> graph.Adj()[j] == pruned[j]
        invariant forall j :: i <= j < |data| ==> graph.Adj()[j] == lists[j]
      {
        var count := graph.GetNumNeighbors(i);
        if count > maxDegree {
          PruneNode(i, graph);
        }
      }
    }

    /** Builds and compacts the graph. The order of the second pass is a shuffle in the original. */
    method Build(graph: FlatGraphIndex, order: seq<nat>) returns (ghost centroid: Vector)
      requires Valid() && data != [] && Within(order, |data|)
      requires Building(graph) && graph.entryPoint == 0 && graph.Adj() == NoLists(|data|)
      modifies visited.bitmap, graph
      ensures graph.Valid() && graph.entryPoint < |data| && graph.storageDegree == maxDegree
      ensures IsMean(centroid, data, dim) && IsFirstNearest(graph.entryPoint, centroid, data, dim)
      ensures graph.Adj() == Built(order, graph.entryPoint, data, dim, efConstruction, maxDegree)
      ensures Clean(graph.Adj()) && forall i :: 0 <= i < |data| ==> |graph.Adj()[i]| <= maxDegree
    {
      InsertAll(graph);
      var efPass := PassWidth(efConstruction, |data|);
      var medoid, mean := FindMedoid(data, dim);
      centroid := mean;
      graph.entryPoint := medoid;
      ghost var inserted := graph.Adj();
      OptimizeAll(graph, order, efPass);
      InsertsAreClean(|data|, data, dim, efConstruction, maxDegree);
      PassStaysClean(inserted, order, medoid, data, dim, efPass, maxDegree);
      PruneAll(graph);
      BuiltFits(order, medoid, data, dim, efConstruction, maxDegree);
      graph.Compact();
    }
  }
}
