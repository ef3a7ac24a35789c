/** Search in memory. */
module GraphSearch {
  // The graph search, and the brute-force search it is measured against.

  import opened Vectors
  import opened Ranking
  import opened BestFirst
  import opened VisitedBitmaps
  import opened FlatGraphs

  /** The loop state the three variables of a search stand for. */
  ghost function BeamOf(candidates: seq<Scored>, results: seq<Scored>, visited: VisitedBitmap): Beam
    requires visited.Valid()
    reads visited, visited.bitmap
  {
    Beam(candidates, results, visited.Contents())
  }

  /** Pops a max-heap until at most ef entries remain. */
  method PopToSize(heap: seq<Scored>, ef: nat) returns (r: seq<Scored>)
    ensures r == Trim(heap, ef)
  {
    r := heap;
    while |r| > ef
      invariant |r| <= |heap| && r == heap[..|r|]
      invariant |r| >= ef || r == heap
    {
      r := r[..|r| - 1];
    }
  }

  /** Empties the result heap, worst first, and sorts what came out. */
  method DrainSorted(heap: seq<Scored>) returns (sorted: seq<Scored>)
    requires Ascending(heap)
    ensures sorted == heap
  {
    var results, drained := heap, [];
    while results != []
      invariant multiset(drained) + multiset(results) == multiset(heap)
      decreases |results|
    {
      var last := |results| - 1;
      assert results == results[..last] + [results[last]];
      drained := drained + [results[last]];
      results := results[..last];
    }
    SortContents(drained);
    AscendingUnique(Sort(drained), heap);
    sorted := Sort(drained);
  }

  /** The ids of the first k entries. */
  method TakeIds(sorted: seq<Scored>, k: nat) returns (result: seq<nat>)
    ensures result == Ids(sorted)[..if k < |sorted| then k else |sorted|]
  {
    result := [];
    var i := 0;
    while i < k && i < |sorted|
      invariant i <= |sorted| && i <= k && result == Ids(sorted)[..i]
    {
      result := result + [sorted[i].id];
      i := i + 1;
    }
  }

  /** Looks at one neighbour: the body of the inner loop of every in-memory search. */
  method ScanNeighbour(query: Vector, data: seq<Vector>, n: nat, ef: nat,
                       candidates0: seq<Scored>, results0: seq<Scored>, visited: VisitedBitmap)
    returns (candidates: seq<Scored>, results: seq<Scored>)
    requires ef >= 1 && Covers(data, query) && results0 != []
    requires visited.Valid() && visited.size == |data| <= INVALID_NODE_ID
    modifies visited.bitmap
    ensures visited.Valid() && results != []
    ensures BeamOf(candidates, results, visited)
         == VisitIfFresh(old(BeamOf(candidates0, results0, visited)), n, Distances(query, data), ef)
  {
    candidates, results := candidates0, results0;
    var fd := results[|results| - 1].dist;
    var seen := visited.Test(n);
    if n != INVALID_NODE_ID && !seen {
      visited.Set(n);
      var nd := L2(query, data[n], |query|);
      if |results| < ef || nd < fd {
        candidates := Insert(candidates, Scored(nd, n));
        results := PopToSize(Insert(results, Scored(nd, n)), ef);
      }
    }
  }

  /** Looks at the neighbours of a popped node, in order. */
  method ScanNeighbours(query: Vector, data: seq<Vector>, graph: FlatGraphIndex, node: nat, ef: nat,
                        candidates0: seq<Scored>, results0: seq<Scored>, visited: VisitedBitmap)
    returns (candidates: seq<Scored>, results: seq<Scored>)
    requires ef >= 1 && Covers(data, query) && results0 != []
    requires graph.Valid() && |data| == graph.numNodes && node < graph.numNodes
    requires visited.Valid() && visited.size == graph.numNodes
    modifies visited.bitmap
    ensures visited.Valid() && results != []
    ensures BeamOf(candidates, results, visited)
         == Scan(old(BeamOf(candidates0, results0, visited)), graph.Adj()[node], Distances(query, data), ef)
  {
    candidates, results := candidates0, results0;
    ghost var start := BeamOf(candidates, results, visited);
    ghost var list := graph.Adj()[node];
    var count := graph.GetNumNeighbors(node);
    for i := 0 to count
      invariant visited.Valid() && results != []
      invariant BeamOf(candidates, results, visited) == Scan(start, list[..i], Distances(query, data), ef)
    {
      assert list[..i + 1][..i] == list[..i];
      var n := graph.GetNeighbor(node, i);
      candidates, results := ScanNeighbour(query, data, n, ef, candidates, results, visited);
    }
    assert list[..|list|] == list;
  }

  /** Pops the closest candidate and scans its neighbours until none is left or the closest is
      farther than the worst of a full result: the outer loop of every in-memory search. */
  method SearchLoop(query: Vector, data: seq<Vector>, graph: FlatGraphIndex, ef: nat,
                    candidates0: seq<Scored>, results0: seq<Scored>, visited: VisitedBitmap)
    returns (results: seq<Scored>)
    requires ef >= 1 && Covers(data, query) && results0 != []
    requires graph.Valid() && |data| == graph.numNodes
    requires visited.Valid() && visited.size == graph.numNodes
    requires QueueInRange(candidates0, |data|)
    modifies visited.bitmap
    ensures results == Run(old(BeamOf(candidates0, results0, visited)),
                           AllNeighbours(graph.Adj()), Distances(query, data), ef).best
  {
    var candidates := candidates0;
    results := results0;
    ghost var e, dists := AllNeighbours(graph.Adj()), Distances(query, data);
    ghost var beam := BeamOf(candidates, results, visited);
    ghost var finish := Run(beam, e, dists, ef);
    while candidates != []
      invariant visited.Valid() && results != []
      invariant beam == BeamOf(candidates, results, visited)
      invariant QueueInRange(candidates, |data|)
      invariant Run(beam, e, dists, ef) == finish
      decreases Work(beam, dists)
    {
      var top := candidates[0];
      candidates := candidates[1..];
      var fd := results[|results| - 1].dist;
      if top.dist > fd && |results| >= ef { break; }
      assert beam.frontier[0] == top && beam.best == results;
      ExpandStep(beam, e, dists, ef);
      candidates, results := ScanNeighbours(query, data, graph, top.id, ef, candidates, results, visited);
      beam := Expand(beam, e, dists, ef);
    }
    assert results == finish.best;
  }

  method SearchMemoryFast(query: Vector, k: nat, efSearch: nat, graph: FlatGraphIndex, data: seq<Vector>,
                          visited: VisitedBitmap) returns (result: seq<nat>)
    requires efSearch >= 1 && Covers(data, query)
    requires graph.Valid() && |data| == graph.numNodes
    requires graph.numNodes > 0 ==> graph.entryPoint < graph.numNodes
    requires visited.Valid() && visited.size == graph.numNodes && visited.Contents() == {}
    modifies visited.bitmap
    ensures graph.numNodes == 0 ==> result == []
    ensures graph.numNodes > 0 ==>
      result == Search(graph.entryPoint, AllNeighbours(graph.Adj()), Distances(query, data), efSearch, k)
  {
    if graph.numNodes == 0 { return []; }
    var ep := graph.entryPoint;
    var first := Scored(L2(query, data[ep], |query|), ep);
    visited.Set(ep);
    assert BeamOf([first], [first], visited) == Start(ep, Distances(query, data));
    RunAscending(ep, AllNeighbours(graph.Adj()), Distances(query, data), efSearch);
    var results := SearchLoop(query, data, graph, efSearch, [first], [first], visited);
    var sorted := DrainSorted(results);
    result := TakeIds(sorted, k);
  }

  /** Ranks every vector by its distance to the query. */
  method BruteForceSearch(q: Vector, base: seq<Vector>, k: nat) returns (result: seq<nat>)
    requires Covers(base, q)
    ensures IsTopK(result, AllNodes(|base|), Distances(q, base), k)
  {
    var dists: seq<Scored> := [];
    ghost var d := Distances(q, base);
    for i := 0 to |base|
      invariant |dists| == i && forall j :: 0 <= j < i ==> dists[j] == Entry(d, j)
    {
      dists := dists + [Scored(L2(q, base[i], |q|), i)];
    }
    SortStrict(dists);
    SortContents(dists);
    var sorted := Sort(dists);
    forall n | n in AllNodes(|base|) ensures Entry(d, n) in sorted {
      assert dists[n] == Entry(d, n);
    }
    forall i | 0 <= i < |sorted| ensures sorted[i].id in AllNodes(|base|) && sorted[i] == Entry(d, sorted[i].id) {
      assert sorted[i] in sorted;
    }
    TakeIsTopK(sorted, AllNodes(|base|), d, k);
    result := TakeIds(sorted, k);
  }

  /** When the whole graph is reachable and fits the beam, graph search and brute force return
      the same list, ties included. */
  lemma SearchMatchesBruteForce(entry: nat, adj: seq<seq<nat>>, dists: seq<real>, ef: nat, k: nat, brute: seq<nat>)
    requires ef >= 1 && entry < |dists| <= ef
    requires Reachable(entry, adj, dists) == AllNodes(|dists|)
    requires IsTopK(brute, AllNodes(|dists|), dists, k)
    ensures Search(entry, AllNeighbours(adj), dists, ef, k) == brute
  {
    ExactWhenBeamIsWide(entry, adj, dists, ef, k);
    TopKUnique(Search(entry, AllNeighbours(adj), dists, ef, k), brute, AllNodes(|dists|), dists, k);
  }
}
