/** The Vamana graph, its pruning and its builder. */
module Vamana {
  import opened Sequences
  import opened Vectors
  import opened Ranking
  import opened Greedy
  import opened BestFirst

  type Metric = (Vector, Vector) -> real

  datatype Neighbor = Neighbor(id: nat, dist: real)

  datatype Status = Success | InvalidArgument | NodeNotFound

  // ---------------------------------------------------------------------------------------
  // Lists of neighbours
  // ---------------------------------------------------------------------------------------

  function IdsOf(s: seq<Neighbor>): (r: seq<nat>)
    ensures |r| == |s| && forall i :: 0 <= i < |r| ==> r[i] == s[i].id
  {
    seq(|s|, i requires 0 <= i < |s| => s[i].id)
  }

  /** In range, without repeats, and without the node itself. */
  predicate Proper(list: seq<nat>, node: nat, size: nat) {
    Within(list, size) && NoRepeats(list) && node !in list
  }

  predicate AllProper(lists: seq<seq<nat>>) {
    forall i :: 0 <= i < |lists| ==> Proper(lists[i], i, |lists|)
  }

  /** Lists within a bound, of the nodes named. */
  predicate Bounded(lists: seq<seq<nat>>, nodes: seq<nat>, bound: nat) {
    forall i :: 0 <= i < |lists| && i in nodes ==> |lists[i]| <= bound
  }

  // ---------------------------------------------------------------------------------------
  // Robust pruning
  // ---------------------------------------------------------------------------------------

  /** A kept neighbour is closer to the candidate than alpha times the node is. */
  predicate Shadows(kept: nat, cand: Neighbor, alpha: real, vectors: seq<Vector>, metric: Metric)
    requires kept < |vectors| && cand.id < |vectors|
  {
    metric(vectors[cand.id], vectors[kept]) < alpha * cand.dist
  }

  predicate Shadowed(cand: Neighbor, kept: seq<Neighbor>, alpha: real, vectors: seq<Vector>, metric: Metric)
    requires cand.id < |vectors| && Within(IdsOf(kept), |vectors|)
  {
    exists i :: 0 <= i < |kept| && Shadows(IdsOf(kept)[i], cand, alpha, vectors, metric)
  }

  /** The candidates that are kept, in order, up to cap. */
  function Kept(sorted: seq<Neighbor>, node: nat, cap: nat, alpha: real, vectors: seq<Vector>,
                metric: Metric): (kept: seq<Neighbor>)
    requires Within(IdsOf(sorted), |vectors|)
    ensures |kept| <= cap && Within(IdsOf(kept), |vectors|)
    ensures forall x :: x in kept ==> x in sorted && x.id != node
  {
    if sorted == [] then []
    else
      var before, cand := Kept(sorted[..|sorted| - 1], node, cap, alpha, vectors, metric), sorted[|sorted| - 1];
      assert IdsOf(sorted)[|sorted| - 1] == cand.id;
      if |before| < cap && cand.id != node && !Shadowed(cand, before, alpha, vectors, metric)
      then before + [cand] else before
  }

  predicate ByDistance(s: seq<Neighbor>) {
    forall i, j :: 0 <= i < j < |s| ==> s[i].dist <= s[j].dist
  }

  lemma {:induction false} KeptNoRepeats(sorted: seq<Neighbor>, node: nat, cap: nat, alpha: real,
                                         vectors: seq<Vector>, metric: Metric)
    requires Within(IdsOf(sorted), |vectors|) && NoRepeats(IdsOf(sorted))
    ensures Proper(IdsOf(Kept(sorted, node, cap, alpha, vectors, metric)), node, |vectors|)
  {
    hide Shadowed;
    if sorted != [] {
      var rest := sorted[..|sorted| - 1];
      assert IdsOf(rest) == IdsOf(sorted)[..|sorted| - 1];
      KeptNoRepeats(rest, node, cap, alpha, vectors, metric);
      var before := Kept(rest, node, cap, alpha, vectors, metric);
      forall i | 0 <= i < |before| ensures before[i].id != sorted[|sorted| - 1].id {
        assert before[i] in rest;
        var j :| 0 <= j < |rest| && rest[j] == before[i];
        assert IdsOf(sorted)[j] != IdsOf(sorted)[|sorted| - 1];
      }
    }
  }

  /** No kept neighbour shadows one kept after it. */
  predicate Separated(kept: seq<Neighbor>, alpha: real, vectors: seq<Vector>, metric: Metric)
    requires Within(IdsOf(kept), |vectors|)
  {
    forall i, j :: 0 <= i < j < |kept| ==> !Shadows(IdsOf(kept)[i], kept[j], alpha, vectors, metric)
  }

  lemma {:induction false} KeptSeparated(sorted: seq<Neighbor>, node: nat, cap: nat, alpha: real,
                                         vectors: seq<Vector>, metric: Metric)
    requires Within(IdsOf(sorted), |vectors|)
    ensures Separated(Kept(sorted, node, cap, alpha, vectors, metric), alpha, vectors, metric)
  {
    if sorted != [] {
      var rest, cand := sorted[..|sorted| - 1], sorted[|sorted| - 1];
      KeptSeparated(rest, node, cap, alpha, vectors, metric);
      var before := Kept(rest, node, cap, alpha, vectors, metric);
      var kept := Kept(sorted, node, cap, alpha, vectors, metric);
      forall i, j | 0 <= i < j < |kept| ensures !Shadows(IdsOf(kept)[i], kept[j], alpha, vectors, metric) {
        assert IdsOf(kept)[i] == IdsOf(before)[i];
      }
    }
  }

  /** A kept neighbour, no farther than the candidate, that shadows it. */
  ghost predicate Covered(cand: Neighbor, kept: seq<Neighbor>, alpha: real, vectors: seq<Vector>, metric: Metric)
    requires cand.id < |vectors| && Within(IdsOf(kept), |vectors|)
  {
    exists i :: 0 <= i < |kept| && Shadows(IdsOf(kept)[i], cand, alpha, vectors, metric) && kept[i].dist <= cand.dist
  }

  /** A candidate other than the node that was reached before the cap is kept, or a kept neighbour no
      farther away shadows it. */
  lemma {:induction false} RejectedAreCovered(sorted: seq<Neighbor>, c: nat, node: nat, cap: nat, alpha: real,
                                              vectors: seq<Vector>, metric: Metric)
    requires Within(IdsOf(sorted), |vectors|) && ByDistance(sorted) && c < |sorted|
    requires sorted[c].id != node && |Kept(sorted[..c], node, cap, alpha, vectors, metric)| < cap
    ensures var kept := Kept(sorted, node, cap, alpha, vectors, metric);
      IdsOf(sorted)[c] == sorted[c].id && (sorted[c] in kept || Covered(sorted[c], kept, alpha, vectors, metric))
  {
    hide Shadows;
    hide Shadowed;
    hide Covered;
    var rest := sorted[..|sorted| - 1];
    var before, kept := Kept(rest, node, cap, alpha, vectors, metric), Kept(sorted, node, cap, alpha, vectors, metric);
    assert IdsOf(sorted)[c] == sorted[c].id;
    if c < |rest| {
      assert sorted[..c] == rest[..c] && sorted[c] == rest[c];
      RejectedAreCovered(rest, c, node, cap, alpha, vectors, metric);
      if sorted[c] !in before { CoveredStays(sorted[c], before, kept, alpha, vectors, metric); }
    } else if Shadowed(sorted[c], before, alpha, vectors, metric) {
      assert rest + [sorted[c]] == sorted;
      ShadowsCover(rest, sorted[c], before, alpha, vectors, metric);
    }
  }

  lemma CoveredStays(cand: Neighbor, before: seq<Neighbor>, kept: seq<Neighbor>, alpha: real, vectors: seq<Vector>,
                     metric: Metric)
    requires cand.id < |vectors| && Within(IdsOf(before), |vectors|) && Within(IdsOf(kept), |vectors|)
    requires before <= kept && Covered(cand, before, alpha, vectors, metric)
    ensures Covered(cand, kept, alpha, vectors, metric)
  {
    hide Shadows;
    var i :| 0 <= i < |before| &&
                Shadows(IdsOf(before)[i], cand, alpha, vectors, metric) && before[i].dist <= cand.dist;
    assert IdsOf(kept)[i] == IdsOf(before)[i];
  }

  /** What shadows a candidate that comes after it in the sorted list covers it. */
  lemma ShadowsCover(rest: seq<Neighbor>, cand: Neighbor, before: seq<Neighbor>, alpha: real, vectors: seq<Vector>,
                     metric: Metric)
    requires cand.id < |vectors| && Within(IdsOf(before), |vectors|) && Shadowed(cand, before, alpha, vectors, metric)
    requires ByDistance(rest + [cand]) && forall x :: x in before ==> x in rest
    ensures Covered(cand, before, alpha, vectors, metric)
  {
    hide Shadows;
    var i :| 0 <= i < |before| && Shadows(IdsOf(before)[i], cand, alpha, vectors, metric);
    assert before[i] in rest;
    var j :| 0 <= j < |rest| && rest[j] == before[i];
    assert (rest + [cand])[j].dist <= (rest + [cand])[|rest|].dist;
  }

  /** The list names vectors of the data. */
  predicate NamesVectors(s: seq<Neighbor>, vectors: seq<Vector>) {
    forall i :: 0 <= i < |s| ==> s[i].id < |vectors|
  }

  ghost function IsNodeAt(sorted: seq<Neighbor>, node: nat): int -> bool {
    c => 0 <= c < |sorted| && sorted[c].id == node
  }

  /** Candidate c is closer to candidate p than alpha times its distance from the node. */
  ghost function TooCloseAt(sorted: seq<Neighbor>, alpha: real, vectors: seq<Vector>,
                            metric: Metric): (int, int) -> bool
    requires NamesVectors(sorted, vectors)
  {
    (c, p) => 0 <= c < |sorted| && 0 <= p < |sorted|
      && metric(vectors[sorted[c].id], vectors[sorted[p].id]) < alpha * sorted[c].dist
  }

  /** The picks of one walk through the candidates, by position: never the node, never one too close to an earlier
      pick; and a candidate is only passed over for one of these reasons, or because the picks were full. */
  ghost predicate IsPick(at: seq<nat>, sorted: seq<Neighbor>, node: nat, cap: nat, alpha: real, vectors: seq<Vector>,
                         metric: Metric)
    requires NamesVectors(sorted, vectors)
  {
    IsGreedy(at, |sorted|, cap, IsNodeAt(sorted, node), TooCloseAt(sorted, alpha, vectors, metric))
  }

  /** The ids of the candidates at some positions. */
  function IdsAt(sorted: seq<Neighbor>, at: seq<nat>): (r: seq<nat>)
    requires forall j :: 0 <= j < |at| ==> at[j] < |sorted|
    ensures |r| == |at| && forall j :: 0 <= j < |at| ==> r[j] == sorted[at[j]].id
  {
    seq(|at|, j requires 0 <= j < |at| => sorted[at[j]].id)
  }

  lemma NamedVectors(sorted: seq<Neighbor>, vectors: seq<Vector>)
    requires Within(IdsOf(sorted), |vectors|)
    ensures NamesVectors(sorted, vectors)
  {
    forall i | 0 <= i < |sorted| ensures sorted[i].id < |vectors| {
      assert IdsOf(sorted)[i] < |vectors|;
    }
  }

  lemma ShadowedIsBlocked(i: nat, at: seq<nat>, sorted: seq<Neighbor>, kept: seq<Neighbor>, alpha: real,
                          vectors: seq<Vector>, metric: Metric)
    requires NamesVectors(sorted, vectors) && i < |sorted| && Within(IdsOf(kept), |vectors|)
    requires (forall j :: 0 <= j < |at| ==> at[j] < i) && IdsAt(sorted, at) == IdsOf(kept)
    ensures Shadowed(sorted[i], kept, alpha, vectors, metric)
       <==> Blocked(i, at, TooCloseAt(sorted, alpha, vectors, metric))
  {
    var blocks := TooCloseAt(sorted, alpha, vectors, metric);
    assert forall j :: 0 <= j < |at| ==>
      IdsOf(kept)[j] == sorted[at[j]].id
      && (Shadows(IdsOf(kept)[j], sorted[i], alpha, vectors, metric) <==> blocks(i, at[j]));
  }

  lemma KeptNone(sorted: seq<Neighbor>, node: nat, cap: nat, alpha: real, vectors: seq<Vector>, metric: Metric)
    requires sorted == [] && Within(IdsOf(sorted), |vectors|)
    ensures Kept(sorted, node, cap, alpha, vectors, metric) == []
  {
  }

  lemma KeptNext(sorted: seq<Neighbor>, i: nat, node: nat, cap: nat, alpha: real, vectors: seq<Vector>, metric: Metric)
    requires i < |sorted| && NamesVectors(sorted, vectors) && Within(IdsOf(sorted[..i + 1]), |vectors|)
    ensures Within(IdsOf(sorted[..i]), |vectors|)
    ensures var before := Kept(sorted[..i], node, cap, alpha, vectors, metric);
      Kept(sorted[..i + 1], node, cap, alpha, vectors, metric)
        == if |before| < cap && sorted[i].id != node && !Shadowed(sorted[i], before, alpha, vectors, metric)
           then before + [sorted[i]] else before
  {
    hide Shadowed;
    assert IdsOf(sorted[..i]) == IdsOf(sorted[..i + 1])[..i] && sorted[..i + 1][..i] == sorted[..i];
  }

  /** What pruning keeps of the first candidates are such a walk's picks. */
  lemma {:induction false} KeptIsGreedy(sorted: seq<Neighbor>, i: nat, node: nat, cap: nat, alpha: real,
                                        vectors: seq<Vector>, metric: Metric) returns (at: seq<nat>)
    requires NamesVectors(sorted, vectors) && i <= |sorted| && Within(IdsOf(sorted[..i]), |vectors|)
    ensures IsGreedy(at, i, cap, IsNodeAt(sorted, node), TooCloseAt(sorted, alpha, vectors, metric))
    ensures IdsAt(sorted, at) == IdsOf(Kept(sorted[..i], node, cap, alpha, vectors, metric))
  {
    hide Shadowed;
    hide Blocked;
    hide PassedOver;
    hide TooCloseAt;
    hide Kept;
    at := [];
    if i == 0 {
      KeptNone(sorted[..0], node, cap, alpha, vectors, metric);
    } else {
      KeptNext(sorted, i - 1, node, cap, alpha, vectors, metric);
      var before := KeptIsGreedy(sorted, i - 1, node, cap, alpha, vectors, metric);
      var skip, blocks := IsNodeAt(sorted, node), TooCloseAt(sorted, alpha, vectors, metric);
      var kept := Kept(sorted[..i - 1], node, cap, alpha, vectors, metric);
      ShadowedIsBlocked(i - 1, before, sorted, kept, alpha, vectors, metric);
      GreedyNext(before, i - 1, cap, skip, blocks);
      at := if |before| < cap && !skip(i - 1) && !Blocked(i - 1, before, blocks) then before + [i - 1] else before;
    }
  }

  lemma KeptIsPick(sorted: seq<Neighbor>, node: nat, cap: nat, alpha: real, vectors: seq<Vector>, metric: Metric)
    returns (at: seq<nat>)
    requires NamesVectors(sorted, vectors) && Within(IdsOf(sorted), |vectors|)
    ensures IsPick(at, sorted, node, cap, alpha, vectors, metric)
    ensures IdsAt(sorted, at) == IdsOf(Kept(sorted, node, cap, alpha, vectors, metric))
  {
    assert sorted[..|sorted|] == sorted;
    at := KeptIsGreedy(sorted, |sorted|, node, cap, alpha, vectors, metric);
  }

  /** Once the cap is reached, nothing more is kept. */
  lemma {:induction false} KeptFull(sorted: seq<Neighbor>, i: nat, node: nat, cap: nat, alpha: real,
                                    vectors: seq<Vector>, metric: Metric)
    requires Within(IdsOf(sorted), |vectors|) && i <= |sorted|
    requires |Kept(sorted[..i], node, cap, alpha, vectors, metric)| == cap
    ensures Kept(sorted, node, cap, alpha, vectors, metric) == Kept(sorted[..i], node, cap, alpha, vectors, metric)
  {
    if i < |sorted| {
      assert sorted[..|sorted| - 1][..i] == sorted[..i];
      KeptFull(sorted[..|sorted| - 1], i, node, cap, alpha, vectors, metric);
    } else {
      assert sorted[..i] == sorted;
    }
  }

  /** What a sort by distance returns: ties may come in any order. */
  ghost predicate SortedFrom(sorted: seq<Neighbor>, candidates: seq<Neighbor>) {
    ByDistance(sorted) && multiset(sorted) == multiset(candidates)
  }

  lemma InsertAt(sorted: seq<Neighbor>, j: nat, x: Neighbor)
    requires ByDistance(sorted) && j <= |sorted|
    requires (j > 0 ==> sorted[j - 1].dist <= x.dist) && forall p :: j <= p < |sorted| ==> x.dist <= sorted[p].dist
    ensures ByDistance(sorted[..j] + [x] + sorted[j..])
  {
  }

  /** Moves a candidate down past those that are farther. */
  method InsertSorted(sorted: seq<Neighbor>, x: Neighbor) returns (r: seq<Neighbor>)
    requires ByDistance(sorted)
    ensures ByDistance(r) && multiset(r) == multiset(sorted) + multiset{x}
  {
    var j := |sorted|;
    while j > 0 && x.dist < sorted[j - 1].dist
      invariant 0 <= j <= |sorted|
      invariant forall p :: j <= p < |sorted| ==> x.dist <= sorted[p].dist
    {
      j := j - 1;
    }
    InsertAt(sorted, j, x);
    SplitContents(sorted, j, x);
    r := sorted[..j] + [x] + sorted[j..];
  }

  lemma NextContents(s: seq<Neighbor>, i: nat)
    requires i < |s|
    ensures multiset(s[..i + 1]) == multiset(s[..i]) + multiset{s[i]}
  {
    assert s[..i + 1] == s[..i] + [s[i]];
  }

  method SortByDistance(candidates: seq<Neighbor>) returns (sorted: seq<Neighbor>)
    ensures SortedFrom(sorted, candidates)
  {
    hide ByDistance;
    sorted := [];
    NothingByDistance(sorted);
    for i := 0 to |candidates|
      invariant ByDistance(sorted) && multiset(sorted) == multiset(candidates[..i])
    {
      NextContents(candidates, i);
      sorted := InsertSorted(sorted, candidates[i]);
    }
    assert candidates[..|candidates|] == candidates;
  }

  lemma NothingByDistance(s: seq<Neighbor>)
    requires s == []
    ensures ByDistance(s)
  {
  }

  lemma SortedIds(sorted: seq<Neighbor>, candidates: seq<Neighbor>, size: nat)
    requires multiset(sorted) == multiset(candidates) && Within(IdsOf(candidates), size) && NoRepeats(IdsOf(candidates))
    ensures Within(IdsOf(sorted), size) && NoRepeats(IdsOf(sorted))
    ensures forall x :: x in sorted <==> x in candidates
  {
    forall x ensures x in sorted <==> x in candidates {
      assert x in sorted <==> x in multiset(sorted);
      assert x in candidates <==> x in multiset(candidates);
    }
    forall i | 0 <= i < |sorted| ensures IdsOf(sorted)[i] < size {
      assert sorted[i] in candidates;
      var j :| 0 <= j < |candidates| && candidates[j] == sorted[i];
      assert IdsOf(candidates)[j] < size;
    }
    forall i, j | 0 <= i < j < |sorted| ensures IdsOf(sorted)[i] != IdsOf(sorted)[j] {
      assert sorted[i] in candidates && sorted[j] in candidates;
      if sorted[i].id == sorted[j].id {
        OnePerId(candidates, sorted[i], sorted[j]);
        Twice(sorted, i, j);
        Once(candidates, sorted[i]);
      }
    }
  }

  lemma OnePerId(s: seq<Neighbor>, x: Neighbor, y: Neighbor)
    requires NoRepeats(IdsOf(s)) && x in s && y in s && x.id == y.id
    ensures x == y
  {
    var i :| 0 <= i < |s| && s[i] == x;
    var j :| 0 <= j < |s| && s[j] == y;
    assert IdsOf(s)[i] == IdsOf(s)[j];
  }

  lemma Twice(s: seq<Neighbor>, i: nat, j: nat)
    requires i < j < |s| && s[i] == s[j]
    ensures multiset(s)[s[i]] >= 2
  {
    assert s == s[..j] + [s[j]] + s[j + 1..];
    assert s[i] in s[..j];
  }

  lemma {:induction false} Once(s: seq<Neighbor>, x: Neighbor)
    requires NoRepeats(IdsOf(s))
    ensures multiset(s)[x] <= 1
  {
    if s != [] {
      var rest := s[..|s| - 1];
      assert s == rest + [s[|s| - 1]];
      assert IdsOf(rest) == IdsOf(s)[..|s| - 1];
      Once(rest, x);
      assert forall j :: 0 <= j < |rest| ==> IdsOf(s)[j] != IdsOf(s)[|s| - 1];
      assert s[|s| - 1] !in rest;
    }
  }

  method TestShadowed(cand: Neighbor, result: seq<Neighbor>, alpha: real, vectors: seq<Vector>, metric: Metric)
    returns (shadowed: bool)
    requires cand.id < |vectors| && Within(IdsOf(result), |vectors|)
    ensures shadowed == Shadowed(cand, result, alpha, vectors, metric)
  {
    for i := 0 to |result|
      invariant forall j :: 0 <= j < i ==> !Shadows(IdsOf(result)[j], cand, alpha, vectors, metric)
    {
      assert IdsOf(result)[i] == result[i].id;
      var distToExisting := metric(vectors[cand.id], vectors[result[i].id]);
      if distToExisting < alpha * cand.dist { return true; }
    }
    return false;
  }

  /** Goes through the sorted candidates and keeps each that no kept one shadows. */
  method PruneSorted(sorted: seq<Neighbor>, node: nat, cap: nat, alpha: real, vectors: seq<Vector>, metric: Metric)
    returns (result: seq<Neighbor>)
    requires Within(IdsOf(sorted), |vectors|)
    ensures result == Kept(sorted, node, cap, alpha, vectors, metric)
  {
    result := [];
    for i := 0 to |sorted|
      invariant result == Kept(sorted[..i], node, cap, alpha, vectors, metric)
    {
      if |result| >= cap {
        KeptFull(sorted, i, node, cap, alpha, vectors, metric);
        return;
      }
      assert sorted[..i + 1][..i] == sorted[..i];
      assert IdsOf(sorted)[i] == sorted[i].id;
      if sorted[i].id != node {
        var shadowed := TestShadowed(sorted[i], result, alpha, vectors, metric);
        if !shadowed { result := result + [sorted[i]]; }
      }
    }
    assert sorted[..|sorted|] == sorted;
  }

  // ---------------------------------------------------------------------------------------
  // The adjacency lists
  // ---------------------------------------------------------------------------------------

  class GraphNavData {
    const maxDegree: nat
    var numNodes: nat
    var entryPoint: nat
    var adjacency: seq<seq<nat>>

    ghost predicate Valid()
      reads this
    {
      |adjacency| == numNodes
    }

    constructor (numNodes: nat, maxDegree: nat)
      ensures Valid() && this.numNodes == numNodes && this.maxDegree == maxDegree
      ensures entryPoint == INVALID_NODE_ID && forall i :: 0 <= i < numNodes ==> adjacency[i] == []
    {
      this.numNodes, this.maxDegree, entryPoint := numNodes, maxDegree, INVALID_NODE_ID;
      adjacency := seq(numNodes, _ => []);
    }

    method AddNode() returns (id: nat)
      requires Valid()
      modifies this`numNodes, this`adjacency
      ensures Valid() && id == old(numNodes) && adjacency == old(adjacency) + [[]]
    {
      id := numNodes;
      numNodes := numNodes + 1;
      adjacency := adjacency + [[]];
    }

    /** Refused for ids out of range, for a neighbour already there, and for a full list. */
    method AddNeighbor(node: nat, neighbor: nat) returns (added: bool)
      requires Valid()
      modifies this`adjacency
      ensures Valid()
      ensures added == (node < numNodes && neighbor < numNodes &&
                        neighbor !in old(adjacency)[node] && |old(adjacency)[node]| < maxDegree)
      ensures adjacency == if added then old(adjacency)[node := old(adjacency)[node] + [neighbor]] else old(adjacency)
    {
      if node >= numNodes || neighbor >= numNodes { return false; }
      if neighbor in adjacency[node] { return false; }
      if |adjacency[node]| >= maxDegree { return false; }
      adjacency := adjacency[node := adjacency[node] + [neighbor]];
      return true;
    }

    /** Clears a list and fills it again. */
    method SetList(node: nat, list: seq<nat>)
      requires Valid() && node < numNodes
      modifies this`adjacency
      ensures Valid() && adjacency == old(adjacency)[node := list]
    {
      adjacency := adjacency[node := list];
    }
  }

  // ---------------------------------------------------------------------------------------
  // The search
  // ---------------------------------------------------------------------------------------

  /** Both queues of the search compare ids before distances; ids never repeat, so distances never
      decide. A queue is kept in ascending order of id. */
  predicate ById(s: seq<Neighbor>) {
    forall i, j :: 0 <= i < j < |s| ==> s[i].id < s[j].id
  }

  function InsertById(s: seq<Neighbor>, x: Neighbor): (r: seq<Neighbor>)
    ensures |r| == |s| + 1
  {
    if s == [] then [x]
    else if x.id < s[0].id then [x] + s
    else [s[0]] + InsertById(s[1..], x)
  }

  lemma {:induction false} InsertByIdOrders(s: seq<Neighbor>, x: Neighbor)
    requires ById(s) && forall y :: y in s ==> y.id != x.id
    ensures ById(InsertById(s, x))
    ensures forall y :: y in InsertById(s, x) <==> y == x || y in s
  {
    if s != [] && x.id > s[0].id {
      assert s == [s[0]] + s[1..];
      InsertByIdOrders(s[1..], x);
      var rest := InsertById(s[1..], x);
      forall i | 0 <= i < |rest| ensures s[0].id < rest[i].id {
        assert rest[i] in rest;
      }
    } else if s != [] {
      assert s[0] in s;
    }
  }

  /** The result queue is never cut below one entry, even for k = 0. */
  function Room(k: nat): (room: nat)
    ensures room >= 1
  {
    if k == 0 then 1 else k
  }

  function IdSet(s: seq<Neighbor>): set<nat> {
    set x | x in s :: x.id
  }

  /** The distances of all vectors to the query. */
  function Measurements(query: Vector, vectors: seq<Vector>, metric: Metric): (dists: seq<real>)
    ensures |dists| == |vectors| && forall i :: 0 <= i < |dists| ==> dists[i] == metric(query, vectors[i])
  {
    seq(|vectors|, i requires 0 <= i < |vectors| => metric(query, vectors[i]))
  }

  /** The state of the search: the queue of nodes to expand, the results and the visited nodes. */
  datatype Tour = Tour(candidates: seq<Neighbor>, best: seq<Neighbor>, visited: set<nat>)

  /** What the results become when they take one more node. */
  function Grown(best: seq<Neighbor>, x: Neighbor, k: nat): seq<Neighbor> {
    var grown := InsertById(best, x);
    if |grown| > Room(k) then grown[1..] else grown
  }

  /** Takes a node into both queues. */
  function TakeIn(s: Tour, n: nat, dists: seq<real>, k: nat): Tour
    requires n < |dists|
  {
    var x := Neighbor(n, dists[n]);
    Tour(InsertById(s.candidates, x), Grown(s.best, x, k), s.visited + {n})
  }

  function LookAt(s: Tour, n: nat, dists: seq<real>, k: nat): Tour {
    if n < |dists| && n !in s.visited then TakeIn(s, n, dists, k) else s
  }

  function LookAll(s: Tour, list: seq<nat>, dists: seq<real>, k: nat): Tour {
    if list == [] then s else LookAt(LookAll(s, list[..|list| - 1], dists, k), list[|list| - 1], dists, k)
  }

  /** With k results, the node to expand is farther than the result with the smallest id. */
  predicate TourCut(s: Tour, k: nat) {
    s.candidates != [] && s.best != [] && |s.best| >= k && s.candidates[|s.candidates| - 1].dist > s.best[0].dist
  }

  /** Expands the queued node with the largest id. */
  function TourStep(s: Tour, adj: seq<seq<nat>>, dists: seq<real>, k: nat): Tour
    requires s.candidates != []
  {
    var last := |s.candidates| - 1;
    LookAll(s.(candidates := s.candidates[..last]), Adjacent(adj, s.candidates[last].id), dists, k)
  }

  function TourRun(s: Tour, adj: seq<seq<nat>>, dists: seq<real>, k: nat): Tour
    decreases |Unseen(s.visited, |dists|)|, |s.candidates|
  {
    if s.candidates == [] || TourCut(s, k) then s
    else
      StepShrinks(s, adj, dists, k);
      TourRun(TourStep(s, adj, dists, k), adj, dists, k)
  }

  function TourStart(entry: nat, dists: seq<real>): Tour
    requires entry < |dists|
  {
    var first := Neighbor(entry, dists[entry]);
    Tour([first], [first], {entry})
  }

  /** The whole search for the neighbours of a query. */
  function Toured(entry: nat, adj: seq<seq<nat>>, dists: seq<real>, k: nat): Tour
    requires entry < |dists|
  {
    TourRun(TourStart(entry, dists), adj, dists, k)
  }

  /** The nodes that can be visited. */
  function Unseen(visited: set<nat>, size: nat): set<nat> {
    set n: nat | n < size && n !in visited
  }

  lemma {:induction false} LookAllVisits(s: Tour, list: seq<nat>, dists: seq<real>, k: nat)
    ensures s.visited <= LookAll(s, list, dists, k).visited
    ensures forall n :: n in LookAll(s, list, dists, k).visited ==> n in s.visited || (n in list && n < |dists|)
    ensures forall n :: n in list && n < |dists| ==> n in LookAll(s, list, dists, k).visited
    ensures LookAll(s, list, dists, k).visited == s.visited ==> LookAll(s, list, dists, k) == s
  {
    if list != [] {
      LookAllVisits(s, list[..|list| - 1], dists, k);
      assert list == list[..|list| - 1] + [list[|list| - 1]];
    }
  }

  lemma StepShrinks(s: Tour, adj: seq<seq<nat>>, dists: seq<real>, k: nat)
    requires s.candidates != []
    ensures var c := TourStep(s, adj, dists, k);
      || |Unseen(c.visited, |dists|)| < |Unseen(s.visited, |dists|)|
      || (Unseen(c.visited, |dists|) == Unseen(s.visited, |dists|) && |c.candidates| < |s.candidates|)
  {
    var last := |s.candidates| - 1;
    var popped, list := s.(candidates := s.candidates[..last]), Adjacent(adj, s.candidates[last].id);
    LookAllVisits(popped, list, dists, k);
    var c := LookAll(popped, list, dists, k);
    if c.visited != s.visited {
      var n :| n in c.visited && n !in s.visited;
      assert Unseen(c.visited, |dists|) <= Unseen(s.visited, |dists|) - {n};
      SubsetSize(Unseen(c.visited, |dists|), Unseen(s.visited, |dists|) - {n});
    }
  }

  // ---------------------------------------------------------------------------------------
  // What the search finds
  // ---------------------------------------------------------------------------------------

  /** Of the visited nodes, those with the largest ids, each with its distance to the query: not the
      nearest ones. */
  ghost predicate LargestIds(best: seq<Neighbor>, visited: set<nat>, k: nat, dists: seq<real>) {
    && ById(best) && |best| <= Room(k)
    && (forall x :: x in best ==> x.id in visited && x.id < |dists| && x.dist == dists[x.id])
    && (|best| == Room(k) || IdSet(best) == visited)
    && (forall n, x :: n in visited && n !in IdSet(best) && x in best ==> n < x.id)
  }

  ghost predicate Queued(candidates: seq<Neighbor>, visited: set<nat>) {
    ById(candidates) && forall x :: x in candidates ==> x.id in visited
  }

  lemma GrownMembers(best: seq<Neighbor>, x: Neighbor, k: nat)
    requires ById(best) && x.id !in IdSet(best) && |best| <= Room(k)
    ensures ById(Grown(best, x, k)) && |Grown(best, x, k)| <= Room(k)
    ensures forall y :: y in Grown(best, x, k) ==> y == x || y in best
    ensures |best| < Room(k) ==> x in Grown(best, x, k) && forall y :: y in best ==> y in Grown(best, x, k)
    ensures |best| == Room(k) ==> exists low :: IsDropped(low, best, x, k)
  {
    forall y | y in best ensures y.id != x.id { assert y.id in IdSet(best); }
    InsertByIdOrders(best, x);
    var all, grown := InsertById(best, x), Grown(best, x, k);
    if |best| == Room(k) {
      assert all == [all[0]] + grown;
      assert IsDropped(all[0], best, x, k);
    }
  }

  /** The entry that makes room: it has the smallest id of all. */
  ghost predicate IsDropped(low: Neighbor, best: seq<Neighbor>, x: Neighbor, k: nat) {
    var grown := Grown(best, x, k);
    && (low == x || low in best)
    && (forall y :: y in grown ==> low.id < y.id)
    && (forall y :: y == x || y in best ==> y == low || y in grown)
  }

  /** With the dropped entry named, every other visited node stays below all results. */
  lemma StaysBelow(best: seq<Neighbor>, visited: set<nat>, x: Neighbor, k: nat, low: Neighbor, m: nat, y: Neighbor)
    requires IsDropped(low, best, x, k) && y in Grown(best, x, k) && m !in IdSet(Grown(best, x, k))
    requires m == x.id || m in visited
    requires forall n, z :: n in visited && n !in IdSet(best) && z in best ==> n < z.id
    requires forall z :: z in Grown(best, x, k) ==> z == x || z in best
    ensures m < y.id
  {
    hide Grown;
    assert forall z :: z == x || z in best ==> z == low || z.id in IdSet(Grown(best, x, k));
    if m != low.id {
      assert m in visited && m !in IdSet(best);
      if low in best { assert m < low.id; }
    }
  }

  /** Takes one more visited node into the results. */
  lemma LargestIdsGrow(best: seq<Neighbor>, visited: set<nat>, n: nat, k: nat, dists: seq<real>)
    requires LargestIds(best, visited, k, dists) && n !in visited && n < |dists|
    ensures LargestIds(Grown(best, Neighbor(n, dists[n]), k), visited + {n}, k, dists)
  {
    var x := Neighbor(n, dists[n]);
    GrownMembers(best, x, k);
    var grown := Grown(best, x, k);
    if |best| < Room(k) {
      assert IdSet(grown) == visited + {n};
    } else {
      assert |grown| == Room(k);
      hide Grown;
      hide IsDropped;
      var low :| IsDropped(low, best, x, k);
      forall m, y | m in visited + {n} && m !in IdSet(grown) && y in grown ensures m < y.id {
        StaysBelow(best, visited, x, k, low, m, y);
      }
    }
  }

  /** A visited node is found exactly when fewer visited nodes have a larger id than there is room
      for. Its distance does not matter. */
  lemma FoundExactly(best: seq<Neighbor>, visited: set<nat>, n: nat, k: nat, dists: seq<real>)
    requires LargestIds(best, visited, k, dists) && n in visited
    ensures n in IdSet(best) <==> |set m | m in visited && m > n| < Room(k)
  {
    var larger := set m | m in visited && m > n;
    IdSetCount(best);
    if n in IdSet(best) {
      forall m | m in larger ensures m in IdSet(best) {
        var x :| x in best && x.id == n;
      }
      SubsetSize(larger + {n}, IdSet(best));
      assert |larger + {n}| == |larger| + 1;
    } else {
      assert IdSet(best) <= larger;
      SubsetSize(IdSet(best), larger);
    }
  }

  /** When the search ends, as many nodes are returned as were visited, up to the room there is. */
  lemma LargestIdsCount(best: seq<Neighbor>, visited: set<nat>, k: nat, dists: seq<real>)
    requires LargestIds(best, visited, k, dists)
    ensures |best| == if Room(k) < |visited| then Room(k) else |visited|
  {
    IdSetCount(best);
    SubsetSize(IdSet(best), visited);
  }

  lemma {:induction false} IdSetCount(s: seq<Neighbor>)
    requires ById(s)
    ensures |IdSet(s)| == |s|
  {
    if s != [] {
      var rest := s[..|s| - 1];
      assert s == rest + [s[|s| - 1]];
      IdSetCount(rest);
      assert IdSet(s) == IdSet(rest) + {s[|s| - 1].id};
    }
  }

  lemma QueuedGrows(candidates: seq<Neighbor>, visited: set<nat>, x: Neighbor)
    requires Queued(candidates, visited) && x.id !in visited
    ensures Queued(InsertById(candidates, x), visited + {x.id})
    ensures IdSet(InsertById(candidates, x)) == IdSet(candidates) + {x.id}
  {
    InsertByIdOrders(candidates, x);
    assert forall y :: y in InsertById(candidates, x) ==> y.id in IdSet(candidates) + {x.id};
  }

  /** What every state of the search satisfies: the results are the visited nodes with the largest ids, and
      every visited node is queued or has had its neighbours visited. */
  ghost predicate OnTour(s: Tour, adj: seq<seq<nat>>, k: nat, dists: seq<real>) {
    && LargestIds(s.best, s.visited, k, dists) && Queued(s.candidates, s.visited) && s.best != []
    && forall u :: u in s.visited ==> u in IdSet(s.candidates) || AllSeen(s, adj, u, dists)
  }

  ghost predicate AllSeen(s: Tour, adj: seq<seq<nat>>, u: nat, dists: seq<real>) {
    forall v :: v in Adjacent(adj, u) && v < |dists| ==> v in s.visited
  }

  lemma {:induction false} LookAllQueues(s: Tour, list: seq<nat>, dists: seq<real>, k: nat)
    requires LargestIds(s.best, s.visited, k, dists) && Queued(s.candidates, s.visited) && s.best != []
    ensures var c := LookAll(s, list, dists, k);
      && LargestIds(c.best, c.visited, k, dists) && Queued(c.candidates, c.visited) && c.best != []
      && IdSet(c.candidates) == IdSet(s.candidates) + (c.visited - s.visited)
      && s.visited <= c.visited
  {
    hide LargestIds;
    hide Queued;
    hide IdSet;
    if list != [] {
      var rest, n := list[..|list| - 1], list[|list| - 1];
      LookAllQueues(s, rest, dists, k);
      var c := LookAll(s, rest, dists, k);
      if n < |dists| && n !in c.visited {
        LargestIdsGrow(c.best, c.visited, n, k, dists);
        QueuedGrows(c.candidates, c.visited, Neighbor(n, dists[n]));
      }
    }
  }

  lemma PopQueued(candidates: seq<Neighbor>, visited: set<nat>)
    requires Queued(candidates, visited) && candidates != []
    ensures var last := |candidates| - 1;
      && Queued(candidates[..last], visited) && candidates[last].id in visited
      && IdSet(candidates) == IdSet(candidates[..last]) + {candidates[last].id}
  {
    var last := |candidates| - 1;
    assert candidates == candidates[..last] + [candidates[last]];
  }

  lemma StepOnTour(s: Tour, adj: seq<seq<nat>>, dists: seq<real>, k: nat)
    requires OnTour(s, adj, k, dists) && s.candidates != []
    ensures OnTour(TourStep(s, adj, dists, k), adj, k, dists)
  {
    hide LargestIds;
    hide Queued;
    hide IdSet;
    var last := |s.candidates| - 1;
    var popped, u := s.(candidates := s.candidates[..last]), s.candidates[last].id;
    PopQueued(s.candidates, s.visited);
    LookAllQueues(popped, Adjacent(adj, u), dists, k);
    LookAllVisits(popped, Adjacent(adj, u), dists, k);
    var c := TourStep(s, adj, dists, k);
    forall w | w in c.visited ensures w in IdSet(c.candidates) || AllSeen(c, adj, w, dists) {
      if w in s.visited && w != u && w !in IdSet(s.candidates) { assert AllSeen(s, adj, w, dists); }
    }
  }

  lemma {:induction false} RunOnTour(s: Tour, adj: seq<seq<nat>>, dists: seq<real>, k: nat, region: set<nat>)
    requires OnTour(s, adj, k, dists) && s.visited <= region && ClosedUnderEdges(region, adj, dists)
    ensures var c := TourRun(s, adj, dists, k);
      && OnTour(c, adj, k, dists) && s.visited <= c.visited <= region && (c.candidates == [] || TourCut(c, k))
    decreases |Unseen(s.visited, |dists|)|, |s.candidates|
  {
    hide LargestIds;
    if s.candidates == [] || TourCut(s, k) {
    } else {
      var last := |s.candidates| - 1;
      PopQueued(s.candidates, s.visited);
      StepOnTour(s, adj, dists, k);
      StepShrinks(s, adj, dists, k);
      LookAllVisits(s.(candidates := s.candidates[..last]), Adjacent(adj, s.candidates[last].id), dists, k);
      RunOnTour(TourStep(s, adj, dists, k), adj, dists, k, region);
    }
  }

  lemma StartOnTour(entry: nat, adj: seq<seq<nat>>, dists: seq<real>, k: nat)
    requires entry < |dists|
    ensures OnTour(TourStart(entry, dists), adj, k, dists)
  {
    var s := TourStart(entry, dists);
    assert Neighbor(entry, dists[entry]) in s.candidates;
  }

  /** What a search returns: of the nodes it visited, those with the largest ids; all of them are reachable,
      the entry is among the visited ones, and unless the search was cut short every reachable node is. */
  lemma TourFinds(entry: nat, adj: seq<seq<nat>>, dists: seq<real>, k: nat)
    requires entry < |dists|
    ensures var c, reachable := Toured(entry, adj, dists, k), Reachable(entry, adj, dists);
      && LargestIds(c.best, c.visited, k, dists) && c.best != []
      && entry in c.visited && c.visited <= reachable
      && (c.visited == reachable || TourCut(c, k))
  {
    var c, reachable := Toured(entry, adj, dists, k), Reachable(entry, adj, dists);
    StartOnTour(entry, adj, dists, k);
    ReachableIsClosed(entry, adj, dists);
    RunOnTour(TourStart(entry, dists), adj, dists, k, reachable);
    if c.candidates == [] {
      forall u, v | u in c.visited && v in Adjacent(adj, u) && v < |dists| ensures v in c.visited {
        assert AllSeen(c, adj, u, dists);
      }
      ReachableIsLeast(entry, adj, dists, c.visited);
    }
  }

  /** A node is returned exactly when it is visited and fewer visited nodes exceed it in id than there is
      room for; unless the search was cut short, the visited nodes are the reachable ones. */
  lemma TourFindsExactly(entry: nat, adj: seq<seq<nat>>, dists: seq<real>, k: nat, n: nat)
    requires entry < |dists|
    ensures var c := Toured(entry, adj, dists, k);
      && (n in IdSet(c.best) <==> n in c.visited && |set m | m in c.visited && m > n| < Room(k))
      && (!TourCut(c, k) ==> c.visited == Reachable(entry, adj, dists))
  {
    var c := Toured(entry, adj, dists, k);
    TourFinds(entry, adj, dists, k);
    if n in c.visited { FoundExactly(c.best, c.visited, n, k, dists); }
  }

  /** As many nodes are returned as there is room for, or as are reachable: the search is cut short only
      when the results are full. */
  lemma TourCount(entry: nat, adj: seq<seq<nat>>, dists: seq<real>, k: nat)
    requires entry < |dists|
    ensures var reachable := Reachable(entry, adj, dists);
      |Toured(entry, adj, dists, k).best| == if Room(k) < |reachable| then Room(k) else |reachable|
  {
    var c := Toured(entry, adj, dists, k);
    TourFinds(entry, adj, dists, k);
    LargestIdsCount(c.best, c.visited, k, dists);
    SubsetSize(c.visited, Reachable(entry, adj, dists));
  }

  lemma {:induction false} SubsetOfSameSize(a: set<nat>, b: set<nat>)
    requires a <= b && |a| >= |b|
    ensures a == b
  {
    if a != b {
      var x :| x in b && x !in a;
      SubsetSize(a, b - {x});
    }
  }

  /** When there is room for all reachable nodes, all of them are returned. */
  lemma SmallGraphsAreFound(entry: nat, adj: seq<seq<nat>>, dists: seq<real>, k: nat)
    requires entry < |dists| && |Reachable(entry, adj, dists)| <= Room(k)
    ensures IdSet(Toured(entry, adj, dists, k).best) == Reachable(entry, adj, dists)
  {
    var c := Toured(entry, adj, dists, k);
    TourFinds(entry, adj, dists, k);
    TourCount(entry, adj, dists, k);
    IdSetCount(c.best);
    SubsetOfSameSize(IdSet(c.best), Reachable(entry, adj, dists));
  }

  // ---------------------------------------------------------------------------------------
  // When the nearest are found
  // ---------------------------------------------------------------------------------------

  /** No reachable node that is left out is nearer than one that is returned. */
  ghost predicate ReturnsNearest(entry: nat, adj: seq<seq<nat>>, dists: seq<real>, k: nat)
    requires entry < |dists|
  {
    var best := Toured(entry, adj, dists, k).best;
    forall x, n :: x in best && n in Reachable(entry, adj, dists) && n !in IdSet(best) ==> dists[n] >= x.dist
  }

  /** The nodes reachable in a graph of a given size: their distances play no part. */
  ghost function ReachableIn(entry: nat, adj: seq<seq<nat>>, size: nat): set<nat> {
    Reachable(entry, adj, seq(size, _ => 0.0))
  }

  lemma ReachableIgnoresDistances(entry: nat, adj: seq<seq<nat>>, dists: seq<real>)
    ensures Reachable(entry, adj, dists) == ReachableIn(entry, adj, |dists|)
  {
    var zeros := seq(|dists|, _ => 0.0);
    forall n: nat | n < |dists| ensures IsReachable(entry, n, adj, dists) <==> IsReachable(entry, n, adj, zeros) {
      assert forall path: seq<nat> :: Leads(path, entry, n, adj, dists) <==> Leads(path, entry, n, adj, zeros);
    }
  }

  /** Queued nodes are queued at their distances. */
  ghost predicate TrueQueue(candidates: seq<Neighbor>, dists: seq<real>) {
    forall x :: x in candidates ==> x.id < |dists| && x.dist == dists[x.id]
  }

  lemma {:induction false} LookAllTrue(s: Tour, list: seq<nat>, dists: seq<real>, k: nat)
    requires TrueQueue(s.candidates, dists)
    ensures TrueQueue(LookAll(s, list, dists, k).candidates, dists)
  {
    if list != [] {
      var rest, n := list[..|list| - 1], list[|list| - 1];
      LookAllTrue(s, rest, dists, k);
      if n < |dists| { InsertedById(LookAll(s, rest, dists, k).candidates, Neighbor(n, dists[n])); }
    }
  }

  lemma {:induction false} RunTrue(s: Tour, adj: seq<seq<nat>>, dists: seq<real>, k: nat)
    requires TrueQueue(s.candidates, dists)
    ensures TrueQueue(TourRun(s, adj, dists, k).candidates, dists)
    decreases |Unseen(s.visited, |dists|)|, |s.candidates|
  {
    if s.candidates == [] || TourCut(s, k) {
    } else {
      var last := |s.candidates| - 1;
      LookAllTrue(s.(candidates := s.candidates[..last]), Adjacent(adj, s.candidates[last].id), dists, k);
      StepShrinks(s, adj, dists, k);
      RunTrue(TourStep(s, adj, dists, k), adj, dists, k);
    }
  }

  /** Distance 1 to one node and 0 to all others, as when all vectors but one are at the query. */
  function FarFrom(m: nat, size: nat): (dists: seq<real>)
    ensures |dists| == size && forall i :: 0 <= i < size ==> dists[i] == if i == m then 1.0 else 0.0
  {
    seq(size, i => if i == m then 1.0 else 0.0)
  }

  /** With one far node only that node can cut the search short: either way it is visited, and having the
      largest id it is returned. */
  lemma FarNodeIsReturned(entry: nat, adj: seq<seq<nat>>, m: nat, size: nat, k: nat)
    requires entry < size && m in Reachable(entry, adj, FarFrom(m, size))
    requires forall n :: n in Reachable(entry, adj, FarFrom(m, size)) ==> n <= m
    ensures m in IdSet(Toured(entry, adj, FarFrom(m, size), k).best)
  {
    var dists := FarFrom(m, size);
    var c := Toured(entry, adj, dists, k);
    TourFinds(entry, adj, dists, k);
    RunTrue(TourStart(entry, dists), adj, dists, k);
    StartOnTour(entry, adj, dists, k);
    ReachableIsClosed(entry, adj, dists);
    RunOnTour(TourStart(entry, dists), adj, dists, k, Reachable(entry, adj, dists));
    if TourCut(c, k) {
      var last := c.candidates[|c.candidates| - 1];
      assert last in c.candidates && c.best[0] in c.best;
      assert last.id == m;
    }
    FoundExactly(c.best, c.visited, m, k, dists);
    assert (set n | n in c.visited && n > m) == {};
  }

  lemma {:induction false} Largest(s: set<nat>) returns (m: nat)
    requires s != {}
    ensures m in s && forall n :: n in s ==> n <= m
  {
    var one :| one in s;
    var rest := s - {one};
    m := one;
    if rest != {} {
      var other := Largest(rest);
      if other > one { m := other; }
    }
    assert forall n :: n in s ==> n == one || n in rest;
  }

  /** With more reachable nodes than room, some distances make the search return a node that is farther than
      one it leaves out. */
  lemma NearerLeftOut(entry: nat, adj: seq<seq<nat>>, size: nat, k: nat) returns (dists: seq<real>)
    requires entry < size && |ReachableIn(entry, adj, size)| > Room(k)
    ensures |dists| == size && !ReturnsNearest(entry, adj, dists, k)
  {
    var reachable := ReachableIn(entry, adj, size);
    var m := Largest(reachable);
    dists := FarFrom(m, size);
    ReachableIgnoresDistances(entry, adj, dists);
    FarNodeIsReturned(entry, adj, m, size, k);
    TourFinds(entry, adj, dists, k);
    var best := Toured(entry, adj, dists, k).best;
    IdSetCount(best);
    var x :| x in best && x.id == m;
    var n := NotAll(IdSet(best), reachable);
    assert dists[n] == 0.0 && x.dist == 1.0;
  }

  lemma NotAll(a: set<nat>, b: set<nat>) returns (n: nat)
    requires |a| < |b|
    ensures n in b && n !in a
  {
    if b <= a { SubsetSize(b, a); }
    n :| n in b && n !in a;
  }

  /** For which graphs the search returns the nearest nodes, whatever the distances: exactly for those with
      room for all nodes that can be reached from the entry. */
  lemma NearestExactly(entry: nat, adj: seq<seq<nat>>, size: nat, k: nat)
    requires entry < size
    ensures (forall dists: seq<real> :: |dists| == size ==> ReturnsNearest(entry, adj, dists, k))
       <==> |ReachableIn(entry, adj, size)| <= Room(k)
  {
    if |ReachableIn(entry, adj, size)| <= Room(k) {
      forall dists: seq<real> | |dists| == size ensures ReturnsNearest(entry, adj, dists, k) {
        ReachableIgnoresDistances(entry, adj, dists);
        SmallGraphsAreFound(entry, adj, dists, k);
      }
    } else {
      var dists := NearerLeftOut(entry, adj, size, k);
    }
  }

  lemma CounterexampleTake(dists: seq<real>)
    requires dists == [1.0, 0.0, 2.0]
    ensures LookAll(Tour([], [Neighbor(0, 1.0)], {0}), [1, 2], dists, 1)
         == Tour([Neighbor(1, 0.0), Neighbor(2, 2.0)], [Neighbor(2, 2.0)], {0, 1, 2})
  {
    var x, y, z := Neighbor(0, 1.0), Neighbor(1, 0.0), Neighbor(2, 2.0);
    assert [1, 2][..1] == [1] && [1][..0] == [];
    assert [x][1..] == [] && [y][1..] == [] && [x, y][1..] == [y] && [y, z][1..] == [z];
    assert LookAll(Tour([], [x], {0}), [], dists, 1) == Tour([], [x], {0});
    assert InsertById([x], y) == [x, y] && InsertById([], y) == [y] && InsertById([y], z) == [y, z];
    assert LookAll(Tour([], [x], {0}), [1], dists, 1) == Tour([y], [y], {0, 1});
  }

  /** A search for one neighbour that visits every node and returns the farthest: node 1 is at distance 0,
      node 2, with the larger id, at distance 2. */
  lemma FarthestFoundCounterexample()
    ensures var c := Toured(0, [[1, 2], [], []], [1.0, 0.0, 2.0], 1);
      c.visited == {0, 1, 2} && c.best == [Neighbor(2, 2.0)] && c.candidates == []
  {
    var adj, dists: seq<real> := [[1, 2], [], []], [1.0, 0.0, 2.0];
    var x, y, z := Neighbor(0, 1.0), Neighbor(1, 0.0), Neighbor(2, 2.0);
    var all := {0, 1, 2};
    CounterexampleTake(dists);
    assert [x][..0] == [] && [y, z][..1] == [y] && [y][..0] == [];
    var s0, s1, s2, s3 := TourStart(0, dists), Tour([y, z], [z], all), Tour([y], [z], all), Tour([], [z], all);
    assert TourStep(s0, adj, dists, 1) == s1;
    assert TourStep(s1, adj, dists, 1) == s2;
    assert TourStep(s2, adj, dists, 1) == s3;
    assert TourRun(s2, adj, dists, 1) == s3;
    assert TourRun(s1, adj, dists, 1) == s3;
  }

  // ---------------------------------------------------------------------------------------
  // The search, in place
  // ---------------------------------------------------------------------------------------

  predicate QueueWithin(candidates: seq<Neighbor>, size: nat) {
    forall x :: x in candidates ==> x.id < size
  }

  lemma {:induction false} LookAllWithin(s: Tour, list: seq<nat>, dists: seq<real>, k: nat, size: nat)
    requires QueueWithin(s.candidates, size) && Within(list, size)
    ensures QueueWithin(LookAll(s, list, dists, k).candidates, size)
  {
    if list != [] {
      var rest, n := list[..|list| - 1], list[|list| - 1];
      LookAllWithin(s, rest, dists, k, size);
      if n < |dists| { InsertedById(LookAll(s, rest, dists, k).candidates, Neighbor(n, dists[n])); }
    }
  }

  lemma {:induction false} InsertedById(s: seq<Neighbor>, x: Neighbor)
    ensures forall y :: y in InsertById(s, x) ==> y == x || y in s
  {
    if s != [] && x.id >= s[0].id { InsertedById(s[1..], x); }
  }

  /** One turn of the loop: it stops, or leaves less work and the same outcome. */
  lemma TourTurn(s: Tour, adj: seq<seq<nat>>, dists: seq<real>, k: nat)
    requires s.candidates != [] && QueueWithin(s.candidates, |adj|) && AllProper(adj)
    ensures s.candidates[|s.candidates| - 1].id < |adj|
    ensures Within(adj[s.candidates[|s.candidates| - 1].id], |adj|)
    ensures QueueWithin(TourStep(s, adj, dists, k).candidates, |adj|)
    ensures TourRun(s, adj, dists, k) == if TourCut(s, k) then s else TourRun(TourStep(s, adj, dists, k), adj, dists, k)
    ensures var c := TourStep(s, adj, dists, k);
      || |Unseen(c.visited, |dists|)| < |Unseen(s.visited, |dists|)|
      || (Unseen(c.visited, |dists|) == Unseen(s.visited, |dists|) && |c.candidates| < |s.candidates|)
  {
    hide LookAll;
    var last := |s.candidates| - 1;
    assert s.candidates[last] in s.candidates;
    var u := s.candidates[last].id;
    assert Proper(adj[u], u, |adj|);
    LookAllWithin(s.(candidates := s.candidates[..last]), adj[u], dists, k, |adj|);
    StepShrinks(s, adj, dists, k);
  }

  lemma TourEnds(s: Tour, adj: seq<seq<nat>>, dists: seq<real>, k: nat)
    requires s.candidates == [] || TourCut(s, k)
    ensures TourRun(s, adj, dists, k) == s
  {
  }

  /** What is found lies in the graph. */
  lemma FoundWithin(entry: nat, adj: seq<seq<nat>>, dists: seq<real>, k: nat)
    requires entry < |adj| <= |dists| && AllProper(adj)
    ensures ById(Toured(entry, adj, dists, k).best)
    ensures forall x :: x in Toured(entry, adj, dists, k).best ==> x.id < |adj|
  {
    var region := AllNodes(|adj|);
    StartOnTour(entry, adj, dists, k);
    forall u, v | u in region && v in Adjacent(adj, u) && v < |dists| ensures v in region {
      assert Proper(adj[u], u, |adj|);
    }
    RunOnTour(TourStart(entry, dists), adj, dists, k, region);
  }

  lemma ReversedTwice(s: seq<Neighbor>)
    ensures Reversed(Reversed(s)) == s
  {
  }

  /** Takes an unvisited neighbour into both queues. */
  method Take(n: nat, query: Vector, vectors: seq<Vector>, k: nat, metric: Metric,
              candidates0: seq<Neighbor>, best0: seq<Neighbor>, visited0: set<nat>)
    returns (candidates: seq<Neighbor>, best: seq<Neighbor>, visited: set<nat>)
    requires n < |vectors| && best0 != []
    ensures Tour(candidates, best, visited)
         == TakeIn(Tour(candidates0, best0, visited0), n, Measurements(query, vectors, metric), k)
    ensures best != []
  {
    visited := visited0 + {n};
    var x := Neighbor(n, metric(query, vectors[n]));
    candidates := InsertById(candidates0, x);
    best := InsertById(best0, x);
    if |best| > k {
      best := best[1..];
    }
  }

  /** Visits the neighbours of one node that were not visited yet. */
  method ExpandNeighbors(list: seq<nat>, query: Vector, vectors: seq<Vector>, k: nat, metric: Metric,
                         candidates0: seq<Neighbor>, best0: seq<Neighbor>, visited0: set<nat>)
    returns (candidates: seq<Neighbor>, best: seq<Neighbor>, visited: set<nat>)
    requires Within(list, |vectors|) && best0 != []
    ensures Tour(candidates, best, visited)
         == LookAll(Tour(candidates0, best0, visited0), list, Measurements(query, vectors, metric), k)
    ensures best != []
  {
    hide TakeIn;
    candidates, best, visited := candidates0, best0, visited0;
    ghost var start, dists := Tour(candidates, best, visited), Measurements(query, vectors, metric);
    for i := 0 to |list|
      invariant Tour(candidates, best, visited) == LookAll(start, list[..i], dists, k) && best != []
    {
      assert list[..i + 1][..i] == list[..i];
      var n := list[i];
      if n !in visited {
        candidates, best, visited := Take(n, query, vectors, k, metric, candidates, best, visited);
      }
    }
    assert list[..|list|] == list;
  }

  /** What a search for the neighbours of a query returns. */
  function Searched(entry: nat, adj: seq<seq<nat>>, query: Vector, vectors: seq<Vector>, k: nat,
                    metric: Metric): seq<Neighbor>
    requires entry < |vectors|
  {
    Reversed(Toured(entry, adj, Measurements(query, vectors, metric), k).best)
  }

  /** Expands queued nodes, largest id first, until the queue is empty or, with k results, the node
      to expand is farther than the result with the smallest id. */
  method SearchForConstruction(query: Vector, vectors: seq<Vector>, graph: GraphNavData, k: nat, metric: Metric)
    returns (result: seq<Neighbor>, ghost visited: set<nat>)
    requires graph.Valid() && graph.numNodes <= |vectors| && AllProper(graph.adjacency)
    requires graph.entryPoint < graph.numNodes
    ensures result == Searched(graph.entryPoint, graph.adjacency, query, vectors, k, metric)
    ensures visited == Toured(graph.entryPoint, graph.adjacency, Measurements(query, vectors, metric), k).visited
    ensures LargestIds(Reversed(result), visited, k, Measurements(query, vectors, metric))
    ensures graph.entryPoint in visited
    ensures visited <= Reachable(graph.entryPoint, graph.adjacency, Measurements(query, vectors, metric))
    ensures result != [] && NoRepeats(IdsOf(result)) && Within(IdsOf(result), graph.numNodes)
  {
    hide TourRun;
    hide LookAll;
    hide LargestIds;
    hide Reachable;
    ghost var dists, adj := Measurements(query, vectors, metric), graph.adjacency;
    var entry := graph.entryPoint;
    var first := Neighbor(entry, metric(query, vectors[entry]));
    var best, candidates := [first], [first];
    var seen: set<nat> := {entry};
    ghost var tour := Tour(candidates, best, seen);
    ghost var finish := TourRun(tour, adj, dists, k);
    while candidates != []
      invariant tour == Tour(candidates, best, seen) && best != []
      invariant QueueWithin(candidates, |adj|) && TourRun(tour, adj, dists, k) == finish
      decreases |Unseen(seen, |dists|)|, |candidates|
    {
      var current := candidates[|candidates| - 1];
      TourTurn(tour, adj, dists, k);
      candidates := candidates[..|candidates| - 1];
      if |best| >= k && current.dist > best[0].dist { break; }
      var list := graph.adjacency[current.id];
      candidates, best, seen := ExpandNeighbors(list, query, vectors, k, metric, candidates, best, seen);
      tour := TourStep(tour, adj, dists, k);
    }
    visited := seen;
    result := Reversed(best);
    TourEnds(tour, adj, dists, k);
    TourFinds(entry, adj, dists, k);
    FoundWithin(entry, adj, dists, k);
    ReversedIds(best, graph.numNodes);
    ReversedTwice(best);
  }

  function Reversed(s: seq<Neighbor>): (r: seq<Neighbor>)
    ensures |r| == |s| && forall i :: 0 <= i < |r| ==> r[i] == s[|s| - 1 - i]
  {
    seq(|s|, i requires 0 <= i < |s| => s[|s| - 1 - i])
  }

  lemma ReversedIds(best: seq<Neighbor>, size: nat)
    requires ById(best) && forall x :: x in best ==> x.id < size
    ensures NoRepeats(IdsOf(Reversed(best))) && Within(IdsOf(Reversed(best)), size)
  {
    forall i | 0 <= i < |best| ensures best[i].id < size { assert best[i] in best; }
  }

  // ---------------------------------------------------------------------------------------
  // The builder
  // ---------------------------------------------------------------------------------------

  /** The result of pruning is a list in range, without repeats, and without the node. */
  lemma PrunedIsProper(sorted: seq<Neighbor>, candidates: seq<Neighbor>, node: nat, cap: nat, alpha: real,
                       vectors: seq<Vector>, metric: Metric, size: nat)
    requires SortedFrom(sorted, candidates) && size <= |vectors|
    requires Within(IdsOf(candidates), size) && NoRepeats(IdsOf(candidates))
    ensures Within(IdsOf(sorted), |vectors|)
    ensures Proper(IdsOf(Kept(sorted, node, cap, alpha, vectors, metric)), node, size)
  {
    SortedIds(sorted, candidates, size);
    KeptNoRepeats(sorted, node, cap, alpha, vectors, metric);
    var kept := Kept(sorted, node, cap, alpha, vectors, metric);
    forall i | 0 <= i < |kept| ensures IdsOf(kept)[i] < size {
      assert kept[i] in sorted;
      var j :| 0 <= j < |sorted| && sorted[j] == kept[i];
      assert IdsOf(sorted)[j] < size;
    }
  }

  /** One reverse edge, as the graph takes it. */
  function WithReverse(lists: seq<seq<nat>>, n: nat, node: nat, cap: nat): (r: seq<seq<nat>>)
    requires n < |lists|
    ensures |r| == |lists|
  {
    if node in lists[n] || |lists[n]| >= cap then lists else lists[n := lists[n] + [node]]
  }

  lemma ReverseStaysProper(lists: seq<seq<nat>>, n: nat, node: nat, cap: nat)
    requires AllProper(lists) && n < |lists| && node < |lists| && n != node
    ensures AllProper(WithReverse(lists, n, node, cap))
  {
    var next := WithReverse(lists, n, node, cap);
    forall i | 0 <= i < |next| ensures Proper(next[i], i, |next|) {
      assert Proper(lists[i], i, |lists|);
    }
  }

  lemma ReplacedStaysProper(lists: seq<seq<nat>>, node: nat, list: seq<nat>)
    requires AllProper(lists) && node < |lists| && Proper(list, node, |lists|)
    ensures AllProper(lists[node := list])
  {
    var next := lists[node := list];
    forall i | 0 <= i < |next| ensures Proper(next[i], i, |next|) {
      assert Proper(lists[i], i, |lists|);
    }
  }

  /** The reverse edges to a list of neighbours, in order. */
  function WithReverses(lists: seq<seq<nat>>, neighbors: seq<nat>, node: nat, cap: nat): (r: seq<seq<nat>>)
    requires Within(neighbors, |lists|)
    ensures |r| == |lists|
  {
    if neighbors == [] then lists
    else WithReverse(WithReverses(lists, neighbors[..|neighbors| - 1], node, cap),
                     neighbors[|neighbors| - 1], node, cap)
  }

  /** What the reverse edges to a list of neighbours make of the lists: each neighbour's gets the node at its end,
      unless it names the node already or is full; all others stay. */
  ghost predicate EdgesBack(before: seq<seq<nat>>, after: seq<seq<nat>>, neighbors: seq<nat>, node: nat, cap: nat) {
    && |after| == |before|
    && forall i :: 0 <= i < |before| ==>
         after[i] == if i in neighbors && node !in before[i] && |before[i]| < cap then before[i] + [node] else before[i]
  }

  lemma {:induction false} ReversesExactly(lists: seq<seq<nat>>, neighbors: seq<nat>, node: nat, cap: nat)
    requires Within(neighbors, |lists|)
    ensures EdgesBack(lists, WithReverses(lists, neighbors, node, cap), neighbors, node, cap)
  {
    if neighbors != [] {
      var rest, n := neighbors[..|neighbors| - 1], neighbors[|neighbors| - 1];
      ReversesExactly(lists, rest, node, cap);
      assert neighbors == rest + [n];
      assert forall i :: i in neighbors <==> i in rest || i == n;
    }
  }

  lemma {:induction false} ReversesStayProper(lists: seq<seq<nat>>, neighbors: seq<nat>, node: nat, cap: nat)
    requires AllProper(lists) && node < |lists| && Proper(neighbors, node, |lists|)
    ensures AllProper(WithReverses(lists, neighbors, node, cap))
    ensures WithReverses(lists, neighbors, node, cap)[node] == lists[node]
    ensures forall i :: 0 <= i < |lists| ==> |WithReverses(lists, neighbors, node, cap)[i]| <= Larger(|lists[i]|, cap)
  {
    if neighbors != [] {
      var rest, n := neighbors[..|neighbors| - 1], neighbors[|neighbors| - 1];
      assert n in neighbors;
      ReversesStayProper(lists, rest, node, cap);
      ReverseStaysProper(WithReverses(lists, rest, node, cap), n, node, cap);
    }
  }

  /** The result of pruning some candidates, ties of distance taken in some order. */
  ghost predicate IsPruneOf(result: seq<nat>, candidates: seq<Neighbor>, node: nat, cap: nat, alpha: real,
                            vectors: seq<Vector>, metric: Metric) {
    exists sorted :: IsPruneVia(sorted, result, candidates, node, cap, alpha, vectors, metric)
  }

  ghost predicate IsPruneVia(sorted: seq<Neighbor>, result: seq<nat>, candidates: seq<Neighbor>, node: nat, cap: nat,
                             alpha: real, vectors: seq<Vector>, metric: Metric) {
    SortedFrom(sorted, candidates) && NamesVectors(sorted, vectors)
    && exists at :: IsPick(at, sorted, node, cap, alpha, vectors, metric) && result == IdsAt(sorted, at)
  }

  /** The neighbours of a node with their distances from it. */
  function Measured(list: seq<nat>, node: nat, vectors: seq<Vector>, metric: Metric): (r: seq<Neighbor>)
    requires node < |vectors| && Within(list, |vectors|)
    ensures IdsOf(r) == list
  {
    seq(|list|, i requires 0 <= i < |list| => Neighbor(list[i], metric(vectors[node], vectors[list[i]])))
  }

  function Larger(a: nat, b: nat): nat {
    if a < b then b else a
  }

  /** The nodes a random start gives a node: a prefix of the shuffle, without itself. */
  function WithoutNode(s: seq<nat>, node: nat): seq<nat> {
    if s == [] then []
    else WithoutNode(s[..|s| - 1], node) + if s[|s| - 1] != node then [s[|s| - 1]] else []
  }

  /** The first nodes of a shuffle, without the node itself. */
  function RandomList(shuffle: seq<nat>, node: nat, initDegree: nat): seq<nat> {
    if shuffle == [] then []
    else WithoutNode(shuffle[..if initDegree < |shuffle| - 1 then initDegree else |shuffle| - 1], node)
  }

  /** The random start: each node gets the first nodes of its shuffle. */
  function RandomStart(shuffles: seq<seq<nat>>, initDegree: nat): (r: seq<seq<nat>>)
    ensures |r| == |shuffles|
    ensures forall i :: 0 <= i < |r| ==> r[i] == RandomList(shuffles[i], i, initDegree)
  {
    seq(|shuffles|, i requires 0 <= i < |shuffles| => RandomList(shuffles[i], i, initDegree))
  }

  lemma {:induction false} WithoutNodeIsProper(s: seq<nat>, node: nat, size: nat)
    requires Within(s, size) && NoRepeats(s)
    ensures Proper(WithoutNode(s, node), node, size)
    ensures forall n :: n in WithoutNode(s, node) ==> n in s
  {
    if s != [] {
      WithoutNodeIsProper(s[..|s| - 1], node, size);
      assert s == s[..|s| - 1] + [s[|s| - 1]];
      assert s[|s| - 1] !in s[..|s| - 1];
    }
  }

  /** The list is another without one node, which that names at most once. */
  ghost predicate LeavesOut(list: seq<nat>, all: seq<nat>, node: nat) {
    if node in all then exists p :: LeavesOutAt(list, all, node, p) else list == all
  }

  predicate LeavesOutAt(list: seq<nat>, all: seq<nat>, node: nat, p: int) {
    0 <= p < |all| && all[p] == node && list == all[..p] + all[p + 1..]
  }

  lemma LeavesOutBefore(list: seq<nat>, all: seq<nat>, node: nat, p: int, last: nat)
    requires LeavesOutAt(list, all, node, p)
    ensures LeavesOutAt(list + [last], all + [last], node, p)
  {
    var more := all + [last];
    assert more[..p] == all[..p] && more[p + 1..] == all[p + 1..] + [last];
  }

  lemma {:induction false} WithoutNodeExactly(s: seq<nat>, node: nat)
    requires NoRepeats(s)
    ensures LeavesOut(WithoutNode(s, node), s, node)
  {
    if s != [] {
      var last := |s| - 1;
      assert s == s[..last] + [s[last]];
      WithoutNodeExactly(s[..last], node);
      if node in s[..last] {
        var p :| LeavesOutAt(WithoutNode(s[..last], node), s[..last], node, p);
        LeavesOutBefore(WithoutNode(s[..last], node), s[..last], node, p, s[last]);
      } else if s[last] == node {
        assert LeavesOutAt(s[..last], s, node, last);
      }
    }
  }

  /** Each list starts as the first nodes of its shuffle, at most one fewer than all, without its own node. */
  ghost predicate IsRandomStart(lists: seq<seq<nat>>, shuffles: seq<seq<nat>>, initDegree: nat) {
    && |lists| == |shuffles|
    && forall i :: 0 <= i < |lists| ==> IsRandomList(lists[i], shuffles[i], i, initDegree)
  }

  ghost predicate IsRandomList(list: seq<nat>, shuffle: seq<nat>, node: nat, initDegree: nat) {
    shuffle != [] && LeavesOut(list, shuffle[..if initDegree < |shuffle| then initDegree else |shuffle| - 1], node)
  }

  lemma StartsAtRandom(shuffles: seq<seq<nat>>, initDegree: nat)
    requires forall i :: 0 <= i < |shuffles| ==> IsShuffle(shuffles[i], |shuffles|)
    ensures IsRandomStart(RandomStart(shuffles, initDegree), shuffles, initDegree)
  {
    hide LeavesOut;
    forall i | 0 <= i < |shuffles|
      ensures IsRandomList(RandomStart(shuffles, initDegree)[i], shuffles[i], i, initDegree)
    {
      assert IsShuffle(shuffles[i], |shuffles|);
      var limit := if initDegree < |shuffles| then initDegree else |shuffles| - 1;
      WithoutNodeExactly(shuffles[i][..limit], i);
    }
  }

  /** A shuffle of all the nodes names each of them. */
  lemma ShuffleNamesAll(order: seq<nat>, size: nat, n: nat)
    requires IsShuffle(order, size) && n < size
    ensures n in order
  {
    NoRepeatsCount(order);
    if n !in order {
      var all := AllNodes(size);
      assert SetOf(order) <= all - {n};
      SubsetSize(SetOf(order), all - {n});
    }
  }

  class VamanaBuilder {
    const maxDegree: nat
    const initDegree: nat
    const searchListSize: nat
    const alpha: real
    const metric: Metric

    constructor (maxDegree: nat, initDegree: nat, searchListSize: nat, alpha: real, metric: Metric)
      ensures this.maxDegree == maxDegree && this.initDegree == initDegree && this.searchListSize == searchListSize
      ensures this.alpha == alpha && this.metric == metric
    {
      this.maxDegree, this.initDegree, this.searchListSize := maxDegree, initDegree, searchListSize;
      this.alpha, this.metric := alpha, metric;
    }

    method RobustPrune(node: nat, candidates: seq<Neighbor>, vectors: seq<Vector>, size: nat)
      returns (result: seq<nat>)
      requires size <= |vectors| && Within(IdsOf(candidates), size) && NoRepeats(IdsOf(candidates))
      ensures IsPruneOf(result, candidates, node, maxDegree, alpha, vectors, metric)
      ensures |result| <= maxDegree && Proper(result, node, size)
    {
      var sorted := SortByDistance(candidates);
      PrunedIsProper(sorted, candidates, node, maxDegree, alpha, vectors, metric, size);
      var kept := PruneSorted(sorted, node, maxDegree, alpha, vectors, metric);
      result := IdsOf(kept);
      NamedVectors(sorted, vectors);
      var at := KeptIsPick(sorted, node, maxDegree, alpha, vectors, metric);
      assert IsPruneVia(sorted, result, candidates, node, maxDegree, alpha, vectors, metric);
    }

    /** The first nodes of a shuffle, without one. */
    method FirstOthers(shuffle: seq<nat>, node: nat, limit: nat) returns (list: seq<nat>)
      requires limit <= |shuffle|
      ensures list == WithoutNode(shuffle[..limit], node)
    {
      list := [];
      for j := 0 to limit
        invariant list == WithoutNode(shuffle[..j], node)
      {
        assert shuffle[..j + 1][..j] == shuffle[..j];
        if shuffle[j] != node { list := list + [shuffle[j]]; }
      }
    }

    /** Gives each node the first nodes of a shuffle. The lists may be longer than the maximum degree. */
    method InitRandomGraph(vectors: seq<Vector>, graph: GraphNavData, shuffles: seq<seq<nat>>)
      requires graph.Valid() && graph.numNodes == |vectors| == |shuffles|
      requires forall i :: 0 <= i < |shuffles| ==> IsShuffle(shuffles[i], |vectors|)
      modifies graph`adjacency
      ensures graph.Valid() && AllProper(graph.adjacency)
      ensures IsRandomStart(graph.adjacency, shuffles, initDegree)
    {
      hide IsRandomStart;
      StartsAtRandom(shuffles, initDegree);
      var size := |vectors|;
      for i := 0 to size
        invariant graph.Valid()
        invariant forall j :: 0 <= j < i ==> Proper(graph.adjacency[j], j, size)
        invariant forall j :: 0 <= j < i ==> graph.adjacency[j] == RandomStart(shuffles, initDegree)[j]
      {
        assert IsShuffle(shuffles[i], size);
        var limit := if initDegree < size - 1 then initDegree else size - 1;
        var list := FirstOthers(shuffles[i], i, limit);
        WithoutNodeIsProper(shuffles[i][..limit], i, size);
        graph.SetList(i, list);
      }
      assert graph.adjacency == RandomStart(shuffles, initDegree);
    }

    /** Finds, of the vectors nearest to the centroid, the first. */
    method FindMedoid(vectors: seq<Vector>, centroid: Vector) returns (medoid: nat)
      requires vectors != []
      ensures medoid < |vectors|
      ensures forall i :: 0 <= i < |vectors| ==> metric(centroid, vectors[medoid]) <= metric(centroid, vectors[i])
      ensures forall i :: 0 <= i < medoid ==> metric(centroid, vectors[medoid]) < metric(centroid, vectors[i])
    {
      medoid := 0;
      var minDist := metric(centroid, vectors[0]);
      for i := 1 to |vectors|
        invariant medoid < i && minDist == metric(centroid, vectors[medoid])
        invariant forall j :: 0 <= j < i ==> minDist <= metric(centroid, vectors[j])
        invariant forall j :: 0 <= j < medoid ==> minDist < metric(centroid, vectors[j])
      {
        var dist := metric(centroid, vectors[i]);
        if dist < minDist {
          minDist := dist;
          medoid := i;
        }
      }
    }

    /** Adds the node to the lists of its new neighbours, where there is room. */
    method AddReverseEdges(graph: GraphNavData, node: nat, neighbors: seq<nat>)
      requires graph.Valid() && Within(neighbors, graph.numNodes) && node < graph.numNodes
      modifies graph`adjacency
      ensures graph.Valid() && graph.adjacency == WithReverses(old(graph.adjacency), neighbors, node, graph.maxDegree)
    {
      for i := 0 to |neighbors|
        invariant graph.Valid()
        invariant graph.adjacency == WithReverses(old(graph.adjacency), neighbors[..i], node, graph.maxDegree)
      {
        assert neighbors[..i + 1][..i] == neighbors[..i];
        var added := graph.AddNeighbor(neighbors[i], node);
      }
      assert neighbors[..|neighbors|] == neighbors;
    }

    /** Searches for a node's neighbours, prunes them, and links both ways. */
    method Reconnect(graph: GraphNavData, node: nat, vectors: seq<Vector>)
      returns (ghost candidates: seq<Neighbor>, ghost pruned: seq<nat>)
      requires graph.Valid() && AllProper(graph.adjacency) && node < graph.numNodes <= |vectors|
      requires graph.entryPoint < graph.numNodes
      modifies graph`adjacency
      ensures graph.Valid() && AllProper(graph.adjacency) && Within(pruned, graph.numNodes)
      ensures EdgesBack(old(graph.adjacency)[node := pruned], graph.adjacency, pruned, node, graph.maxDegree)
      ensures candidates == Searched(graph.entryPoint, old(graph.adjacency), vectors[node], vectors,
                                        searchListSize, metric)
      ensures IsPruneOf(pruned, candidates, node, maxDegree, alpha, vectors, metric)
      ensures |graph.adjacency[node]| <= maxDegree
      ensures forall i :: 0 <= i < graph.numNodes && i != node ==>
        |graph.adjacency[i]| <= Larger(|old(graph.adjacency)[i]|, graph.maxDegree)
    {
      hide IsPruneOf;
      hide LargestIds;
      hide Searched;
      hide Reachable;
      var found, visited := SearchForConstruction(vectors[node], vectors, graph, searchListSize, metric);
      var chosen := RobustPrune(node, found, vectors, graph.numNodes);
      candidates, pruned := found, chosen;
      ReplacedStaysProper(graph.adjacency, node, chosen);
      ReversesStayProper(graph.adjacency[node := chosen], chosen, node, graph.maxDegree);
      ReversesExactly(graph.adjacency[node := chosen], chosen, node, graph.maxDegree);
      graph.SetList(node, chosen);
      AddReverseEdges(graph, node, chosen);
    }

    /** What one reconnection does: the node's list becomes a prune of what the search for it finds, and its
        new neighbours take the reverse edges while they have room. */
    ghost predicate Reconnected(before: seq<seq<nat>>, after: seq<seq<nat>>, node: nat, entry: nat, cap: nat,
                                vectors: seq<Vector>) {
      exists pruned :: ReconnectedBy(pruned, before, after, node, entry, cap, vectors)
    }

    ghost predicate ReconnectedBy(pruned: seq<nat>, before: seq<seq<nat>>, after: seq<seq<nat>>, node: nat, entry: nat,
                                  cap: nat, vectors: seq<Vector>) {
      && node < |before| <= |vectors| && entry < |vectors| && Within(pruned, |before|)
      && IsPruneOf(pruned, Searched(entry, before, vectors[node], vectors, searchListSize, metric), node, maxDegree,
                   alpha, vectors, metric)
      && EdgesBack(before[node := pruned], after, pruned, node, cap)
    }

    /** The lists after each reconnection, in the order of the nodes. */
    ghost predicate IsTrace(trace: seq<seq<seq<nat>>>, order: seq<nat>, entry: nat, cap: nat, vectors: seq<Vector>) {
      && |trace| == |order| + 1
      && forall i :: 0 <= i < |order| ==> Reconnected(trace[i], trace[i + 1], order[i], entry, cap, vectors)
    }

    method ReconnectAll(graph: GraphNavData, order: seq<nat>, vectors: seq<Vector>)
      returns (ghost trace: seq<seq<seq<nat>>>)
      requires graph.Valid() && AllProper(graph.adjacency) && graph.numNodes <= |vectors|
      requires graph.entryPoint < graph.numNodes
      requires Within(order, graph.numNodes)
      modifies graph`adjacency
      ensures graph.Valid() && AllProper(graph.adjacency)
      ensures Bounded(graph.adjacency, order, Larger(maxDegree, graph.maxDegree))
      ensures IsTrace(trace, order, graph.entryPoint, graph.maxDegree, vectors)
      ensures trace[0] == old(graph.adjacency) && trace[|order|] == graph.adjacency
    {
      hide IsPruneOf;
      hide Searched;
      trace := [graph.adjacency];
      for i := 0 to |order|
        invariant graph.Valid() && AllProper(graph.adjacency)
        invariant |trace| == i + 1 && trace[0] == old(graph.adjacency) && trace[i] == graph.adjacency
        invariant forall j :: 0 <= j < i ==>
            Reconnected(trace[j], trace[j + 1], order[j], graph.entryPoint, graph.maxDegree, vectors)
        invariant Bounded(graph.adjacency, order[..i], Larger(maxDegree, graph.maxDegree))
      {
        assert order[..i + 1] == order[..i] + [order[i]];
        var candidates, pruned := Reconnect(graph, order[i], vectors);
        assert ReconnectedBy(pruned, trace[i], graph.adjacency, order[i], graph.entryPoint, graph.maxDegree, vectors);
        trace := trace + [graph.adjacency];
      }
      assert order[..|order|] == order;
    }

    /** Builds the graph from a random start, visiting the nodes in a random order. */
    method Build(vectors: seq<Vector>, dim: nat, graph: GraphNavData, shuffles: seq<seq<nat>>, order: seq<nat>)
      returns (status: Status, ghost centroid: Vector, ghost trace: seq<seq<seq<nat>>>)
      requires Uniform(vectors, dim)
      requires graph.Valid() && graph.numNodes == |vectors| == |shuffles| && IsShuffle(order, |vectors|)
      requires forall i :: 0 <= i < |shuffles| ==> IsShuffle(shuffles[i], |vectors|)
      modifies graph
      ensures status == if vectors == [] then InvalidArgument else Success
      ensures graph.Valid() && graph.numNodes == |vectors|
      ensures status == Success ==>
        && AllProper(graph.adjacency)
        && forall i :: 0 <= i < |vectors| ==> |graph.adjacency[i]| <= Larger(maxDegree, graph.maxDegree)
      ensures status == Success ==>
        && IsMean(centroid, vectors, dim) && graph.entryPoint < |vectors|
        && forall i :: 0 <= i < |vectors| ==>
            && metric(centroid, vectors[graph.entryPoint]) <= metric(centroid, vectors[i])
            && (i < graph.entryPoint ==> metric(centroid, vectors[graph.entryPoint]) < metric(centroid, vectors[i]))
      ensures status == Success ==>
        && IsTrace(trace, order, graph.entryPoint, graph.maxDegree, vectors)
        && IsRandomStart(trace[0], shuffles, initDegree) && trace[|order|] == graph.adjacency
      ensures status != Success ==> graph.adjacency == old(graph.adjacency) && graph.entryPoint == old(graph.entryPoint)
    {
      hide IsTrace;
      centroid, trace := [], [];
      if vectors == [] { return InvalidArgument, centroid, trace; }
      InitRandomGraph(vectors, graph, shuffles);
      var mean := Centroid(vectors, dim);
      var medoid := FindMedoid(vectors, mean);
      graph.entryPoint := medoid;
      var lists := ReconnectAll(graph, order, vectors);
      forall i | 0 <= i < |vectors| ensures |graph.adjacency[i]| <= Larger(maxDegree, graph.maxDegree) {
        ShuffleNamesAll(order, |vectors|, i);
      }
      return Success, mean, lists;
    }

    method MeasureList(list: seq<nat>, node: nat, vectors: seq<Vector>) returns (candidates: seq<Neighbor>)
      requires node < |vectors| && Within(list, |vectors|)
      ensures candidates == Measured(list, node, vectors, metric)
    {
      candidates := [];
      for i := 0 to |list|
        invariant candidates == Measured(list, node, vectors, metric)[..i]
      {
        candidates := candidates + [Neighbor(list[i], metric(vectors[node], vectors[list[i]]))];
      }
    }

    /** What one reverse edge of a new node does to a list: it is added where there is room, and a
        list that is then too long is pruned again. */
    ghost predicate EdgeAdded(before: seq<nat>, after: seq<nat>, neighbor: nat, node: nat, cap: nat,
                              vectors: seq<Vector>)
      requires neighbor < |vectors| && node < |vectors| && Within(before, |vectors|)
    {
      var grown := if node in before || |before| >= cap then before else before + [node];
      if |grown| <= maxDegree then after == grown
      else IsPruneOf(after, Measured(grown, neighbor, vectors, metric), neighbor, maxDegree, alpha, vectors, metric)
    }

    method AddReverseEdge(graph: GraphNavData, neighbor: nat, node: nat, vectors: seq<Vector>)
      requires graph.Valid() && AllProper(graph.adjacency) && graph.numNodes <= |vectors|
      requires neighbor < graph.numNodes && node < graph.numNodes && neighbor != node
      modifies graph`adjacency
      ensures graph.Valid() && AllProper(graph.adjacency)
      ensures Within(old(graph.adjacency)[neighbor], |vectors|)
      ensures EdgeAdded(old(graph.adjacency)[neighbor], graph.adjacency[neighbor],
                        neighbor, node, graph.maxDegree, vectors)
      ensures graph.adjacency == old(graph.adjacency)[neighbor := graph.adjacency[neighbor]]
      ensures |graph.adjacency[neighbor]| <= maxDegree
    {
      hide IsPruneOf;
      assert Proper(graph.adjacency[neighbor], neighbor, graph.numNodes);
      ReverseStaysProper(graph.adjacency, neighbor, node, graph.maxDegree);
      var added := graph.AddNeighbor(neighbor, node);
      if |graph.adjacency[neighbor]| > maxDegree {
        var list := graph.adjacency[neighbor];
        assert Proper(list, neighbor, graph.numNodes);
        var candidates := MeasureList(list, neighbor, vectors);
        var pruned := RobustPrune(neighbor, candidates, vectors, graph.numNodes);
        ReplacedStaysProper(graph.adjacency, neighbor, pruned);
        graph.SetList(neighbor, pruned);
      }
    }

    /** Every list a new node points to took the reverse edge; the others are as they were. */
    ghost predicate AllEdgesAdded(before: seq<seq<nat>>, after: seq<seq<nat>>, neighbors: seq<nat>, node: nat,
                                  cap: nat, vectors: seq<Vector>)
      requires |before| == |after| <= |vectors| && node < |before| && AllProper(before)
    {
      && (forall i :: 0 <= i < |before| && i != node && i !in neighbors ==> after[i] == before[i])
      && (forall i :: 0 <= i < |before| && i != node && i in neighbors ==>
            && Proper(before[i], i, |before|) && |after[i]| <= maxDegree
            && EdgeAdded(before[i], after[i], i, node, cap, vectors))
    }

    method AddAllEdges(graph: GraphNavData, neighbors: seq<nat>, node: nat, vectors: seq<Vector>)
      requires graph.Valid() && AllProper(graph.adjacency) && graph.numNodes <= |vectors|
      requires node < graph.numNodes && Proper(neighbors, node, graph.numNodes)
      modifies graph`adjacency
      ensures graph.Valid() && AllProper(graph.adjacency) && graph.adjacency[node] == old(graph.adjacency)[node]
      ensures AllEdgesAdded(old(graph.adjacency), graph.adjacency, neighbors, node, graph.maxDegree, vectors)
    {
      hide EdgeAdded;
      ghost var before := graph.adjacency;
      assert forall i :: 0 <= i < |before| ==> Proper(before[i], i, |before|);
      for i := 0 to |neighbors|
        invariant graph.Valid() && AllProper(graph.adjacency) && graph.adjacency[node] == before[node]
        invariant AllEdgesAdded(before, graph.adjacency, neighbors[..i], node, graph.maxDegree, vectors)
      {
        var n := neighbors[i];
        assert neighbors[..i + 1] == neighbors[..i] + [n];
        assert n in neighbors && n !in neighbors[..i];
        AddReverseEdge(graph, n, node, vectors);
      }
      assert neighbors[..|neighbors|] == neighbors;
    }

    /** Links a new node into the graph. An empty graph only gets its entry point. */
    method AddNodeIncremental(vectors: seq<Vector>, newVector: Vector, newNode: nat, graph: GraphNavData)
      returns (status: Status, ghost candidates: seq<Neighbor>)
      requires graph.Valid() && AllProper(graph.adjacency) && graph.numNodes <= |vectors|
      requires graph.numNodes > 0 ==> graph.entryPoint < graph.numNodes
      modifies graph`adjacency, graph`entryPoint
      ensures graph.Valid() && AllProper(graph.adjacency)
      ensures status == if 0 < graph.numNodes <= newNode then NodeNotFound else Success
      ensures graph.entryPoint == if graph.numNodes == 0 then newNode else old(graph.entryPoint)
      ensures status == NodeNotFound ==> graph.adjacency == old(graph.adjacency)
      ensures status == Success && graph.numNodes > 0 ==>
        && candidates == Searched(old(graph.entryPoint), old(graph.adjacency),
                                  newVector, vectors, searchListSize, metric)
        && IsPruneOf(graph.adjacency[newNode], candidates, newNode, maxDegree, alpha, vectors, metric)
        && |graph.adjacency[newNode]| <= maxDegree
        && AllEdgesAdded(old(graph.adjacency), graph.adjacency, graph.adjacency[newNode],
                         newNode, graph.maxDegree, vectors)
      ensures (forall i :: 0 <= i < graph.numNodes ==> |old(graph.adjacency)[i]| <= maxDegree)
           ==> forall i :: 0 <= i < graph.numNodes ==> |graph.adjacency[i]| <= maxDegree
    {
      hide IsPruneOf;
      hide LargestIds;
      hide Searched;
      hide Reachable;
      candidates := [];
      if graph.numNodes == 0 {
        graph.entryPoint := newNode;
        return Success, candidates;
      }
      var found, visited := SearchForConstruction(newVector, vectors, graph, searchListSize, metric);
      if found == [] {
        assert false;
      }
      var pruned := RobustPrune(newNode, found, vectors, graph.numNodes);
      if newNode >= graph.numNodes { return NodeNotFound, candidates; }
      ReplacedStaysProper(graph.adjacency, newNode, pruned);
      graph.SetList(newNode, pruned);
      AddAllEdges(graph, pruned, newNode, vectors);
      return Success, found;
    }
  }
}
