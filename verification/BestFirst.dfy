/** The best-first graph search as a function. */
module BestFirst {
  // Every in-memory and on-disk search of the store runs this loop; they differ only in which
  // neighbours of a popped node they look at, and in which order (`Expansion`).

  import opened Ranking

  const INVALID_NODE_ID: nat := 0xFFFF_FFFF

  /** The state of the loop: the min-heap of nodes still to expand and the max-heap of the best
      nodes so far (both kept in ascending order), and the set of visited nodes. */
  datatype Beam = Beam(frontier: seq<Scored>, best: seq<Scored>, visited: set<nat>)

  /** Which neighbours of an expanded node are looked at. */
  datatype Expansion =
    | AllNeighbours(adj: seq<seq<nat>>)
    | PqRanked(adj: seq<seq<nat>>, estimates: seq<real>, k: nat)

  function Adjacent(adj: seq<seq<nat>>, u: nat): seq<nat> {
    if u < |adj| then adj[u] else []
  }

  // ---------------------------------------------------------------------------------------
  // One expansion
  // ---------------------------------------------------------------------------------------

  function Trim(s: seq<Scored>, ef: nat): seq<Scored> {
    if |s| > ef then s[..ef] else s
  }

  /** Takes a node into both heaps; a result heap that grows past ef loses its worst node. */
  function Push(b: Beam, x: Scored, ef: nat): Beam {
    Beam(Insert(b.frontier, x), Trim(Insert(b.best, x), ef), b.visited + {x.id})
  }

  /** Visits an unvisited node: it enters both heaps when there is room for it or it beats the
      worst of the best nodes. */
  function Visit(b: Beam, x: Scored, ef: nat): Beam
    requires ef >= 1
  {
    if |b.best| < ef || x.dist < b.best[|b.best| - 1].dist
    then Push(b, x, ef)
    else b.(visited := b.visited + {x.id})
  }

  /** A node that the visited bitmap answers "unvisited" for. */
  predicate IsFresh(b: Beam, n: nat, dists: seq<real>) {
    n < |dists| && n !in b.visited
  }

  function VisitIfFresh(b: Beam, n: nat, dists: seq<real>, ef: nat): Beam
    requires ef >= 1
  {
    if IsFresh(b, n, dists) then Visit(b, Entry(dists, n), ef) else b
  }

  /** Looks at the nodes of a list one at a time, in order. */
  function Scan(b: Beam, nodes: seq<nat>, dists: seq<real>, ef: nat): Beam
    requires ef >= 1
  {
    if nodes == [] then b
    else VisitIfFresh(Scan(b, nodes[..|nodes| - 1], dists, ef), nodes[|nodes| - 1], dists, ef)
  }

  lemma {:induction false} ScanAppend(b: Beam, xs: seq<nat>, ys: seq<nat>, dists: seq<real>, ef: nat)
    requires ef >= 1
    ensures Scan(b, xs + ys, dists, ef) == Scan(Scan(b, xs, dists, ef), ys, dists, ef)
  {
    if ys == [] {
      assert xs + ys == xs;
    } else {
      var last := |ys| - 1;
      assert (xs + ys)[..|xs + ys| - 1] == xs + ys[..last];
      ScanAppend(b, xs, ys[..last], dists, ef);
    }
  }

  /** The unvisited nodes of a list, each with its estimated distance. */
  function Estimated(b: Beam, nodes: seq<nat>, estimates: seq<real>): seq<Scored> {
    if nodes == [] then []
    else
      var n := nodes[|nodes| - 1];
      var rest := Estimated(b, nodes[..|nodes| - 1], estimates);
      if n < |estimates| && n !in b.visited then rest + [Entry(estimates, n)] else rest
  }

  /** How many entries of an ascending list are at most (threshold, 0): std::upper_bound. */
  function UpperBound(s: seq<Scored>, threshold: real): (i: nat)
    ensures i <= |s|
  {
    if s != [] && !Before(Scored(threshold, 0), s[0]) then 1 + UpperBound(s[1..], threshold) else 0
  }

  /** Cuts off the entries whose estimate is more than four times the worst distance, when k
      results exist and at least k entries remain. */
  function CutFar(s: seq<Scored>, best: seq<Scored>, k: nat): seq<Scored> {
    if |best| >= k && best != [] then
      var at := UpperBound(s, best[|best| - 1].dist * 4.0);
      if at != |s| && at >= k then s[..at] else s
    else s
  }

  function Candidates(e: Expansion, b: Beam, u: nat): seq<nat> {
    match e
    case AllNeighbours(adj) => Adjacent(adj, u)
    case PqRanked(adj, estimates, k) =>
      Ids(CutFar(Sort(Estimated(b, Adjacent(adj, u), estimates)), b.best, k))
  }

  // ---------------------------------------------------------------------------------------
  // The whole loop
  // ---------------------------------------------------------------------------------------

  /** The early break: the closest node to expand is farther than the worst of a full result. */
  predicate Settled(b: Beam, ef: nat) {
    b.frontier != [] && |b.best| >= ef && b.best != [] && b.frontier[0].dist > b.best[|b.best| - 1].dist
  }

  function Expand(b: Beam, e: Expansion, dists: seq<real>, ef: nat): Beam
    requires ef >= 1 && b.frontier != []
  {
    var popped := b.(frontier := b.frontier[1..]);
    Scan(popped, Candidates(e, popped, b.frontier[0].id), dists, ef)
  }

  function Unvisited(b: Beam, dists: seq<real>): set<nat> {
    set n: nat | 0 <= n < |dists| && n !in b.visited
  }

  /** Every node enters the frontier at most once, so this decreases with each expansion. */
  function Work(b: Beam, dists: seq<real>): nat {
    |Unvisited(b, dists)| + |b.frontier|
  }

  lemma {:induction false} ScanWork(b: Beam, nodes: seq<nat>, dists: seq<real>, ef: nat)
    requires ef >= 1
    ensures Work(Scan(b, nodes, dists, ef), dists) <= Work(b, dists)
  {
    if nodes != [] {
      var rest, n := nodes[..|nodes| - 1], nodes[|nodes| - 1];
      ScanWork(b, rest, dists, ef);
      var c := Scan(b, rest, dists, ef);
      if IsFresh(c, n, dists) {
        var d := Visit(c, Entry(dists, n), ef);
        assert Unvisited(d, dists) == Unvisited(c, dists) - {n};
        assert n in Unvisited(c, dists);
      }
    }
  }

  function Run(b: Beam, e: Expansion, dists: seq<real>, ef: nat): Beam
    requires ef >= 1
    decreases Work(b, dists)
  {
    if b.frontier == [] || Settled(b, ef) then b
    else
      ExpandWork(b, e, dists, ef);
      Run(Expand(b, e, dists, ef), e, dists, ef)
  }

  lemma ExpandWork(b: Beam, e: Expansion, dists: seq<real>, ef: nat)
    requires ef >= 1 && b.frontier != []
    ensures Work(Expand(b, e, dists, ef), dists) < Work(b, dists)
  {
    var popped := b.(frontier := b.frontier[1..]);
    assert Unvisited(popped, dists) == Unvisited(b, dists);
    ScanWork(popped, Candidates(e, popped, b.frontier[0].id), dists, ef);
  }

  function Start(entry: nat, dists: seq<real>): Beam
    requires entry < |dists|
  {
    Beam([Entry(dists, entry)], [Entry(dists, entry)], {entry})
  }

  /** The ids of the k best nodes of a finished search. */
  function Answer(b: Beam, k: nat): seq<nat> {
    Ids(b.best)[..if k < |b.best| then k else |b.best|]
  }

  function Search(entry: nat, e: Expansion, dists: seq<real>, ef: nat, k: nat): seq<nat>
    requires ef >= 1 && entry < |dists|
  {
    Answer(Run(Start(entry, dists), e, dists, ef), k)
  }

  // ---------------------------------------------------------------------------------------
  // Invariants of the loop
  // ---------------------------------------------------------------------------------------

  /** Both heaps hold visited nodes with their true distances, each at most once. */
  ghost predicate TrueHeaps(b: Beam, dists: seq<real>) {
    && (forall n :: n in b.visited ==> n < |dists|)
    && StrictlyAscending(b.best) && StrictlyAscending(b.frontier)
    && (forall x :: x in b.best ==> x.id in b.visited && x == Entry(dists, x.id))
    && (forall x :: x in b.frontier ==> x.id in b.visited && x == Entry(dists, x.id))
  }

  /** A visited node that is not among the best is no closer than the worst of a full result. */
  ghost predicate NoBetter(b: Beam, n: nat, dists: seq<real>, ef: nat) {
    n in b.visited && n < |dists| && Entry(dists, n) !in b.best ==>
      |b.best| == ef >= 1 && dists[n] >= b.best[|b.best| - 1].dist
  }

  /** The heaps are true; the result heap has min(ef, |visited|) nodes, and no visited node
      beats its worst one. */
  ghost predicate Sound(b: Beam, dists: seq<real>, ef: nat) {
    && TrueHeaps(b, dists)
    && |b.best| == (if ef < |b.visited| then ef else |b.visited|)
    && (forall n :: n in b.visited ==> NoBetter(b, n, dists, ef))
  }

  predicate Accepts(b: Beam, x: Scored, ef: nat) {
    |b.best| < ef || (b.best != [] && x.dist < b.best[|b.best| - 1].dist)
  }

  lemma PushHeaps(b: Beam, n: nat, dists: seq<real>, ef: nat)
    requires TrueHeaps(b, dists) && IsFresh(b, n, dists)
    ensures TrueHeaps(Push(b, Entry(dists, n), ef), dists)
  {
    var x := Entry(dists, n);
    InsertStrict(b.best, x);
    InsertContents(b.best, x);
    InsertStrict(b.frontier, x);
    InsertContents(b.frontier, x);
    assert forall y :: y in Trim(Insert(b.best, x), ef) ==> y in Insert(b.best, x);
  }

  lemma PushNoBetter(b: Beam, n: nat, v: nat, dists: seq<real>, ef: nat)
    requires ef >= 1 && n < |dists|
    requires StrictlyAscending(b.best) && |b.best| <= ef && Entry(dists, n) !in b.best
    requires v == n || (v in b.visited && NoBetter(b, v, dists, ef))
    ensures NoBetter(Push(b, Entry(dists, n), ef), v, dists, ef)
  {
    var x := Entry(dists, n);
    var grown := Insert(b.best, x);
    InsertStrict(b.best, x);
    InsertContents(b.best, x);
    if v < |dists| && Entry(dists, v) !in Trim(grown, ef) {
      if Entry(dists, v) in grown {
        var i :| 0 <= i < |grown| && grown[i] == Entry(dists, v);
        assert forall j :: 0 <= j < |grown| && j < ef ==> Trim(grown, ef)[j] == grown[j];
        assert i == ef;
        assert Before(grown[ef - 1], grown[ef]);
      } else {
        LastOfGrown(b.best, x);
      }
    }
  }

  /** When a list takes one more, its worst entry stays last or is pushed back by one place. */
  lemma {:induction false} LastOfGrown(best: seq<Scored>, x: Scored)
    requires StrictlyAscending(best) && best != []
    ensures Insert(best, x)[|best| - 1].dist <= best[|best| - 1].dist
  {
    if !Before(x, best[0]) && |best| > 1 { LastOfGrown(best[1..], x); }
  }

  lemma PushSound(b: Beam, n: nat, dists: seq<real>, ef: nat)
    requires ef >= 1 && Sound(b, dists, ef) && IsFresh(b, n, dists)
    ensures Sound(Push(b, Entry(dists, n), ef), dists, ef)
  {
    var c := Push(b, Entry(dists, n), ef);
    assert |c.visited| == |b.visited| + 1;
    PushHeaps(b, n, dists, ef);
    forall v | v in c.visited ensures NoBetter(c, v, dists, ef) {
      PushNoBetter(b, n, v, dists, ef);
    }
  }

  lemma VisitSound(b: Beam, n: nat, dists: seq<real>, ef: nat)
    requires ef >= 1 && Sound(b, dists, ef) && IsFresh(b, n, dists)
    ensures Sound(Visit(b, Entry(dists, n), ef), dists, ef)
  {
    var c := Visit(b, Entry(dists, n), ef);
    if Accepts(b, Entry(dists, n), ef) {
      PushSound(b, n, dists, ef);
    } else {
      assert |c.visited| == |b.visited| + 1;
      forall v | v in c.visited ensures NoBetter(c, v, dists, ef) {
        assert v in b.visited ==> NoBetter(b, v, dists, ef);
      }
    }
  }

  lemma {:induction false} ScanSound(b: Beam, nodes: seq<nat>, dists: seq<real>, ef: nat)
    requires ef >= 1 && Sound(b, dists, ef)
    ensures Sound(Scan(b, nodes, dists, ef), dists, ef)
  {
    if nodes != [] {
      var rest, n := nodes[..|nodes| - 1], nodes[|nodes| - 1];
      ScanSound(b, rest, dists, ef);
      var c := Scan(b, rest, dists, ef);
      if IsFresh(c, n, dists) {
        VisitSound(c, n, dists, ef);
      }
    }
  }

  /** Scanning visits every in-range node of the list, and keeps everything visited before. */
  lemma {:induction false} ScanVisits(b: Beam, nodes: seq<nat>, dists: seq<real>, ef: nat)
    requires ef >= 1
    ensures b.visited <= Scan(b, nodes, dists, ef).visited
    ensures forall n :: n in nodes && n < |dists| ==> n in Scan(b, nodes, dists, ef).visited
    ensures forall n :: n in Scan(b, nodes, dists, ef).visited ==> n in b.visited || (n in nodes && n < |dists|)
  {
    if nodes != [] {
      ScanVisits(b, nodes[..|nodes| - 1], dists, ef);
    }
  }

  /** A node of the result after a scan either was there before or is still to be expanded. */
  lemma {:induction false} ScanQueues(b: Beam, nodes: seq<nat>, dists: seq<real>, ef: nat)
    requires ef >= 1
    ensures var c := Scan(b, nodes, dists, ef);
      && (forall x :: x in c.best ==> x in b.best || x in c.frontier)
      && (forall x :: x in b.frontier ==> x in c.frontier)
  {
    if nodes != [] {
      var rest, n := nodes[..|nodes| - 1], nodes[|nodes| - 1];
      ScanQueues(b, rest, dists, ef);
      var c := Scan(b, rest, dists, ef);
      if IsFresh(c, n, dists) {
        InsertContents(c.best, Entry(dists, n));
        InsertContents(c.frontier, Entry(dists, n));
      }
    }
  }

  lemma PopSound(b: Beam, dists: seq<real>, ef: nat)
    requires ef >= 1 && Sound(b, dists, ef) && b.frontier != []
    ensures Sound(b.(frontier := b.frontier[1..]), dists, ef)
  {
  }

  lemma {:induction false} RunSound(b: Beam, e: Expansion, dists: seq<real>, ef: nat)
    requires ef >= 1 && Sound(b, dists, ef)
    ensures Sound(Run(b, e, dists, ef), dists, ef)
    decreases Work(b, dists)
  {
    if b.frontier == [] || Settled(b, ef) {
    } else {
      var popped := b.(frontier := b.frontier[1..]);
      PopSound(b, dists, ef);
      ScanSound(popped, Candidates(e, popped, b.frontier[0].id), dists, ef);
      ExpandWork(b, e, dists, ef);
      RunSound(Expand(b, e, dists, ef), e, dists, ef);
    }
  }

  /** Queued nodes have a distance. */
  ghost predicate QueueInRange(frontier: seq<Scored>, size: nat) {
    forall i :: 0 <= i < |frontier| ==> frontier[i].id < size
  }

  lemma {:induction false} ScanInRange(b: Beam, nodes: seq<nat>, dists: seq<real>, ef: nat)
    requires ef >= 1 && QueueInRange(b.frontier, |dists|)
    ensures QueueInRange(Scan(b, nodes, dists, ef).frontier, |dists|)
  {
    if nodes != [] {
      var rest, n := nodes[..|nodes| - 1], nodes[|nodes| - 1];
      ScanInRange(b, rest, dists, ef);
      var c := Scan(b, rest, dists, ef);
      if IsFresh(c, n, dists) {
        InsertContents(c.frontier, Entry(dists, n));
        var d := Visit(c, Entry(dists, n), ef);
        forall i | 0 <= i < |d.frontier| ensures d.frontier[i].id < |dists| {
          assert d.frontier[i] in d.frontier;
        }
      }
    }
  }

  /** One turn of the loop leaves less work and the same outcome. */
  lemma ExpandStep(b: Beam, e: Expansion, dists: seq<real>, ef: nat)
    requires ef >= 1 && QueueInRange(b.frontier, |dists|) && b.frontier != [] && !Settled(b, ef)
    ensures QueueInRange(Expand(b, e, dists, ef).frontier, |dists|)
    ensures Work(Expand(b, e, dists, ef), dists) < Work(b, dists)
    ensures Run(b, e, dists, ef) == Run(Expand(b, e, dists, ef), e, dists, ef)
  {
    var popped := b.(frontier := b.frontier[1..]);
    ScanInRange(popped, Candidates(e, popped, b.frontier[0].id), dists, ef);
    ExpandWork(b, e, dists, ef);
  }

  /** Every out-neighbour of n that has a distance has been visited. */
  ghost predicate Explored(b: Beam, adj: seq<seq<nat>>, n: nat, dists: seq<real>) {
    forall m :: m in Adjacent(adj, n) && m < |dists| ==> m in b.visited
  }

  ghost predicate ExpandedOrQueued(b: Beam, adj: seq<seq<nat>>, dists: seq<real>) {
    forall x :: x in b.best ==> x in b.frontier || Explored(b, adj, x.id, dists)
  }

  lemma ExpandQueues(b: Beam, adj: seq<seq<nat>>, dists: seq<real>, ef: nat)
    requires ef >= 1 && b.frontier != [] && Sound(b, dists, ef) && ExpandedOrQueued(b, adj, dists)
    ensures ExpandedOrQueued(Expand(b, AllNeighbours(adj), dists, ef), adj, dists)
  {
    var popped := b.(frontier := b.frontier[1..]);
    var u := b.frontier[0].id;
    var c := Expand(b, AllNeighbours(adj), dists, ef);
    ScanVisits(popped, Adjacent(adj, u), dists, ef);
    ScanQueues(popped, Adjacent(adj, u), dists, ef);
    forall x | x in c.best ensures x in c.frontier || Explored(c, adj, x.id, dists) {
      assert x in b.frontier ==> x == b.frontier[0] || x in popped.frontier;
    }
  }

  /** When the loop stops, every node of the result has had all its neighbours visited: a
      node still queued would be no farther than the worst result, so the early break could
      not have been taken. */
  lemma {:induction false} RunExplores(b: Beam, adj: seq<seq<nat>>, dists: seq<real>, ef: nat)
    requires ef >= 1 && Sound(b, dists, ef) && ExpandedOrQueued(b, adj, dists)
    ensures var c := Run(b, AllNeighbours(adj), dists, ef);
      forall x :: x in c.best ==> Explored(c, adj, x.id, dists)
    decreases Work(b, dists)
  {
    var e := AllNeighbours(adj);
    if b.frontier == [] {
    } else if Settled(b, ef) {
      forall x | x in b.best ensures x !in b.frontier {
        var worst := b.best[|b.best| - 1];
        assert x.dist <= worst.dist;
        assert forall i :: 0 <= i < |b.frontier| ==> b.frontier[0].dist <= b.frontier[i].dist;
      }
    } else {
      var popped := b.(frontier := b.frontier[1..]);
      PopSound(b, dists, ef);
      ScanSound(popped, Candidates(e, popped, b.frontier[0].id), dists, ef);
      ExpandQueues(b, adj, dists, ef);
      ExpandWork(b, e, dists, ef);
      RunExplores(Expand(b, e, dists, ef), adj, dists, ef);
    }
  }

  /** Nothing outside a set closed under edges is visited from inside it. */
  ghost predicate ClosedUnderEdges(region: set<nat>, adj: seq<seq<nat>>, dists: seq<real>) {
    forall u, v :: u in region && v in Adjacent(adj, u) && v < |dists| ==> v in region
  }

  lemma CandidatesAreNeighbours(e: Expansion, b: Beam, u: nat)
    ensures forall n :: n in Candidates(e, b, u) ==> n in Adjacent(e.adj, u)
  {
    if e.PqRanked? {
      var est := Estimated(b, Adjacent(e.adj, u), e.estimates);
      EstimatedFrom(b, Adjacent(e.adj, u), e.estimates);
      SortContents(est);
      var cut := CutFar(Sort(est), b.best, e.k);
      forall n | n in Candidates(e, b, u) ensures n in Adjacent(e.adj, u) {
        var i :| 0 <= i < |cut| && Ids(cut)[i] == n;
        assert cut[i] in Sort(est);
      }
    }
  }

  lemma {:induction false} EstimatedFrom(b: Beam, nodes: seq<nat>, estimates: seq<real>)
    ensures forall x :: x in Estimated(b, nodes, estimates) ==>
      x.id in nodes && x.id < |estimates| && x.id !in b.visited && x == Entry(estimates, x.id)
    ensures forall n :: n in nodes && n < |estimates| && n !in b.visited ==>
      Entry(estimates, n) in Estimated(b, nodes, estimates)
  {
    if nodes != [] {
      EstimatedFrom(b, nodes[..|nodes| - 1], estimates);
    }
  }

  lemma {:induction false} RunStaysInside(b: Beam, e: Expansion, dists: seq<real>, ef: nat, region: set<nat>)
    requires ef >= 1 && Sound(b, dists, ef)
    requires b.visited <= region && ClosedUnderEdges(region, e.adj, dists)
    ensures Run(b, e, dists, ef).visited <= region
    ensures b.visited <= Run(b, e, dists, ef).visited
    decreases Work(b, dists)
  {
    if b.frontier == [] || Settled(b, ef) {
    } else {
      var popped := b.(frontier := b.frontier[1..]);
      var u := b.frontier[0].id;
      assert b.frontier[0] in b.frontier;
      PopSound(b, dists, ef);
      ScanSound(popped, Candidates(e, popped, u), dists, ef);
      CandidatesAreNeighbours(e, popped, u);
      ScanVisits(popped, Candidates(e, popped, u), dists, ef);
      ExpandWork(b, e, dists, ef);
      RunStaysInside(Expand(b, e, dists, ef), e, dists, ef, region);
    }
  }

  /** Pushes the unvisited nodes of a list, whatever their distances. */
  function Seed(b: Beam, nodes: seq<nat>, dists: seq<real>, ef: nat): Beam {
    if nodes == [] then b
    else
      var rest, n := Seed(b, nodes[..|nodes| - 1], dists, ef), nodes[|nodes| - 1];
      if IsFresh(rest, n, dists) then Push(rest, Entry(dists, n), ef) else rest
  }

  lemma {:induction false} SeedSound(b: Beam, nodes: seq<nat>, dists: seq<real>, ef: nat)
    requires ef >= 1 && Sound(b, dists, ef)
    ensures Sound(Seed(b, nodes, dists, ef), dists, ef)
    ensures b.visited <= Seed(b, nodes, dists, ef).visited
    ensures forall n :: n in Seed(b, nodes, dists, ef).visited ==> n in b.visited || n in nodes
  {
    if nodes != [] {
      var rest, n := nodes[..|nodes| - 1], nodes[|nodes| - 1];
      SeedSound(b, rest, dists, ef);
      var c := Seed(b, rest, dists, ef);
      if IsFresh(c, n, dists) { PushSound(c, n, dists, ef); }
    }
  }

  lemma StartSound(entry: nat, dists: seq<real>, ef: nat)
    requires ef >= 1 && entry < |dists|
    ensures Sound(Start(entry, dists), dists, ef)
  {
    assert |{entry}| == 1;
  }

  /** The result heap of a finished search is in order. */
  lemma RunAscending(entry: nat, e: Expansion, dists: seq<real>, ef: nat)
    requires ef >= 1 && entry < |dists|
    ensures Ascending(Run(Start(entry, dists), e, dists, ef).best)
  {
    StartSound(entry, dists, ef);
    RunSound(Start(entry, dists), e, dists, ef);
  }

  // ---------------------------------------------------------------------------------------
  // Reachability, stated by paths
  // ---------------------------------------------------------------------------------------

  ghost predicate IsPath(path: seq<nat>, adj: seq<seq<nat>>, dists: seq<real>) {
    && path != []
    && (forall i :: 0 <= i < |path| ==> path[i] < |dists|)
    && (forall i :: 0 <= i < |path| - 1 ==> path[i + 1] in Adjacent(adj, path[i]))
  }

  ghost predicate Leads(path: seq<nat>, s: nat, t: nat, adj: seq<seq<nat>>, dists: seq<real>) {
    IsPath(path, adj, dists) && path[0] == s && path[|path| - 1] == t
  }

  ghost predicate IsReachable(s: nat, t: nat, adj: seq<seq<nat>>, dists: seq<real>) {
    exists path: seq<nat> :: Leads(path, s, t, adj, dists)
  }

  /** The nodes that some path from `entry` ends in. */
  ghost function Reachable(entry: nat, adj: seq<seq<nat>>, dists: seq<real>): set<nat> {
    set n: nat | 0 <= n < |dists| && IsReachable(entry, n, adj, dists)
  }

  lemma ReachableIsClosed(entry: nat, adj: seq<seq<nat>>, dists: seq<real>)
    requires entry < |dists|
    ensures entry in Reachable(entry, adj, dists)
    ensures ClosedUnderEdges(Reachable(entry, adj, dists), adj, dists)
  {
    assert Leads([entry], entry, entry, adj, dists);
    forall u, v | u in Reachable(entry, adj, dists) && v in Adjacent(adj, u) && v < |dists|
      ensures v in Reachable(entry, adj, dists)
    {
      var path: seq<nat> :| Leads(path, entry, u, adj, dists);
      assert Leads(path + [v], entry, v, adj, dists);
    }
  }

  lemma {:induction false} PathStaysInside(path: seq<nat>, region: set<nat>, adj: seq<seq<nat>>, dists: seq<real>,
                                           i: nat)
    requires IsPath(path, adj, dists) && path[0] in region && ClosedUnderEdges(region, adj, dists)
    requires i < |path|
    ensures path[i] in region
  {
    if i > 0 {
      PathStaysInside(path, region, adj, dists, i - 1);
    }
  }

  lemma ReachableIsLeast(entry: nat, adj: seq<seq<nat>>, dists: seq<real>, region: set<nat>)
    requires entry in region && ClosedUnderEdges(region, adj, dists)
    ensures Reachable(entry, adj, dists) <= region
  {
    forall n | n in Reachable(entry, adj, dists) ensures n in region {
      var path: seq<nat> :| Leads(path, entry, n, adj, dists);
      PathStaysInside(path, region, adj, dists, |path| - 1);
    }
  }

  // ---------------------------------------------------------------------------------------
  // Main results
  // ---------------------------------------------------------------------------------------

  /** What every search guarantees, whatever the beam: the result heap holds min(ef, |visited|)
      visited nodes, no other visited node beats its worst one, and with the plain expansion
      every out-neighbour of a kept node is itself kept or is no closer than the worst kept
      one: the result is a local optimum of the graph. */
  lemma LocalOptimum(entry: nat, adj: seq<seq<nat>>, dists: seq<real>, ef: nat)
    requires ef >= 1 && entry < |dists|
    ensures var c := Run(Start(entry, dists), AllNeighbours(adj), dists, ef);
      && Sound(c, dists, ef)
      && entry in c.visited && c.visited <= Reachable(entry, adj, dists)
      && forall x, m :: x in c.best && m in Adjacent(adj, x.id) && m < |dists| ==>
           m in c.visited && (Entry(dists, m) in c.best || dists[m] >= c.best[|c.best| - 1].dist)
  {
    var e := AllNeighbours(adj);
    StartSound(entry, dists, ef);
    RunSound(Start(entry, dists), e, dists, ef);
    ReachableIsClosed(entry, adj, dists);
    RunStaysInside(Start(entry, dists), e, dists, ef, Reachable(entry, adj, dists));
    RunExplores(Start(entry, dists), adj, dists, ef);
    var c := Run(Start(entry, dists), e, dists, ef);
    forall x, m | x in c.best && m in Adjacent(adj, x.id) && m < |dists|
      ensures m in c.visited && (Entry(dists, m) in c.best || dists[m] >= c.best[|c.best| - 1].dist)
    {
      assert Explored(c, adj, x.id, dists);
      assert NoBetter(c, m, dists, ef);
    }
  }

  /** When at most ef nodes are reachable, the search is exact: it returns the k reachable
      nodes nearest to the query, in (distance, id) order. */
  lemma ExactWhenBeamIsWide(entry: nat, adj: seq<seq<nat>>, dists: seq<real>, ef: nat, k: nat)
    requires ef >= 1 && entry < |dists|
    requires |Reachable(entry, adj, dists)| <= ef
    ensures IsTopK(Search(entry, AllNeighbours(adj), dists, ef, k), Reachable(entry, adj, dists), dists, k)
  {
    var c := Run(Start(entry, dists), AllNeighbours(adj), dists, ef);
    var region := Reachable(entry, adj, dists);
    LocalOptimum(entry, adj, dists, ef);
    SubsetSize(c.visited, region);
    AllKept(c, dists, ef);
    forall u, v | u in c.visited && v in Adjacent(adj, u) && v < |dists| ensures v in c.visited {
      assert Entry(dists, u) in c.best;
    }
    ReachableIsLeast(entry, adj, dists, c.visited);
    assert c.visited == region;
    TakeIsTopK(c.best, region, dists, k);
  }

  /** A sound state with no more visited nodes than the beam keeps all of them. */
  lemma AllKept(c: Beam, dists: seq<real>, ef: nat)
    requires ef >= 1 && Sound(c, dists, ef) && |c.visited| <= ef
    ensures forall n :: n in c.visited ==> Entry(dists, n) in c.best
  {
    var kept := set x | x in c.best :: x.id;
    BestCount(c.best);
    assert kept <= c.visited;
    if kept != c.visited {
      var n :| n in c.visited && n !in kept;
      SubsetSize(kept, c.visited - {n});
      assert false;
    }
    forall n | n in c.visited ensures Entry(dists, n) in c.best {
      var x :| x in c.best && x.id == n;
    }
  }

  lemma {:induction false} BestCount(s: seq<Scored>)
    requires StrictlyAscending(s)
    requires forall i, j :: 0 <= i < j < |s| ==> s[i].id != s[j].id
    ensures |set x | x in s :: x.id| == |s|
  {
    if s != [] {
      BestCount(s[1..]);
      assert (set x | x in s :: x.id) == {s[0].id} + set x | x in s[1..] :: x.id;
    }
  }
}
